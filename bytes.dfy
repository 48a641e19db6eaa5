/** Bytes, fixed-width integers and their little-endian representation.
    `ToBytes` is the model of `to_bytes`, a `std::bit_cast` of a trivially
    copyable value to its object representation on a little-endian x86-64
    host: the low `n` bytes of the value's two's-complement form. */
module Bytes {

  /** An unsigned 8-bit value, `uint8_t`. */
  type byte = x: int | 0 <= x < 0x100

  /** The fixed-width signed integer types the encoders take as operands. */
  type i8 = x: int | -0x80 <= x < 0x80
  type i16 = x: int | -0x8000 <= x < 0x8000
  type i32 = x: int | -0x8000_0000 <= x < 0x8000_0000
  type i64 = x: int | -0x8000_0000_0000_0000 <= x < 0x8000_0000_0000_0000

  /** `size_t`, `uintptr_t` and `uint64_t` values. */
  type u64 = x: int | 0 <= x < 0x1_0000_0000_0000_0000

  const TwoTo32: int := 0x1_0000_0000
  const TwoTo64: int := 0x1_0000_0000_0000_0000

  function Pow256(n: nat): (p: int)
    ensures p >= 1
  {
    if n == 0 then 1 else 256 * Pow256(n - 1)
  }

  lemma Pow256Values()
    ensures Pow256(1) == 0x100 && Pow256(2) == 0x1_0000
    ensures Pow256(4) == TwoTo32 && Pow256(8) == TwoTo64
  {
  }

  /** A positive multiple of a positive number is at least that number. */
  lemma MulAtLeast(d: int, m: int)
    requires d >= 1 && m > 0
    ensures d * m >= m
  {
    assert d * m == (d - 1) * m + m;
    assert (d - 1) * m >= 0;
  }

  /** Quotient and remainder are unique with Dafny's Euclidean division. */
  lemma DivModUnique(v: int, m: int, q: int, r: int)
    requires m > 0 && 0 <= r < m && v == q * m + r
    ensures v / m == q && v % m == r
  {
    var q', r' := v / m, v % m;
    assert v == q' * m + r';
    assert (q' - q) * m == r - r' by {
      assert q' * m + r' == q * m + r;
      assert (q' - q) * m == q' * m - q * m;
    }
    if q' > q {
      MulAtLeast(q' - q, m);
    } else if q' < q {
      MulAtLeast(q - q', m);
    }
  }

  /** Adding a multiple of the modulus does not change the remainder. */
  lemma ModAddMultiple(a: int, k: int, m: int)
    requires m > 0
    ensures (a + k * m) % m == a % m
  {
    var q, r := a / m, a % m;
    assert a + k * m == (q + k) * m + r;
    DivModUnique(a + k * m, m, q + k, r);
  }

  /** Congruence modulo `k * m` implies congruence modulo `m`. */
  lemma ModOfMultiple(v: int, m: int, k: int)
    requires m > 0 && k > 0
    ensures (v % (k * m)) % m == v % m
  {
    var q, r := v / (k * m), v % (k * m);
    assert v == r + (q * k) * m by {
      assert v == q * (k * m) + r;
      assert q * (k * m) == (q * k) * m;
    }
    ModAddMultiple(r, q * k, m);
  }

  /** Adding the same amount to congruent values keeps them congruent. */
  lemma ModAddCongruent(a: int, b: int, c: int, m: int)
    requires m > 0 && a % m == b % m
    ensures (a + c) % m == (b + c) % m
  {
    var k := a / m - b / m;
    assert a == b + k * m by {
      assert a == (a / m) * m + a % m && b == (b / m) * m + b % m;
      assert (a / m) * m - (b / m) * m == k * m;
    }
    ModAddMultiple(b + c, k, m);
  }

  /** Splitting a remainder modulo `256 * p` into its low byte and the rest. */
  lemma ModSplit(v: int, p: int)
    requires p >= 1
    ensures (v % (256 * p)) % 256 == v % 256
    ensures (v % (256 * p)) / 256 == (v / 256) % p
    ensures v % (256 * p) == v % 256 + 256 * ((v / 256) % p)
  {
    var q, r0 := v / 256, v % 256;
    var t, s := q / p, q % p;
    assert v == 256 * q + r0;
    assert q == p * t + s;
    assert v == t * (256 * p) + (256 * s + r0) by {
      calc {
        v;
        256 * (p * t + s) + r0;
        t * (256 * p) + (256 * s + r0);
      }
    }
    DivModUnique(v, 256 * p, t, 256 * s + r0);
    DivModUnique(256 * s + r0, 256, s, r0);
  }

  /** The little-endian bytes of `v` modulo 256^n. */
  function ToBytes(v: int, n: nat): (r: seq<byte>)
    ensures |r| == n
    decreases n
  {
    if n == 0 then [] else [v % 256] + ToBytes(v / 256, n - 1)
  }

  /** The unsigned value of a little-endian byte string. */
  function FromBytes(s: seq<byte>): (u: int)
    ensures 0 <= u < Pow256(|s|)
  {
    if s == [] then 0 else s[0] + 256 * FromBytes(s[1..])
  }

  /** The signed (two's-complement) value of a little-endian byte string. */
  function Signed(s: seq<byte>): (v: int)
    ensures -Pow256(|s|) <= 2 * v < Pow256(|s|)
  {
    var u := FromBytes(s);
    if 2 * u >= Pow256(|s|) then u - Pow256(|s|) else u
  }

  /** Decoding an encoding gives back the value modulo 256^n. */
  lemma {:induction false} FromToBytes(v: int, n: nat)
    decreases n
    ensures FromBytes(ToBytes(v, n)) == v % Pow256(n)
  {
    if n > 0 {
      var s := ToBytes(v, n);
      assert s[1..] == ToBytes(v / 256, n - 1);
      FromToBytes(v / 256, n - 1);
      ModSplit(v, Pow256(n - 1));
    }
  }

  /** Only the value modulo 256^n matters to its encoding. */
  lemma {:induction false} ToBytesMod(v: int, n: nat)
    decreases n
    ensures ToBytes(v, n) == ToBytes(v % Pow256(n), n)
  {
    if n > 0 {
      var p := Pow256(n - 1);
      ModSplit(v, p);
      ToBytesMod(v / 256, n - 1);
      ToBytesMod((v % (256 * p)) / 256, n - 1);
    }
  }

  /** Congruent values modulo 256^n have the same encoding. */
  lemma ToBytesCongruent(a: int, b: int, n: nat)
    requires a % Pow256(n) == b % Pow256(n)
    ensures ToBytes(a, n) == ToBytes(b, n)
  {
    ToBytesMod(a, n);
    ToBytesMod(b, n);
  }

  /** Encoding then decoding as signed recovers every value of the signed range. */
  lemma SignedToBytes(v: int, n: nat)
    requires -Pow256(n) <= 2 * v < Pow256(n)
    ensures Signed(ToBytes(v, n)) == v
  {
    FromToBytes(v, n);
    if v >= 0 {
      DivModUnique(v, Pow256(n), 0, v);
    } else {
      DivModUnique(v, Pow256(n), -1, v + Pow256(n));
    }
  }

  /** The signed reading of an encoding is congruent to the encoded value. */
  lemma SignedCongruent(v: int, n: nat)
    ensures Signed(ToBytes(v, n)) % Pow256(n) == v % Pow256(n)
  {
    FromToBytes(v, n);
    var u := v % Pow256(n);
    if 2 * u >= Pow256(n) {
      DivModUnique(u - Pow256(n), Pow256(n), -1, u);
    } else {
      DivModUnique(u, Pow256(n), 0, u);
    }
  }

  /** A one-byte value is its own encoding. */
  lemma ToBytesByte(b: byte)
    ensures ToBytes(b, 1) == [b]
  {
  }

  /** Two's-complement narrowing of an integer to `n` bytes (the C++ cast to a narrower signed type). */
  function Narrow(v: int, n: nat): (r: int)
    requires n > 0
    ensures -Pow256(n) <= 2 * r < Pow256(n)
    ensures r % Pow256(n) == v % Pow256(n)
    ensures ToBytes(r, n) == ToBytes(v, n)
  {
    SignedCongruent(v, n);
    ToBytesCongruent(Signed(ToBytes(v, n)), v, n);
    Signed(ToBytes(v, n))
  }

  /** The implicit conversion of an unsigned 64-bit value to `int64_t`:
      the same eight bytes, read as two's complement. */
  function AsI64(v: u64): (r: i64)
    ensures ToBytes(r, 8) == ToBytes(v, 8)
    ensures r == if v < 0x8000_0000_0000_0000 then v else v - TwoTo64
  {
    Pow256Values();
    NarrowU64(v);
    Narrow(v, 8)
  }

  lemma NarrowU64(v: u64)
    ensures Pow256(8) == TwoTo64
    ensures Narrow(v, 8) == if v < 0x8000_0000_0000_0000 then v else v - TwoTo64
  {
    Pow256Values();
    var r := Narrow(v, 8);
    DivModUnique(v, TwoTo64, 0, v);
    if r >= 0 {
      DivModUnique(r, TwoTo64, 0, r);
    } else {
      DivModUnique(r, TwoTo64, -1, r + TwoTo64);
    }
  }

  /** `s` with the bytes `b` copied over it starting at `offset` (the effect of `std::ranges::copy` into the vector). */
  function Overwrite(s: seq<byte>, offset: nat, b: seq<byte>): (r: seq<byte>)
    requires offset + |b| <= |s|
    ensures |r| == |s|
  {
    s[..offset] + b + s[offset + |b|..]
  }

  /** Byte `k` after an overwrite: from `b` inside the written range, from `s` outside it. */
  lemma OverwriteAt(s: seq<byte>, offset: nat, b: seq<byte>, k: nat)
    requires offset + |b| <= |s| && k < |s|
    ensures Overwrite(s, offset, b)[k] == if offset <= k < offset + |b| then b[k - offset] else s[k]
  {
  }
}
