/** What the resolved buffer means: each operation's bytes decode back to
    the instruction it stands for, and each branch displacement, added to
    the address of the end of its instruction, gives the target label's
    address (modulo 2^32, and exactly while the code stays below 2 GiB). */
module Landing {
  import opened Bytes
  import opened X86
  import opened Labels
  import opened Wrappers
  import opened CodeLayout
  import opened X86Decode
  import opened X86RoundTrip

  /** The instruction operation `op` stands for at `site`: a branch carries
      the rel32 its encoder computes from the target's address. */
  function InstrOf(op: Op, site: nat, labels: seq<Label>): (r: Option<Instr>)
    requires LabelsIn(op, |labels|)
    ensures r.None? <==> op.BindAt?
    ensures r.Some? ==> Encode(r.value) == OpBytes(op, site, labels)
  {
    match op
    case Plain(i) => Some(i)
    case BindAt(_) => None
    case JccTo(cc, t) => OpBytesEncode(op, site, labels); Some(Jcc(cc, Rel32(labels[t], site, 6)))
    case JmpTo(t) => OpBytesEncode(op, site, labels); Some(Jmp(Rel32(labels[t], site, 5)))
    case CallTo(t) => OpBytesEncode(op, site, labels); Some(Call(Rel32(labels[t], site, 5)))
  }

  /** A rel32 field plus the end of its instruction is the label's address modulo 2^32. */
  lemma Rel32Lands(l: Label, site: nat, len: nat)
    ensures (Rel32(l, site, len) + site + len) % TwoTo32 == l.rip % TwoTo32
  {
    Pow256Values();
    var d := RelativeTo(l, site, len);
    var r := Rel32(l, site, len);
    assert r % TwoTo32 == d % TwoTo32;
    ModAddCongruent(r, d, site + len, TwoTo32);
    assert TwoTo64 == TwoTo32 * TwoTo32;
    ModOfMultiple(d + site + len, TwoTo32, TwoTo32);
    ModOfMultiple(l.rip, TwoTo32, TwoTo32);
  }

  /** Below 2^31 nothing wraps: the rel32 is exactly the distance from the
      end of the instruction to the label. */
  lemma Rel32Exact(l: Label, site: nat, len: nat)
    requires l.rip < 0x8000_0000 && site + len < 0x8000_0000
    ensures Rel32(l, site, len) == l.rip - site - len
  {
    Pow256Values();
    var d := RelativeTo(l, site, len);
    var r := Rel32(l, site, len);
    var e := l.rip - site - len;
    ModAddCongruent(d + site + len, l.rip, -(site + len), TwoTo64);
    assert TwoTo64 == TwoTo32 * TwoTo32;
    ModOfMultiple(d, TwoTo32, TwoTo32);
    ModOfMultiple(e, TwoTo32, TwoTo32);
    assert r % Pow256(4) == e % Pow256(4);
    ToBytesCongruent(r, e, 4);
    SignedToBytes(r, 4);
    SignedToBytes(e, 4);
  }

  /** A rel32 field read as a signed value, added to the offset `end` the
      branch ends at, gives `dest` modulo 2^32 (what the processor computes
      with a 32-bit displacement in the low half of `rip`). */
  predicate Wraps(field: seq<byte>, end: int, dest: int)
  {
    (Signed(field) + end) % TwoTo32 == dest % TwoTo32
  }

  /** The field is exactly the distance from `end` to `dest`. */
  predicate Exact(field: seq<byte>, end: int, dest: int)
  {
    Signed(field) == dest - end
  }

  /** A branch's bytes carry, in their rel32 field read as a signed 32-bit
      value, the rel32 its encoder computes. */
  lemma BranchField(chunk: seq<byte>, op: Op, site: nat, labels: seq<Label>)
    requires IsBranch(op) && LabelsIn(op, |labels|) && chunk == OpBytes(op, site, labels)
    ensures FieldStart(op) <= |chunk| == OpLen(op)
    ensures Signed(chunk[FieldStart(op)..]) == Rel32(labels[Target(op)], site, OpLen(op))
  {
    var r := Rel32(labels[Target(op)], site, OpLen(op));
    OpBytesField(op, site, labels);
    assert chunk[FieldStart(op)..] == ToBytes(r, 4);
    Pow256Values();
    SignedToBytes(r, 4);
  }

  /** A resolved branch's field, read as a signed 32-bit value, is the
      rel32 its encoder computes. */
  lemma FieldValue(code: seq<byte>, ops: seq<Op>, sites: seq<nat>, labels: seq<Label>, i: nat)
    requires Laid(ops, sites, |code|) && Named(ops, |labels|) && i < |ops| && IsBranch(ops[i])
    requires Resolved(code, ops, sites, labels, i)
    ensures sites[i] + OpLen(ops[i]) <= |code| && LabelsIn(ops[i], |labels|)
    ensures Signed(code[sites[i] + FieldStart(ops[i])..sites[i] + OpLen(ops[i])])
         == Rel32(labels[Target(ops[i])], sites[i], OpLen(ops[i]))
  {
    var op, site := ops[i], sites[i];
    var chunk := Chunk(code, ops, sites, i);
    assert LabelsIn(op, |labels|) && chunk == OpBytes(op, site, labels);
    BranchField(chunk, op, site, labels);
    assert code[site + FieldStart(op)..site + OpLen(op)] == chunk[FieldStart(op)..];
  }

  /** A field holding the rel32 toward `l` from a branch of `len` bytes at
      `site` lands on `l` modulo 2^32. */
  lemma HeldWraps(field: seq<byte>, l: Label, site: nat, len: nat)
    requires Signed(field) == Rel32(l, site, len)
    ensures Wraps(field, site + len, l.rip)
  {
    Rel32Lands(l, site, len);
  }

  /** The same field lands exactly on `l` when both lie below 2 GiB. */
  lemma HeldExact(field: seq<byte>, l: Label, site: nat, len: nat)
    requires Signed(field) == Rel32(l, site, len)
    requires l.rip < 0x8000_0000 && site + len < 0x8000_0000
    ensures Exact(field, site + len, l.rip)
  {
    Rel32Exact(l, site, len);
  }

  /** The bytes of a resolved branch's rel32 field, read as a signed 32-bit
      value and added to the end of the branch, give the target's address
      modulo 2^32. */
  lemma FieldLands(code: seq<byte>, ops: seq<Op>, sites: seq<nat>, labels: seq<Label>, i: nat)
    requires Laid(ops, sites, |code|) && Named(ops, |labels|) && i < |ops| && IsBranch(ops[i])
    requires Resolved(code, ops, sites, labels, i)
    ensures sites[i] + OpLen(ops[i]) <= |code|
    ensures Wraps(code[sites[i] + FieldStart(ops[i])..sites[i] + OpLen(ops[i])], sites[i] + OpLen(ops[i]), labels[Target(ops[i])].rip)
  {
    FieldValue(code, ops, sites, labels, i);
    HeldWraps(code[sites[i] + FieldStart(ops[i])..sites[i] + OpLen(ops[i])], labels[Target(ops[i])], sites[i], OpLen(ops[i]));
  }

  /** In a buffer shorter than 2 GiB whose labels all lie inside it, the
      field is exactly the distance from the end of the branch to its target. */
  lemma FieldExact(code: seq<byte>, ops: seq<Op>, sites: seq<nat>, labels: seq<Label>, i: nat)
    requires Laid(ops, sites, |code|) && Named(ops, |labels|) && i < |ops| && IsBranch(ops[i])
    requires Resolved(code, ops, sites, labels, i)
    requires |code| < 0x8000_0000 && Placed(labels, |code|)
    ensures sites[i] + OpLen(ops[i]) <= |code|
    ensures Exact(code[sites[i] + FieldStart(ops[i])..sites[i] + OpLen(ops[i])], sites[i] + OpLen(ops[i]), labels[Target(ops[i])].rip)
  {
    FieldValue(code, ops, sites, labels, i);
    HeldExact(code[sites[i] + FieldStart(ops[i])..sites[i] + OpLen(ops[i])], labels[Target(ops[i])], sites[i], OpLen(ops[i]));
  }

  /** Bytes holding an encoding decode to its instruction, whatever follows them. */
  lemma DecodeHeld(code: seq<byte>, site: nat, instr: Instr)
    requires Encodable(instr) && site + |Encode(instr)| <= |code|
    requires code[site..site + |Encode(instr)|] == Encode(instr)
    ensures Decode(code[site..]) == Some(Decoded(instr, |Encode(instr)|))
  {
    var rest := code[site + |Encode(instr)|..];
    assert code[site..] == Encode(instr) + rest;
    DecodeEncode(instr, rest);
  }

  /** Decoding the buffer at a resolved operation's offset gives the
      instruction it stands for and the number of bytes it occupies. */
  lemma DecodeAt(code: seq<byte>, ops: seq<Op>, sites: seq<nat>, labels: seq<Label>, i: nat)
    requires Laid(ops, sites, |code|) && Named(ops, |labels|) && i < |ops|
    requires Resolved(code, ops, sites, labels, i)
    requires var r := InstrOf(ops[i], sites[i], labels); r.Some? && Encodable(r.value)
    ensures Decode(code[sites[i]..]) == Some(Decoded(InstrOf(ops[i], sites[i], labels).value, OpLen(ops[i])))
  {
    var instr := InstrOf(ops[i], sites[i], labels).value;
    assert Chunk(code, ops, sites, i) == Encode(instr);
    DecodeHeld(code, sites[i], instr);
  }
}
