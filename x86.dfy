/** The pure part of the x86-64 encoder: registers, condition codes, prefix
    bytes, the REX / ModR/M / SIB field builders (section 2.2.1 and section
    2.1.5 of the Intel 64 and IA-32 Architectures Software Developer's Manual,
    Volume 2A) and, for every instruction the assemblers can emit, the exact
    byte string that its `emit_*` method appends. Both drafts declare the same
    enumerations and helpers; they are declared once here. */
module X86 {
  import opened Bytes

  datatype Register =
    | Rax | Rcx | Rdx | Rbx | Rsp | Rbp | Rsi | Rdi
    | R8 | R9 | R10 | R11 | R12 | R13 | R14 | R15

  /** `std::to_underlying(reg)`: the enumerator's position. */
  function Ordinal(reg: Register): nat
  {
    match reg
    case Rax => 0 case Rcx => 1 case Rdx => 2 case Rbx => 3
    case Rsp => 4 case Rbp => 5 case Rsi => 6 case Rdi => 7
    case R8 => 8 case R9 => 9 case R10 => 10 case R11 => 11
    case R12 => 12 case R13 => 13 case R14 => 14 case R15 => 15
  }

  /** The register with ordinal `n`; the inverse of `Ordinal`, used by the decoder. */
  function RegisterAt(n: nat): (reg: Register)
    requires n < 16
    ensures Ordinal(reg) == n
  {
    [Rax, Rcx, Rdx, Rbx, Rsp, Rbp, Rsi, Rdi, R8, R9, R10, R11, R12, R13, R14, R15][n]
  }

  lemma RegisterAtOrdinal(reg: Register)
    ensures Ordinal(reg) < 16 && RegisterAt(Ordinal(reg)) == reg
  {
  }

  /** `is_extended(reg)`: r8 to r15, whose fourth bit goes into a REX bit. */
  predicate IsExtended(reg: Register)
  {
    Ordinal(reg) >= 8
  }

  /** `reg_to_int(reg)`: the low three bits of the ordinal (`& 0x7`) that go
      into a ModR/M, SIB or opcode field; together with the extension bit
      they give back the ordinal. */
  function RegToInt(reg: Register): (n: byte)
    ensures n < 8
  {
    match reg
    case Rax => 0 case Rcx => 1 case Rdx => 2 case Rbx => 3
    case Rsp => 4 case Rbp => 5 case Rsi => 6 case Rdi => 7
    case R8 => 0 case R9 => 1 case R10 => 2 case R11 => 3
    case R12 => 4 case R13 => 5 case R14 => 6 case R15 => 7
  }

  lemma RegToIntOrdinal(reg: Register)
    ensures RegToInt(reg) == Ordinal(reg) % 8
    ensures RegToInt(reg) + (if IsExtended(reg) then 8 else 0) == Ordinal(reg)
  {
  }

  function Bit(b: bool): (n: byte)
    ensures n < 2
  {
    if b then 1 else 0
  }

  /** `make_rex(w, r, x, b)`: `0x40 | w << 3 | r << 2 | x << 1 | b`. */
  function MakeRex(w: bool, r: bool, x: bool, b: bool): (rex: byte)
    ensures 0x40 <= rex < 0x50
    ensures rex == 0x40 + 8 * Bit(w) + 4 * Bit(r) + 2 * Bit(x) + Bit(b)
  {
    0x40 + 8 * Bit(w) + 4 * Bit(r) + 2 * Bit(x) + Bit(b)
  }

  /** `make_modrm(mod, reg, rm)`: `mod << 6 | reg << 3 | rm`. Every call
      passes a mode below 4 and 3-bit fields, the shifted fields are then
      disjoint and the OR is their sum; each field reads back unchanged. */
  function MakeModRM(mode: byte, reg: byte, rm: byte): (m: byte)
    requires mode < 4 && reg < 8 && rm < 8
    ensures m / 64 == mode && (m / 8) % 8 == reg && m % 8 == rm
  {
    ShiftValues(mode); ShiftValues(reg);
    PackFields(mode, reg, rm);
    Shl(mode, 6) + Shl(reg, 3) + rm
  }

  /** `v << k` on a non-negative value that stays within range. */
  function Shl(v: int, k: nat): int
  {
    if k == 0 then v else 2 * Shl(v, k - 1)
  }

  lemma ShiftValues(v: int)
    ensures Shl(v, 3) == 8 * v && Shl(v, 6) == 64 * v
  {
    assert Shl(v, 1) == 2 * v && Shl(v, 2) == 4 * v && Shl(v, 3) == 8 * v;
    assert Shl(v, 4) == 16 * v && Shl(v, 5) == 32 * v;
  }

  /** A 2-bit and two 3-bit fields packed into a byte read back unchanged. */
  lemma PackFields(hi: int, mid: int, lo: int)
    requires 0 <= hi < 4 && 0 <= mid < 8 && 0 <= lo < 8
    ensures (64 * hi + 8 * mid + lo) / 64 == hi
    ensures ((64 * hi + 8 * mid + lo) / 8) % 8 == mid
    ensures (64 * hi + 8 * mid + lo) % 8 == lo
  {
    var m := 64 * hi + 8 * mid + lo;
    DivModUnique(m, 64, hi, 8 * mid + lo);
    DivModUnique(m, 8, 8 * hi + mid, lo);
    DivModUnique(8 * hi + mid, 8, hi, mid);
  }

  /** `make_sib(scale, index, base)` of the older draft: each argument is
      masked to its field width (`& 0x3`, `& 0x7`; for a two's-complement
      `int` that is the Euclidean remainder) before the disjoint fields are
      or-ed together, so any arguments give a byte whose fields read back as
      the masked arguments. */
  function MakeSib(scale: int, index: byte, base: byte): (s: byte)
    ensures s / 64 == scale % 4 && (s / 8) % 8 == index % 8 && s % 8 == base % 8
  {
    ShiftValues(scale % 4); ShiftValues(index % 8);
    PackFields(scale % 4, index % 8, base % 8);
    Shl(scale % 4, 6) + Shl(index % 8, 3) + base % 8
  }

  /** The SIB byte that makes `[rsp]` / `[r12]` encodable: no index, base rsp. */
  lemma SibForStackPointer()
    ensures MakeSib(0, 4, 4) == 0x24
  {
  }

  datatype Condition =
    | Overflow | NotOverflow | Below | NotBelow | Equal | NotEqual
    | BelowOrEqual | NotBelowOrEqual | Sign | NotSign | ParityEven | ParityOdd
    | Less | NotLess | LessOrEqual | NotLessOrEqual

  /** `std::to_underlying(cc)`: the condition's four-bit code. */
  function CondCode(cc: Condition): nat
  {
    match cc
    case Overflow => 0 case NotOverflow => 1 case Below => 2 case NotBelow => 3
    case Equal => 4 case NotEqual => 5 case BelowOrEqual => 6 case NotBelowOrEqual => 7
    case Sign => 8 case NotSign => 9 case ParityEven => 10 case ParityOdd => 11
    case Less => 12 case NotLess => 13 case LessOrEqual => 14 case NotLessOrEqual => 15
  }

  /** The condition with code `n`; the inverse of `CondCode`. */
  function ConditionAt(n: nat): (cc: Condition)
    requires n < 16
    ensures CondCode(cc) == n
  {
    [Overflow, NotOverflow, Below, NotBelow, Equal, NotEqual, BelowOrEqual, NotBelowOrEqual,
     Sign, NotSign, ParityEven, ParityOdd, Less, NotLess, LessOrEqual, NotLessOrEqual][n]
  }

  lemma ConditionAtCode(cc: Condition)
    ensures CondCode(cc) < 16 && ConditionAt(CondCode(cc)) == cc
  {
  }

  datatype Prefix =
    | Lock | Repne | Rep
    | SegmentOverrideCs | SegmentOverrideSs | SegmentOverrideDs
    | SegmentOverrideEs | SegmentOverrideFs | SegmentOverrideGs
    | OperandSizeOverride | AddressSizeOverride

  /** The byte value of each `Prefix` enumerator. */
  function PrefixByte(p: Prefix): byte
  {
    match p
    case Lock => 0xF0 case Repne => 0xF2 case Rep => 0xF3
    case SegmentOverrideCs => 0x2E case SegmentOverrideSs => 0x36
    case SegmentOverrideDs => 0x3E case SegmentOverrideEs => 0x26
    case SegmentOverrideFs => 0x64 case SegmentOverrideGs => 0x65
    case OperandSizeOverride => 0x66 case AddressSizeOverride => 0x67
  }

  /** One instruction, with the operands its `emit_*` method takes.
      Displacements and immediates are the signed values that end up in the
      instruction's little-endian field. */
  datatype Instr =
    | Int3
    | Push(reg: Register)
    | Pop(reg: Register)
    | SubRI32(reg: Register, imm32: i32)
    | AddRI32(reg: Register, imm32: i32)
    | MovRI32(reg: Register, imm32: i32)
    | MovAbs(reg: Register, imm64: i64)
    | MovRR(dst: Register, src: Register)
    | MovzxRM8(dst: Register, src: Register)
    | XorRR(dst: Register, src: Register)
    | DecR(reg: Register)
    | IncR(reg: Register)
    | DecM8(reg: Register)
    | IncM8(reg: Register)
    | CmpMI8(reg: Register, imm8: i8)
    | Jcc(cc: Condition, rel32: i32)
    | Jmp(rel32: i32)
    | Call(rel32: i32)
    | CallR(reg: Register)
    | Ret(imm16: i16)
    | RawPrefix(prefix: Prefix)
    | Stosb
    | Cld

  /** REX.W with the B bit taken from a single register operand. */
  function RexWB(reg: Register): byte
  {
    MakeRex(true, false, false, IsExtended(reg))
  }

  /** REX.W with R taken from the ModR/M reg operand and B from the rm operand. */
  function RexWRB(regField: Register, rmField: Register): byte
  {
    MakeRex(true, IsExtended(regField), false, IsExtended(rmField))
  }

  /** How many bytes the current draft's encoder appends for `i`. */
  function Length(i: Instr): nat
  {
    match i
    case Int3 => 1
    case Push(_) => 1
    case Pop(_) => 1
    case SubRI32(_, _) => 7
    case AddRI32(_, _) => 7
    case MovRI32(_, _) => 7
    case MovAbs(_, _) => 10
    case MovRR(_, _) => 3
    case MovzxRM8(_, _) => 4
    case XorRR(_, _) => 3
    case DecR(_) => 3
    case IncR(_) => 3
    case DecM8(_) => 2
    case IncM8(_) => 2
    case CmpMI8(_, _) => 3
    case Jcc(_, _) => 6
    case Jmp(_) => 5
    case Call(_) => 5
    case CallR(_) => 2
    case Ret(imm) => if imm == 0 then 1 else 3
    case RawPrefix(_) => 1
    case Stosb => 1
    case Cld => 1
  }

  /** The bytes the current draft's `emit_*` method appends for `i` (its `X86Assembler`). */
  function Encode(i: Instr): seq<byte>
  {
    match i
    case Int3 => [0xCC]
    case Push(reg) => [0x50 + RegToInt(reg)]
    case Pop(reg) => [0x58 + RegToInt(reg)]
    case SubRI32(reg, imm) => [RexWB(reg), 0x81, MakeModRM(3, 5, RegToInt(reg))] + ToBytes(imm, 4)
    case AddRI32(reg, imm) => [RexWB(reg), 0x81, MakeModRM(3, 0, RegToInt(reg))] + ToBytes(imm, 4)
    case MovRI32(reg, imm) => [RexWB(reg), 0xC7, MakeModRM(3, 0, RegToInt(reg))] + ToBytes(imm, 4)
    case MovAbs(reg, imm) => [RexWB(reg), 0xB8 + RegToInt(reg)] + ToBytes(imm, 8)
    case MovRR(dst, src) => [RexWRB(src, dst), 0x89, MakeModRM(3, RegToInt(src), RegToInt(dst))]
    case MovzxRM8(dst, src) =>
      [RexWRB(dst, src)] + ToBytes(0xB60F, 2) + [MakeModRM(0, RegToInt(dst), RegToInt(src))]
    case XorRR(dst, src) => [RexWRB(src, dst), 0x31, MakeModRM(3, RegToInt(src), RegToInt(dst))]
    case DecR(reg) => [RexWB(reg), 0xFF, MakeModRM(3, 1, RegToInt(reg))]
    case IncR(reg) => [RexWB(reg), 0xFF, MakeModRM(3, 0, RegToInt(reg))]
    case DecM8(reg) => [0xFE, MakeModRM(0, 1, RegToInt(reg))]
    case IncM8(reg) => [0xFE, MakeModRM(0, 0, RegToInt(reg))]
    case CmpMI8(reg, imm) => [0x80, MakeModRM(0, 7, RegToInt(reg))] + ToBytes(imm, 1)
    case Jcc(cc, rel) => [0x0F, 0x80 + CondCode(cc)] + ToBytes(rel, 4)
    case Jmp(rel) => [0xE9] + ToBytes(rel, 4)
    case Call(rel) => [0xE8] + ToBytes(rel, 4)
    case CallR(reg) => [0xFF, 0xD0 + RegToInt(reg)]
    case Ret(imm) => if imm == 0 then [0xC3] else [0xC2] + ToBytes(imm, 2)
    case RawPrefix(p) => [PrefixByte(p)]
    case Stosb => [0xAA]
    case Cld => [0xFC]
  }

  lemma EncodeLength(i: Instr)
    ensures |Encode(i)| == Length(i)
  {
    if i.SubRI32? || i.AddRI32? || i.MovRI32? || i.MovAbs? {
      EncodeLengthImm(i);
    } else if i.MovRR? || i.MovzxRM8? || i.XorRR? || i.DecR? || i.IncR? {
      EncodeLengthReg(i);
    } else if i.Jcc? || i.Jmp? || i.Call? || i.Ret? {
      EncodeLengthRel(i);
    }
  }

  lemma EncodeLengthImm(i: Instr)
    requires i.SubRI32? || i.AddRI32? || i.MovRI32? || i.MovAbs?
    ensures |Encode(i)| == Length(i)
  {
  }

  lemma EncodeLengthReg(i: Instr)
    requires i.MovRR? || i.MovzxRM8? || i.XorRR? || i.DecR? || i.IncR?
    ensures |Encode(i)| == Length(i)
  {
    assert |ToBytes(0xB60F, 2)| == 2;
  }

  lemma EncodeLengthRel(i: Instr)
    requires i.Jcc? || i.Jmp? || i.Call? || i.Ret?
    ensures |Encode(i)| == Length(i)
  {
  }

  /** The older draft's byte-memory operand: REX 0x49 (W and B) for an
      extended base register, and the SIB byte for rsp and r12, whose low bits
      would otherwise select a SIB-addressed operand. */
  function LegacyMemRm8(opcode: byte, ext: byte, reg: Register): seq<byte>
    requires ext < 8
  {
    (if IsExtended(reg) then [MakeRex(true, false, false, true)] else [])
    + [opcode, MakeModRM(0, ext, RegToInt(reg))]
    + (if reg == Rsp || reg == R12 then [MakeSib(0, 4, RegToInt(reg))] else [])
  }

  /** The bytes the older draft adds to the current draft's encoding of a
      byte-memory operand with base `reg`: a REX prefix for an extended
      register and a SIB byte for rsp or r12. */
  function MemWidening(reg: Register): nat
  {
    (if IsExtended(reg) then 1 else 0) + (if reg == Rsp || reg == R12 then 1 else 0)
  }

  function LegacyWidening(i: Instr): nat
  {
    if i.DecM8? || i.IncM8? || i.CmpMI8? then MemWidening(i.reg) else 0
  }

  lemma MemRm8Widening(opcode: byte, ext: byte, reg: Register, tail: seq<byte>)
    requires ext < 8
    ensures |LegacyMemRm8(opcode, ext, reg) + tail| == 2 + MemWidening(reg) + |tail|
    ensures LegacyMemRm8(opcode, ext, reg) + tail == [opcode, MakeModRM(0, ext, RegToInt(reg))] + tail
      <==> MemWidening(reg) == 0
  {
  }

  /** The bytes the older draft's `Assembler::emit_*` method appends for `i`:
      the current draft's, with the prefix or SIB byte a byte-memory operand
      needs added. */
  function LegacyEncode(i: Instr): (b: seq<byte>)
    ensures |b| == Length(i) + LegacyWidening(i)
  {
    if i.DecM8? || i.IncM8? || i.CmpMI8? then LegacyMem(i)
    else EncodeLength(i); Encode(i)
  }

  /** The two drafts emit the same bytes for `i` exactly when the older
      one adds neither prefix nor SIB byte. */
  lemma LegacyAgrees(i: Instr)
    ensures LegacyEncode(i) == Encode(i) <==> LegacyWidening(i) == 0
  {
    if i.DecM8? || i.IncM8? || i.CmpMI8? {
      assert LegacyEncode(i) == LegacyMem(i);
    }
  }

  /** The older draft's byte-memory forms. */
  function LegacyMem(i: Instr): (b: seq<byte>)
    requires i.DecM8? || i.IncM8? || i.CmpMI8?
    ensures |b| == Length(i) + MemWidening(i.reg)
    ensures b == Encode(i) <==> MemWidening(i.reg) == 0
  {
    var f := MemForm(i);
    MemRm8Widening(f.0, f.1, i.reg, f.2);
    LegacyMemRm8(f.0, f.1, i.reg) + f.2
  }

  /** The opcode, the ModRM `reg` field and the immediate of a byte-memory
      form, as the current draft lays them out. */
  function MemForm(i: Instr): (f: (byte, byte, seq<byte>))
    requires i.DecM8? || i.IncM8? || i.CmpMI8?
    ensures f.1 < 8 && |f.2| + 2 == Length(i)
    ensures Encode(i) == [f.0, MakeModRM(0, f.1, RegToInt(i.reg))] + f.2
  {
    match i
    case DecM8(_) => (0xFE, 1, [])
    case IncM8(_) => (0xFE, 0, [])
    case CmpMI8(_, imm) => (0x80, 7, ToBytes(imm, 1))
  }

  /** The older draft's bytes of the three byte-memory forms. */
  lemma LegacyMemBytes(reg: Register, imm: i8)
    ensures LegacyEncode(DecM8(reg)) == LegacyMemRm8(0xFE, 1, reg)
    ensures LegacyEncode(IncM8(reg)) == LegacyMemRm8(0xFE, 0, reg)
    ensures LegacyEncode(CmpMI8(reg, imm)) == LegacyMemRm8(0x80, 7, reg) + ToBytes(imm, 1)
  {
    assert LegacyEncode(DecM8(reg)) == LegacyMem(DecM8(reg));
    assert LegacyEncode(IncM8(reg)) == LegacyMem(IncM8(reg));
    assert LegacyEncode(CmpMI8(reg, imm)) == LegacyMem(CmpMI8(reg, imm));
  }

  /** The instructions of the current draft's encoder whose bytes mean what
      the instruction says: push, pop and indirect call emit no REX prefix,
      and the byte-memory forms neither a REX prefix nor a SIB byte, so those
      are exact only for the low eight registers, and not for rsp / rbp as a
      memory base (rbp's low bits with mod 00 select a RIP-relative operand). */
  predicate Encodable(i: Instr)
  {
    match i
    case Push(reg) => !IsExtended(reg)
    case Pop(reg) => !IsExtended(reg)
    case CallR(reg) => !IsExtended(reg)
    case MovzxRM8(_, src) => RegToInt(src) != 4 && RegToInt(src) != 5
    case DecM8(reg) => !IsExtended(reg) && RegToInt(reg) != 4 && RegToInt(reg) != 5
    case IncM8(reg) => !IsExtended(reg) && RegToInt(reg) != 4 && RegToInt(reg) != 5
    case CmpMI8(reg, _) => !IsExtended(reg) && RegToInt(reg) != 4 && RegToInt(reg) != 5
    case _ => true
  }

  /** The instructions of the older draft's encoder whose bytes mean what
      the instruction says: its byte-memory forms carry the REX prefix and
      SIB byte they need, so only rbp and r13 as a base (rm 101, which with
      mod 00 selects a RIP-relative operand) stay wrong; the other forms are
      the current draft's. */
  predicate LegacyEncodable(i: Instr)
  {
    if i.DecM8? || i.IncM8? || i.CmpMI8? then RegToInt(i.reg) != 5 else Encodable(i)
  }
}
