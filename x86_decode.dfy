/** A reference decoder for the instructions the encoders emit, written from
    the x86-64 encoding rules rather than from the encoders: an optional REX
    prefix (section 2.2.1 of the Intel 64 and IA-32 Architectures Software
    Developer's Manual, Volume 2A) whose W bit selects 64-bit operands and
    whose R, X and B bits extend the ModR/M reg, SIB index and rm/base fields;
    the ModR/M and SIB bytes (section 2.1.5, tables 2-2 and 2-3); and the
    rel32 forms of Jcc, JMP and CALL from the instruction reference. The
    round-trip lemmas say which encodings mean what they claim. */
module X86Decode {
  import opened Bytes
  import opened X86
  import opened Wrappers

  /** An instruction and the number of bytes it occupies. */
  datatype Decoded = Decoded(instr: Instr, length: nat)

  /** The four extension bits of a REX prefix (all clear when there is none). */
  datatype Rex = Rex(w: bool, r: bool, x: bool, b: bool)

  function RexOf(prefix: byte): (rex: Rex)
    requires 0x40 <= prefix < 0x50
  {
    Rex((prefix / 8) % 2 == 1, (prefix / 4) % 2 == 1, (prefix / 2) % 2 == 1, prefix % 2 == 1)
  }

  /** A REX byte built by `MakeRex` reads back as its four bits. */
  lemma RexOfMakeRex(w: bool, r: bool, x: bool, b: bool)
    ensures RexOf(MakeRex(w, r, x, b)) == Rex(w, r, x, b)
  {
    var v := MakeRex(w, r, x, b);
    var low := 4 * Bit(r) + 2 * Bit(x) + Bit(b);
    DivModUnique(v, 8, 8 + Bit(w), low);
    DivModUnique(v, 4, 16 + 2 * Bit(w) + Bit(r), 2 * Bit(x) + Bit(b));
    DivModUnique(v, 2, 32 + 4 * Bit(w) + 2 * Bit(r) + Bit(x), Bit(b));
  }

  /** The register named by a three-bit field and its REX extension bit. */
  function Reg(low: int, ext: bool): Register
    requires 0 <= low < 8
  {
    RegisterAt(low + if ext then 8 else 0)
  }

  lemma RegOfFields(reg: Register)
    ensures Reg(RegToInt(reg), IsExtended(reg)) == reg
  {
    RegisterAtOrdinal(reg);
    RegToIntOrdinal(reg);
  }

  function Signed8(s: seq<byte>): i8
    requires |s| == 1
  {
    Pow256Values();
    Signed(s)
  }

  function Signed16(s: seq<byte>): i16
    requires |s| == 2
  {
    Pow256Values();
    Signed(s)
  }

  function Signed32(s: seq<byte>): i32
    requires |s| == 4
  {
    Pow256Values();
    Signed(s)
  }

  function Signed64(s: seq<byte>): i64
    requires |s| == 8
  {
    Pow256Values();
    Signed(s)
  }

  predicate IsPrefixByte(b: byte)
  {
    b in {0xF0, 0xF2, 0xF3, 0x2E, 0x36, 0x3E, 0x26, 0x64, 0x65, 0x66, 0x67}
  }

  function PrefixOf(b: byte): (p: Prefix)
    requires IsPrefixByte(b)
    ensures PrefixByte(p) == b
  {
    if b == 0xF0 then Lock else if b == 0xF2 then Repne else if b == 0xF3 then Rep
    else if b == 0x2E then SegmentOverrideCs else if b == 0x36 then SegmentOverrideSs
    else if b == 0x3E then SegmentOverrideDs else if b == 0x26 then SegmentOverrideEs
    else if b == 0x64 then SegmentOverrideFs else if b == 0x65 then SegmentOverrideGs
    else if b == 0x66 then OperandSizeOverride else AddressSizeOverride
  }

  /** The base register of a register-indirect memory operand `[base]`
      described by a ModR/M byte with mod 00, and how many bytes follow the
      ModR/M byte for it. rm 101 means a RIP-relative disp32 and rm 100 a SIB
      byte; a SIB byte names a plain base only with index 100 (no index, REX.X
      clear) and a base other than 101 (which means disp32 with no base). */
  function MemBase(rex: Rex, modrm: byte, rest: seq<byte>): Option<(Register, nat)>
  {
    if modrm / 64 != 0 || modrm % 8 == 5 then None
    else if modrm % 8 == 4 then
      if |rest| == 0 || (rest[0] / 8) % 8 != 4 || rex.x || rest[0] % 8 == 5 then None
      else Some((Reg(rest[0] % 8, rex.b), 1))
    else Some((Reg(modrm % 8, rex.b), 0))
  }

  /** Instructions that take a ModR/M byte `m`, with the bytes after it in `rest`. */
  function DecodeModRM(rex: Rex, op: byte, m: byte, rest: seq<byte>): Option<Decoded>
  {
    var mode, reg, rm := m / 64, (m / 8) % 8, m % 8;
    if op == 0x81 && rex.w && mode == 3 && (reg == 5 || reg == 0) && |rest| >= 4 then
      var imm := Signed32(rest[..4]);
      Some(Decoded(if reg == 5 then SubRI32(Reg(rm, rex.b), imm) else AddRI32(Reg(rm, rex.b), imm), 6))
    else if op == 0xC7 && rex.w && mode == 3 && reg == 0 && |rest| >= 4 then
      Some(Decoded(MovRI32(Reg(rm, rex.b), Signed32(rest[..4])), 6))
    else if op == 0x89 && rex.w && mode == 3 then
      Some(Decoded(MovRR(Reg(rm, rex.b), Reg(reg, rex.r)), 2))
    else if op == 0x31 && rex.w && mode == 3 then
      Some(Decoded(XorRR(Reg(rm, rex.b), Reg(reg, rex.r)), 2))
    else if op == 0xFF && mode == 3 && reg == 2 then
      Some(Decoded(CallR(Reg(rm, rex.b)), 2))
    else if op == 0xFF && rex.w && mode == 3 && (reg == 0 || reg == 1) then
      Some(Decoded(if reg == 0 then IncR(Reg(rm, rex.b)) else DecR(Reg(rm, rex.b)), 2))
    else if op == 0xFE && (reg == 0 || reg == 1) then
      match MemBase(rex, m, rest)
      case Some((base, k)) => Some(Decoded(if reg == 0 then IncM8(base) else DecM8(base), 2 + k))
      case None => None
    else if op == 0x80 && reg == 7 then
      match MemBase(rex, m, rest)
      case Some((base, k)) =>
        if |rest| >= k + 1 then Some(Decoded(CmpMI8(base, Signed8(rest[k..k + 1])), 3 + k)) else None
      case None => None
    else None
  }

  /** Instructions whose opcode starts with the escape byte 0x0F; `s` follows it. */
  function DecodeEscape(rex: Rex, s: seq<byte>): Option<Decoded>
  {
    if |s| == 0 then None
    else if 0x80 <= s[0] < 0x90 && |s| >= 5 then
      Some(Decoded(Jcc(ConditionAt(s[0] - 0x80), Signed32(s[1..5])), 6))
    else if s[0] == 0xB6 && rex.w && |s| >= 2 then
      match MemBase(rex, s[1], s[2..])
      case Some((base, k)) => Some(Decoded(MovzxRM8(Reg((s[1] / 8) % 8, rex.r), base), 3 + k))
      case None => None
    else None
  }

  /** The instruction whose opcode starts `s`, after the REX prefix if any. */
  function DecodeOpcode(hasRex: bool, rex: Rex, s: seq<byte>): Option<Decoded>
  {
    if |s| == 0 then None
    else
      var op := s[0];
      if op == 0xCC then Some(Decoded(Int3, 1))
      else if op == 0xAA then Some(Decoded(Stosb, 1))
      else if op == 0xFC then Some(Decoded(Cld, 1))
      else if op == 0xC3 then Some(Decoded(Ret(0), 1))
      else if op == 0xC2 then
        if |s| >= 3 then Some(Decoded(Ret(Signed16(s[1..3])), 3)) else None
      else if 0x50 <= op < 0x58 then Some(Decoded(Push(Reg(op - 0x50, rex.b)), 1))
      else if 0x58 <= op < 0x60 then Some(Decoded(Pop(Reg(op - 0x58, rex.b)), 1))
      else if 0xB8 <= op < 0xC0 then
        if rex.w && |s| >= 9 then Some(Decoded(MovAbs(Reg(op - 0xB8, rex.b), Signed64(s[1..9])), 9)) else None
      else if op == 0xE9 then
        if |s| >= 5 then Some(Decoded(Jmp(Signed32(s[1..5])), 5)) else None
      else if op == 0xE8 then
        if |s| >= 5 then Some(Decoded(Call(Signed32(s[1..5])), 5)) else None
      else if op == 0x0F then DecodeEscape(rex, s[1..])
      else if !hasRex && IsPrefixByte(op) then Some(Decoded(RawPrefix(PrefixOf(op)), 1))
      else if |s| >= 2 then DecodeModRM(rex, op, s[1], s[2..])
      else None
  }

  /** The first instruction of `s` and its length, if `s` starts with one the model knows. */
  function Decode(s: seq<byte>): Option<Decoded>
  {
    if |s| == 0 then None
    else if 0x40 <= s[0] < 0x50 then
      match DecodeOpcode(true, RexOf(s[0]), s[1..])
      case Some(d) => Some(Decoded(d.instr, d.length + 1))
      case None => None
    else DecodeOpcode(false, Rex(false, false, false, false), s)
  }
}
