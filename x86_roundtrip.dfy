/** Decoding what the encoders emit gives back the instruction and its
    length: the encoders agree with the x86-64 encoding rules for every
    instruction they are meant for, and the lemmas at the end show exactly
    where the current draft's encodings name a different instruction. */
module X86RoundTrip {
  import opened Bytes
  import opened X86
  import opened Wrappers
  import opened X86Decode

  lemma Signed32Field(v: i32)
    ensures Signed32(ToBytes(v, 4)) == v
  {
    Pow256Values();
    SignedToBytes(v, 4);
  }

  lemma Signed64Field(v: i64)
    ensures Signed64(ToBytes(v, 8)) == v
  {
    Pow256Values();
    SignedToBytes(v, 8);
  }

  lemma Signed16Field(v: i16)
    ensures Signed16(ToBytes(v, 2)) == v
  {
    Pow256Values();
    SignedToBytes(v, 2);
  }

  lemma Signed8Field(v: i8)
    ensures Signed8(ToBytes(v, 1)) == v
  {
    Pow256Values();
    SignedToBytes(v, 1);
  }

  /** REX.W plus the B bit of one register. */
  lemma RexWBFields(reg: Register)
    ensures 0x48 <= RexWB(reg) < 0x50
    ensures RexOf(RexWB(reg)) == Rex(true, false, false, IsExtended(reg))
  {
    RexOfMakeRex(true, false, false, IsExtended(reg));
  }

  lemma RexWRBFields(a: Register, b: Register)
    ensures 0x48 <= RexWRB(a, b) < 0x50
    ensures RexOf(RexWRB(a, b)) == Rex(true, IsExtended(a), false, IsExtended(b))
  {
    RexOfMakeRex(true, IsExtended(a), false, IsExtended(b));
  }

  /** The memory operand `[reg]`: a ModR/M byte `m` with mod 00 and the
      register's low bits in rm, behind a REX prefix whose B bit is the
      register's extension bit. */
  lemma PlainMemForm(w: bool, r: bool, reg: Register, m: byte, rest: seq<byte>)
    requires m / 64 == 0 && m % 8 == RegToInt(reg) && RegToInt(reg) != 4 && RegToInt(reg) != 5
    ensures MemBase(Rex(w, r, false, IsExtended(reg)), m, rest) == Some((reg, 0))
  {
    RegOfFields(reg);
  }

  /** Where the pieces of a one-byte head, a field `t` and what follows land. */
  lemma Split1(x: byte, t: seq<byte>, rest: seq<byte>)
    ensures ([x] + t + rest)[0] == x
    ensures ([x] + t + rest)[1..1 + |t|] == t
  {
  }

  /** The same for a two-byte head. */
  lemma Split2(x: byte, y: byte, t: seq<byte>, rest: seq<byte>)
    ensures ([x, y] + t + rest)[0] == x && ([x, y] + t + rest)[1] == y
    ensures ([x, y] + t + rest)[1..][0] == y
    ensures ([x, y] + t + rest)[1..][1..1 + |t|] == t
    ensures ([x, y] + t + rest)[2..][..|t|] == t
  {
  }

  /** The same for a three-byte head. */
  lemma Split3(x: byte, y: byte, z: byte, t: seq<byte>, rest: seq<byte>)
    ensures ([x, y, z] + t + rest)[0] == x
    ensures ([x, y, z] + t + rest)[1..][0] == y && ([x, y, z] + t + rest)[1..][1] == z
    ensures ([x, y, z] + t + rest)[1..][2..] == t + rest
    ensures ([x, y, z] + t + rest)[1..][2..][..|t|] == t
  {
  }

  lemma Split3Only(x: byte, y: byte, z: byte, rest: seq<byte>)
    ensures ([x, y, z] + rest)[0] == x
    ensures ([x, y, z] + rest)[1..][0] == y && ([x, y, z] + rest)[1..][1] == z
    ensures ([x, y, z] + rest)[1..][2..] == rest
  {
  }

  // Each `...Bytes` lemma decodes one instruction form from its bytes given
  // as abstract values with the properties the encoder gives them; the
  // `DecodeEncode...` lemma after it instantiates them with the encoder's bytes.

  lemma PushPopBytes(reg: Register, b: byte, rest: seq<byte>)
    requires !IsExtended(reg) && (b == 0x50 + RegToInt(reg) || b == 0x58 + RegToInt(reg))
    ensures Decode([b] + rest) == Some(Decoded(if b < 0x58 then Push(reg) else Pop(reg), 1))
  {
    var s := [b] + rest;
    assert s[0] == b;
    RegOfFields(reg);
  }

  lemma DecodeEncodePush(reg: Register, rest: seq<byte>)
    requires !IsExtended(reg)
    ensures Decode(Encode(Push(reg)) + rest) == Some(Decoded(Push(reg), 1))
  {
    assert Encode(Push(reg)) == [0x50 + RegToInt(reg)];
    PushPopBytes(reg, 0x50 + RegToInt(reg), rest);
  }

  lemma DecodeEncodePop(reg: Register, rest: seq<byte>)
    requires !IsExtended(reg)
    ensures Decode(Encode(Pop(reg)) + rest) == Some(Decoded(Pop(reg), 1))
  {
    assert Encode(Pop(reg)) == [0x58 + RegToInt(reg)];
    PushPopBytes(reg, 0x58 + RegToInt(reg), rest);
  }

  /** `REX.W 81 /5 id`, `REX.W 81 /0 id` and `REX.W C7 /0 id` on a register. */
  lemma RegImmBytes(reg: Register, imm: i32, rexb: byte, op: byte, m: byte, t: seq<byte>, rest: seq<byte>)
    requires 0x40 <= rexb < 0x50 && RexOf(rexb) == Rex(true, false, false, IsExtended(reg))
    requires op == 0x81 || op == 0xC7
    requires m / 64 == 3 && m % 8 == RegToInt(reg) && ((m / 8) % 8 == 0 || (op == 0x81 && (m / 8) % 8 == 5))
    requires |t| == 4 && Signed32(t) == imm
    ensures Decode([rexb, op, m] + t + rest)
      == Some(Decoded(if op == 0xC7 then MovRI32(reg, imm) else if (m / 8) % 8 == 5 then SubRI32(reg, imm) else AddRI32(reg, imm), 7))
  {
    Split3(rexb, op, m, t, rest);
    RegOfFields(reg);
  }

  lemma DecodeEncodeSubRI32(reg: Register, imm: i32, rest: seq<byte>)
    ensures Decode(Encode(SubRI32(reg, imm)) + rest) == Some(Decoded(SubRI32(reg, imm), 7))
  {
    assert Encode(SubRI32(reg, imm)) == [RexWB(reg), 0x81, MakeModRM(3, 5, RegToInt(reg))] + ToBytes(imm, 4);
    RexWBFields(reg); Signed32Field(imm);
    RegImmBytes(reg, imm, RexWB(reg), 0x81, MakeModRM(3, 5, RegToInt(reg)), ToBytes(imm, 4), rest);
  }

  lemma DecodeEncodeAddRI32(reg: Register, imm: i32, rest: seq<byte>)
    ensures Decode(Encode(AddRI32(reg, imm)) + rest) == Some(Decoded(AddRI32(reg, imm), 7))
  {
    assert Encode(AddRI32(reg, imm)) == [RexWB(reg), 0x81, MakeModRM(3, 0, RegToInt(reg))] + ToBytes(imm, 4);
    RexWBFields(reg); Signed32Field(imm);
    RegImmBytes(reg, imm, RexWB(reg), 0x81, MakeModRM(3, 0, RegToInt(reg)), ToBytes(imm, 4), rest);
  }

  lemma DecodeEncodeMovRI32(reg: Register, imm: i32, rest: seq<byte>)
    ensures Decode(Encode(MovRI32(reg, imm)) + rest) == Some(Decoded(MovRI32(reg, imm), 7))
  {
    assert Encode(MovRI32(reg, imm)) == [RexWB(reg), 0xC7, MakeModRM(3, 0, RegToInt(reg))] + ToBytes(imm, 4);
    RexWBFields(reg); Signed32Field(imm);
    RegImmBytes(reg, imm, RexWB(reg), 0xC7, MakeModRM(3, 0, RegToInt(reg)), ToBytes(imm, 4), rest);
  }

  /** `REX.W B8+r io`. */
  lemma MovAbsBytes(reg: Register, imm: i64, rexb: byte, op: byte, t: seq<byte>, rest: seq<byte>)
    requires 0x40 <= rexb < 0x50 && RexOf(rexb) == Rex(true, false, false, IsExtended(reg))
    requires op == 0xB8 + RegToInt(reg) && |t| == 8 && Signed64(t) == imm
    ensures Decode([rexb, op] + t + rest) == Some(Decoded(MovAbs(reg, imm), 10))
  {
    Split2(rexb, op, t, rest);
    RegOfFields(reg);
  }

  lemma DecodeEncodeMovAbs(reg: Register, imm: i64, rest: seq<byte>)
    ensures Decode(Encode(MovAbs(reg, imm)) + rest) == Some(Decoded(MovAbs(reg, imm), 10))
  {
    assert Encode(MovAbs(reg, imm)) == [RexWB(reg), 0xB8 + RegToInt(reg)] + ToBytes(imm, 8);
    RexWBFields(reg); Signed64Field(imm);
    MovAbsBytes(reg, imm, RexWB(reg), 0xB8 + RegToInt(reg), ToBytes(imm, 8), rest);
  }

  /** `REX.W 89 /r` and `REX.W 31 /r`: the source register in the reg field, the destination in rm. */
  lemma RegRegBytes(dst: Register, src: Register, rexb: byte, op: byte, m: byte, rest: seq<byte>)
    requires 0x40 <= rexb < 0x50 && RexOf(rexb) == Rex(true, IsExtended(src), false, IsExtended(dst))
    requires op == 0x89 || op == 0x31
    requires m / 64 == 3 && (m / 8) % 8 == RegToInt(src) && m % 8 == RegToInt(dst)
    ensures Decode([rexb, op, m] + rest) == Some(Decoded(if op == 0x89 then MovRR(dst, src) else XorRR(dst, src), 3))
  {
    Split3Only(rexb, op, m, rest);
    RegOfFields(dst); RegOfFields(src);
  }

  lemma DecodeEncodeMovRR(dst: Register, src: Register, rest: seq<byte>)
    ensures Decode(Encode(MovRR(dst, src)) + rest) == Some(Decoded(MovRR(dst, src), 3))
  {
    assert Encode(MovRR(dst, src)) == [RexWRB(src, dst), 0x89, MakeModRM(3, RegToInt(src), RegToInt(dst))];
    RexWRBFields(src, dst);
    RegRegBytes(dst, src, RexWRB(src, dst), 0x89, MakeModRM(3, RegToInt(src), RegToInt(dst)), rest);
  }

  lemma DecodeEncodeXorRR(dst: Register, src: Register, rest: seq<byte>)
    ensures Decode(Encode(XorRR(dst, src)) + rest) == Some(Decoded(XorRR(dst, src), 3))
  {
    RexWRBFields(src, dst);
    assert Encode(XorRR(dst, src)) == [RexWRB(src, dst), 0x31, MakeModRM(3, RegToInt(src), RegToInt(dst))];
    RegRegBytes(dst, src, RexWRB(src, dst), 0x31, MakeModRM(3, RegToInt(src), RegToInt(dst)), rest);
  }

  /** `0F B6 /r` after the escape byte, with a `[src]` operand. */
  lemma MovzxEscape(dst: Register, src: Register, m: byte, rest: seq<byte>)
    requires m / 64 == 0 && (m / 8) % 8 == RegToInt(dst) && m % 8 == RegToInt(src)
    requires RegToInt(src) != 4 && RegToInt(src) != 5
    ensures DecodeEscape(Rex(true, IsExtended(dst), false, IsExtended(src)), [0xB6, m] + rest) == Some(Decoded(MovzxRM8(dst, src), 3))
  {
    var t := [0xB6, m] + rest;
    assert t[0] == 0xB6 && t[1] == m && t[2..] == rest;
    PlainMemForm(true, IsExtended(dst), src, m, rest);
    RegOfFields(dst);
  }

  /** `REX.W 0F B6 /r` with a `[src]` operand. */
  lemma MovzxBytes(dst: Register, src: Register, rexb: byte, m: byte, rest: seq<byte>)
    requires 0x40 <= rexb < 0x50 && RexOf(rexb) == Rex(true, IsExtended(dst), false, IsExtended(src))
    requires m / 64 == 0 && (m / 8) % 8 == RegToInt(dst) && m % 8 == RegToInt(src)
    requires RegToInt(src) != 4 && RegToInt(src) != 5
    ensures Decode([rexb] + ToBytes(0xB60F, 2) + [m] + rest) == Some(Decoded(MovzxRM8(dst, src), 4))
  {
    MovzxOpcode();
    var s := [rexb] + ToBytes(0xB60F, 2) + [m] + rest;
    assert s[0] == rexb && s[1..][0] == 0x0F && s[1..][1..] == [0xB6, m] + rest;
    MovzxEscape(dst, src, m, rest);
  }

  /** The two opcode bytes of `movzx`, written as the 16-bit value 0xB60F. */
  lemma MovzxOpcode()
    ensures ToBytes(0xB60F, 2) == [0x0F, 0xB6]
  {
  }

  lemma DecodeEncodeMovzx(dst: Register, src: Register, rest: seq<byte>)
    requires RegToInt(src) != 4 && RegToInt(src) != 5
    ensures Decode(Encode(MovzxRM8(dst, src)) + rest) == Some(Decoded(MovzxRM8(dst, src), 4))
  {
    assert Encode(MovzxRM8(dst, src)) == [RexWRB(dst, src)] + ToBytes(0xB60F, 2) + [MakeModRM(0, RegToInt(dst), RegToInt(src))];
    RexWRBFields(dst, src);
    MovzxBytes(dst, src, RexWRB(dst, src), MakeModRM(0, RegToInt(dst), RegToInt(src)), rest);
  }

  /** `REX.W FF /0` and `REX.W FF /1` on a register. */
  lemma IncDecBytes(reg: Register, rexb: byte, m: byte, rest: seq<byte>)
    requires 0x40 <= rexb < 0x50 && RexOf(rexb) == Rex(true, false, false, IsExtended(reg))
    requires m / 64 == 3 && ((m / 8) % 8 == 0 || (m / 8) % 8 == 1) && m % 8 == RegToInt(reg)
    ensures Decode([rexb, 0xFF, m] + rest) == Some(Decoded(if (m / 8) % 8 == 0 then IncR(reg) else DecR(reg), 3))
  {
    Split3Only(rexb, 0xFF, m, rest);
    RegOfFields(reg);
  }

  lemma DecodeEncodeDecR(reg: Register, rest: seq<byte>)
    ensures Decode(Encode(DecR(reg)) + rest) == Some(Decoded(DecR(reg), 3))
  {
    assert Encode(DecR(reg)) == [RexWB(reg), 0xFF, MakeModRM(3, 1, RegToInt(reg))];
    RexWBFields(reg);
    IncDecBytes(reg, RexWB(reg), MakeModRM(3, 1, RegToInt(reg)), rest);
  }

  lemma DecodeEncodeIncR(reg: Register, rest: seq<byte>)
    ensures Decode(Encode(IncR(reg)) + rest) == Some(Decoded(IncR(reg), 3))
  {
    assert Encode(IncR(reg)) == [RexWB(reg), 0xFF, MakeModRM(3, 0, RegToInt(reg))];
    RexWBFields(reg);
    IncDecBytes(reg, RexWB(reg), MakeModRM(3, 0, RegToInt(reg)), rest);
  }

  /** `FE /0` and `FE /1` on `[reg]`. */
  lemma ByteMemBytes(reg: Register, m: byte, rest: seq<byte>)
    requires m / 64 == 0 && ((m / 8) % 8 == 0 || (m / 8) % 8 == 1) && m % 8 == RegToInt(reg)
    requires !IsExtended(reg) && RegToInt(reg) != 4 && RegToInt(reg) != 5
    ensures Decode([0xFE, m] + rest) == Some(Decoded(if (m / 8) % 8 == 0 then IncM8(reg) else DecM8(reg), 2))
  {
    var s := [0xFE, m] + rest;
    assert s[0] == 0xFE && s[1] == m && s[2..] == rest;
    PlainMemForm(false, false, reg, m, rest);
  }

  lemma DecodeEncodeDecM8(reg: Register, rest: seq<byte>)
    requires !IsExtended(reg) && RegToInt(reg) != 4 && RegToInt(reg) != 5
    ensures Decode(Encode(DecM8(reg)) + rest) == Some(Decoded(DecM8(reg), 2))
  {
    assert Encode(DecM8(reg)) == [0xFE, MakeModRM(0, 1, RegToInt(reg))];
    ByteMemBytes(reg, MakeModRM(0, 1, RegToInt(reg)), rest);
  }

  lemma DecodeEncodeIncM8(reg: Register, rest: seq<byte>)
    requires !IsExtended(reg) && RegToInt(reg) != 4 && RegToInt(reg) != 5
    ensures Decode(Encode(IncM8(reg)) + rest) == Some(Decoded(IncM8(reg), 2))
  {
    assert Encode(IncM8(reg)) == [0xFE, MakeModRM(0, 0, RegToInt(reg))];
    ByteMemBytes(reg, MakeModRM(0, 0, RegToInt(reg)), rest);
  }

  /** `80 /7 ib` on `[reg]`. */
  lemma CmpMemBytes(reg: Register, imm: i8, m: byte, t: seq<byte>, rest: seq<byte>)
    requires m / 64 == 0 && (m / 8) % 8 == 7 && m % 8 == RegToInt(reg)
    requires !IsExtended(reg) && RegToInt(reg) != 4 && RegToInt(reg) != 5
    requires |t| == 1 && Signed8(t) == imm
    ensures Decode([0x80, m] + t + rest) == Some(Decoded(CmpMI8(reg, imm), 3))
  {
    var s := [0x80, m] + t + rest;
    Split2(0x80, m, t, rest);
    PlainMemForm(false, false, reg, m, s[2..]);
  }

  lemma DecodeEncodeCmpMI8(reg: Register, imm: i8, rest: seq<byte>)
    requires !IsExtended(reg) && RegToInt(reg) != 4 && RegToInt(reg) != 5
    ensures Decode(Encode(CmpMI8(reg, imm)) + rest) == Some(Decoded(CmpMI8(reg, imm), 3))
  {
    assert Encode(CmpMI8(reg, imm)) == [0x80, MakeModRM(0, 7, RegToInt(reg))] + ToBytes(imm, 1);
    Signed8Field(imm);
    CmpMemBytes(reg, imm, MakeModRM(0, 7, RegToInt(reg)), ToBytes(imm, 1), rest);
  }

  /** `0F 80+cc cd`. */
  lemma JccBytes(cc: Condition, rel: i32, op: byte, t: seq<byte>, rest: seq<byte>)
    requires op == 0x80 + CondCode(cc) && |t| == 4 && Signed32(t) == rel
    ensures Decode([0x0F, op] + t + rest) == Some(Decoded(Jcc(cc, rel), 6))
  {
    Split2(0x0F, op, t, rest);
    ConditionAtCode(cc);
  }

  lemma DecodeEncodeJcc(cc: Condition, rel: i32, rest: seq<byte>)
    ensures Decode(Encode(Jcc(cc, rel)) + rest) == Some(Decoded(Jcc(cc, rel), 6))
  {
    assert Encode(Jcc(cc, rel)) == [0x0F, 0x80 + CondCode(cc)] + ToBytes(rel, 4);
    ConditionAtCode(cc); Signed32Field(rel);
    JccBytes(cc, rel, 0x80 + CondCode(cc), ToBytes(rel, 4), rest);
  }

  /** `E9 cd` and `E8 cd`. */
  lemma Rel32Bytes(rel: i32, op: byte, t: seq<byte>, rest: seq<byte>)
    requires (op == 0xE9 || op == 0xE8) && |t| == 4 && Signed32(t) == rel
    ensures Decode([op] + t + rest) == Some(Decoded(if op == 0xE9 then Jmp(rel) else Call(rel), 5))
  {
    Split1(op, t, rest);
  }

  lemma DecodeEncodeJmp(rel: i32, rest: seq<byte>)
    ensures Decode(Encode(Jmp(rel)) + rest) == Some(Decoded(Jmp(rel), 5))
  {
    assert Encode(Jmp(rel)) == [0xE9] + ToBytes(rel, 4);
    Signed32Field(rel);
    Rel32Bytes(rel, 0xE9, ToBytes(rel, 4), rest);
  }

  lemma DecodeEncodeCall(rel: i32, rest: seq<byte>)
    ensures Decode(Encode(Call(rel)) + rest) == Some(Decoded(Call(rel), 5))
  {
    assert Encode(Call(rel)) == [0xE8] + ToBytes(rel, 4);
    Signed32Field(rel);
    Rel32Bytes(rel, 0xE8, ToBytes(rel, 4), rest);
  }

  /** `FF /2` on a register, written by the encoder as `0xD0 + reg`. */
  lemma CallRBytes(reg: Register, m: byte, rest: seq<byte>)
    requires !IsExtended(reg) && m == 0xD0 + RegToInt(reg)
    ensures Decode([0xFF, m] + rest) == Some(Decoded(CallR(reg), 2))
  {
    var s := [0xFF, m] + rest;
    assert s[0] == 0xFF && s[1] == m && s[2..] == rest;
    PackFields(3, 2, RegToInt(reg));
    RegOfFields(reg);
  }

  lemma DecodeEncodeCallR(reg: Register, rest: seq<byte>)
    requires !IsExtended(reg)
    ensures Decode(Encode(CallR(reg)) + rest) == Some(Decoded(CallR(reg), 2))
  {
    assert Encode(CallR(reg)) == [0xFF, 0xD0 + RegToInt(reg)];
    CallRBytes(reg, 0xD0 + RegToInt(reg), rest);
  }

  /** `C3` and `C2 iw`. */
  lemma RetBytes(imm: i16, t: seq<byte>, rest: seq<byte>)
    requires |t| == 2 && Signed16(t) == imm
    ensures Decode([0xC2] + t + rest) == Some(Decoded(Ret(imm), 3))
  {
    Split1(0xC2, t, rest);
  }

  lemma DecodeEncodeRet(imm: i16, rest: seq<byte>)
    ensures Decode(Encode(Ret(imm)) + rest) == Some(Decoded(Ret(imm), if imm == 0 then 1 else 3))
  {
    if imm != 0 {
      Signed16Field(imm);
      RetBytes(imm, ToBytes(imm, 2), rest);
    }
  }

  /** Every instruction the current draft encodes exactly decodes back to
      itself, with the length of its encoding. */
  lemma DecodeEncode(i: Instr, rest: seq<byte>)
    requires Encodable(i)
    ensures Decode(Encode(i) + rest) == Some(Decoded(i, |Encode(i)|))
  {
    EncodeLength(i);
    if i.SubRI32? || i.AddRI32? || i.MovRI32? || i.MovAbs? {
      DecodeEncodeImm(i, rest);
    } else if i.MovRR? || i.MovzxRM8? || i.XorRR? || i.DecR? || i.IncR? {
      DecodeEncodeReg(i, rest);
    } else if i.DecM8? || i.IncM8? || i.CmpMI8? {
      DecodeEncodeMem(i, rest);
    } else if i.Jcc? {
      DecodeEncodeJcc(i.cc, i.rel32, rest);
    } else if i.Jmp? {
      DecodeEncodeJmp(i.rel32, rest);
    } else if i.Call? {
      DecodeEncodeCall(i.rel32, rest);
    } else if i.Ret? {
      DecodeEncodeRet(i.imm16, rest);
    } else if i.Push? || i.Pop? || i.CallR? {
      DecodeEncodeOne(i, rest);
    }
  }

  lemma DecodeEncodeImm(i: Instr, rest: seq<byte>)
    requires i.SubRI32? || i.AddRI32? || i.MovRI32? || i.MovAbs?
    ensures Decode(Encode(i) + rest) == Some(Decoded(i, Length(i)))
  {
    match i
    case SubRI32(reg, imm) => DecodeEncodeSubRI32(reg, imm, rest);
    case AddRI32(reg, imm) => DecodeEncodeAddRI32(reg, imm, rest);
    case MovRI32(reg, imm) => DecodeEncodeMovRI32(reg, imm, rest);
    case MovAbs(reg, imm) => DecodeEncodeMovAbs(reg, imm, rest);
  }

  lemma DecodeEncodeReg(i: Instr, rest: seq<byte>)
    requires i.MovRR? || i.MovzxRM8? || i.XorRR? || i.DecR? || i.IncR?
    requires Encodable(i)
    ensures Decode(Encode(i) + rest) == Some(Decoded(i, Length(i)))
  {
    match i
    case MovRR(dst, src) => DecodeEncodeMovRR(dst, src, rest);
    case MovzxRM8(dst, src) => DecodeEncodeMovzx(dst, src, rest);
    case XorRR(dst, src) => DecodeEncodeXorRR(dst, src, rest);
    case DecR(reg) => DecodeEncodeDecR(reg, rest);
    case IncR(reg) => DecodeEncodeIncR(reg, rest);
  }

  lemma DecodeEncodeMem(i: Instr, rest: seq<byte>)
    requires i.DecM8? || i.IncM8? || i.CmpMI8?
    requires Encodable(i)
    ensures Decode(Encode(i) + rest) == Some(Decoded(i, Length(i)))
  {
    match i
    case DecM8(reg) => DecodeEncodeDecM8(reg, rest);
    case IncM8(reg) => DecodeEncodeIncM8(reg, rest);
    case CmpMI8(reg, imm) => DecodeEncodeCmpMI8(reg, imm, rest);
  }

  lemma DecodeEncodeOne(i: Instr, rest: seq<byte>)
    requires i.Push? || i.Pop? || i.CallR?
    requires Encodable(i)
    ensures Decode(Encode(i) + rest) == Some(Decoded(i, Length(i)))
  {
    match i
    case Push(reg) => DecodeEncodePush(reg, rest);
    case Pop(reg) => DecodeEncodePop(reg, rest);
    case CallR(reg) => DecodeEncodeCallR(reg, rest);
  }

  // Where `Encodable` fails, the current draft's bytes name another
  // instruction or a longer one: the lemmas below show it case by case.

  /** A three-bit register field whose extension bit is wrong names another register. */
  lemma WrongExtension(reg: Register, ext: bool)
    requires ext != IsExtended(reg)
    ensures Reg(RegToInt(reg), ext) != reg
  {
    RegToIntOrdinal(reg);
  }

  /** A ModR/M byte with mod 00 and `reg`'s low bits in rm does not denote
      the operand `[reg]` with nothing after it when the REX B bit disagrees
      with `reg`, or when those bits are 100 (a SIB byte follows) or 101
      (a RIP-relative disp32 follows). */
  lemma MemBaseMisread(rex: Rex, reg: Register, m: byte, rest: seq<byte>)
    requires m / 64 == 0 && m % 8 == RegToInt(reg)
    requires rex.b != IsExtended(reg) || RegToInt(reg) == 4 || RegToInt(reg) == 5
    ensures MemBase(rex, m, rest) != Some((reg, 0))
  {
    if RegToInt(reg) != 4 && RegToInt(reg) != 5 {
      WrongExtension(reg, rex.b);
    }
  }

  lemma PushPopMisread(reg: Register, b: byte, rest: seq<byte>)
    requires IsExtended(reg) && (b == 0x50 + RegToInt(reg) || b == 0x58 + RegToInt(reg))
    ensures Decode([b] + rest) == Some(Decoded(if b < 0x58 then Push(Reg(RegToInt(reg), false)) else Pop(Reg(RegToInt(reg), false)), 1))
    ensures Reg(RegToInt(reg), false) != reg
  {
    var s := [b] + rest;
    assert s[0] == b;
    WrongExtension(reg, false);
  }

  /** `push r8` to `push r15` come out as `push rax` to `push rdi`. */
  lemma PushMisread(reg: Register, rest: seq<byte>)
    requires IsExtended(reg)
    ensures Decode(Encode(Push(reg)) + rest) == Some(Decoded(Push(Reg(RegToInt(reg), false)), 1))
    ensures Reg(RegToInt(reg), false) != reg
  {
    PushPopMisread(reg, 0x50 + RegToInt(reg), rest);
  }

  /** `pop r8` to `pop r15` come out as `pop rax` to `pop rdi`. */
  lemma PopMisread(reg: Register, rest: seq<byte>)
    requires IsExtended(reg)
    ensures Decode(Encode(Pop(reg)) + rest) == Some(Decoded(Pop(Reg(RegToInt(reg), false)), 1))
    ensures Reg(RegToInt(reg), false) != reg
  {
    PushPopMisread(reg, 0x58 + RegToInt(reg), rest);
  }

  /** `call r8` to `call r15` come out as `call rax` to `call rdi`. */
  lemma CallRMisread(reg: Register, rest: seq<byte>)
    requires IsExtended(reg)
    ensures Decode(Encode(CallR(reg)) + rest) == Some(Decoded(CallR(Reg(RegToInt(reg), false)), 2))
    ensures Reg(RegToInt(reg), false) != reg
  {
    var s := Encode(CallR(reg)) + rest;
    assert s == [0xFF, 0xD0 + RegToInt(reg)] + rest;
    assert s[0] == 0xFF && s[1] == 0xD0 + RegToInt(reg) && s[2..] == rest;
    WrongExtension(reg, false);
  }

  lemma ByteMemMisread(reg: Register, m: byte, rest: seq<byte>)
    requires m / 64 == 0 && ((m / 8) % 8 == 0 || (m / 8) % 8 == 1) && m % 8 == RegToInt(reg)
    requires IsExtended(reg) || RegToInt(reg) == 4 || RegToInt(reg) == 5
    ensures Decode([0xFE, m] + rest) != Some(Decoded(if (m / 8) % 8 == 0 then IncM8(reg) else DecM8(reg), 2))
  {
    var s := [0xFE, m] + rest;
    assert s[0] == 0xFE && s[1] == m && s[2..] == rest;
    MemBaseMisread(Rex(false, false, false, false), reg, m, rest);
  }

  lemma CmpMemMisread(reg: Register, imm: i8, m: byte, t: seq<byte>, rest: seq<byte>)
    requires m / 64 == 0 && (m / 8) % 8 == 7 && m % 8 == RegToInt(reg) && |t| == 1
    requires IsExtended(reg) || RegToInt(reg) == 4 || RegToInt(reg) == 5
    ensures Decode([0x80, m] + t + rest) != Some(Decoded(CmpMI8(reg, imm), 3))
  {
    var s := [0x80, m] + t + rest;
    Split2(0x80, m, t, rest);
    MemBaseMisread(Rex(false, false, false, false), reg, m, s[2..]);
  }

  /** A REX.W prefix, `0F B6` and a ModR/M byte that the decoder does not
      read as `[src]` do not decode to a four-byte `movzx dst, byte [src]`. */
  lemma DecodeMovzxMisread(b: byte, m: byte, rest: seq<byte>, dst: Register, src: Register)
    requires 0x48 <= b < 0x50 && MemBase(RexOf(b), m, rest) != Some((src, 0))
    ensures Decode([b, 0x0F, 0xB6, m] + rest) != Some(Decoded(MovzxRM8(dst, src), 4))
  {
    var s := [b, 0x0F, 0xB6, m] + rest;
    assert s[0] == b && s[1..][0] == 0x0F && s[1..][1..] == [0xB6, m] + rest;
    var t := [0xB6, m] + rest;
    assert t[0] == 0xB6 && t[1] == m && t[2..] == rest;
  }

  /** The bytes of `movzx dst, byte [src]`. */
  lemma MovzxEncoding(dst: Register, src: Register)
    ensures Encode(MovzxRM8(dst, src)) == [RexWRB(dst, src), 0x0F, 0xB6, MakeModRM(0, RegToInt(dst), RegToInt(src))]
  {
    MovzxOpcode();
  }

  lemma MovzxMisread(dst: Register, src: Register, rest: seq<byte>)
    requires RegToInt(src) == 4 || RegToInt(src) == 5
    ensures Decode(Encode(MovzxRM8(dst, src)) + rest) != Some(Decoded(MovzxRM8(dst, src), 4))
  {
    var rexb, m := RexWRB(dst, src), MakeModRM(0, RegToInt(dst), RegToInt(src));
    MovzxEncoding(dst, src);
    assert 0x48 <= rexb < 0x50 && MemBase(RexOf(rexb), m, rest) != Some((src, 0)) by {
      RexWRBFields(dst, src);
      MemBaseMisread(RexOf(rexb), src, m, rest);
    }
    DecodeMovzxMisread(rexb, m, rest, dst, src);
  }

  /** `Encodable` is exact: the current draft's bytes for `i` decode back to
      `i`, with `i`'s length, if and only if `i` is encodable. */
  lemma EncodableExact(i: Instr, rest: seq<byte>)
    ensures Encodable(i) <==> Decode(Encode(i) + rest) == Some(Decoded(i, |Encode(i)|))
  {
    EncodeLength(i);
    if Encodable(i) {
      DecodeEncode(i, rest);
    } else {
      match i
      case Push(reg) => PushMisread(reg, rest);
      case Pop(reg) => PopMisread(reg, rest);
      case CallR(reg) => CallRMisread(reg, rest);
      case MovzxRM8(dst, src) => MovzxMisread(dst, src, rest);
      case DecM8(reg) =>
        assert Encode(DecM8(reg)) == [0xFE, MakeModRM(0, 1, RegToInt(reg))];
        ByteMemMisread(reg, MakeModRM(0, 1, RegToInt(reg)), rest);
      case IncM8(reg) =>
        assert Encode(IncM8(reg)) == [0xFE, MakeModRM(0, 0, RegToInt(reg))];
        ByteMemMisread(reg, MakeModRM(0, 0, RegToInt(reg)), rest);
      case CmpMI8(reg, imm) =>
        assert Encode(CmpMI8(reg, imm)) == [0x80, MakeModRM(0, 7, RegToInt(reg))] + ToBytes(imm, 1);
        CmpMemMisread(reg, imm, MakeModRM(0, 7, RegToInt(reg)), ToBytes(imm, 1), rest);
    }
  }

  // The older draft's byte-memory forms: a REX prefix 49 for r8 to r15 and
  // the SIB byte 24 for rsp and r12 as base.

  /** The SIB byte the older draft adds after the ModR/M byte of `[reg]`. */
  function Sib(reg: Register): seq<byte>
  {
    if reg == Rsp || reg == R12 then [MakeSib(0, 4, RegToInt(reg))] else []
  }

  /** The REX bits the older draft's prefix for `[reg]` carries: W and B for r8 to r15. */
  function RexFor(reg: Register): Rex
  {
    Rex(IsExtended(reg), false, false, IsExtended(reg))
  }

  /** The older draft's operand bytes after the prefix, then `after`. */
  function LegacyMemBody(opcode: byte, ext: byte, reg: Register, after: seq<byte>): seq<byte>
    requires ext < 8
  {
    [opcode, MakeModRM(0, ext, RegToInt(reg))] + (Sib(reg) + after)
  }

  /** The operand `[reg]` the older draft emits, read back from its ModR/M
      byte: the SIB byte, when there is one, is consumed. */
  lemma LegacyOperand(reg: Register, ext: byte, rest: seq<byte>)
    requires ext < 8 && RegToInt(reg) != 5
    ensures MemBase(RexFor(reg), MakeModRM(0, ext, RegToInt(reg)), Sib(reg) + rest) == Some((reg, |Sib(reg)|))
  {
    RegOfFields(reg);
  }

  /** The operand is the optional prefix, then the body. */
  lemma LegacyMemParts(opcode: byte, ext: byte, reg: Register, rest: seq<byte>)
    requires ext < 8
    ensures LegacyMemRm8(opcode, ext, reg) + rest
      == (if IsExtended(reg) then [MakeRex(true, false, false, true)] else []) + LegacyMemBody(opcode, ext, reg, rest)
    ensures |LegacyMemRm8(opcode, ext, reg)| == (if IsExtended(reg) then 1 else 0) + 2 + |Sib(reg)|
  {
  }

  /** The operand decodes as its body does after the prefix, one byte
      longer when there is a prefix. */
  lemma LegacyPrefixDecode(opcode: byte, ext: byte, reg: Register, after: seq<byte>, d: Decoded)
    requires ext < 8 && !(0x40 <= opcode < 0x50)
    requires DecodeOpcode(IsExtended(reg), RexFor(reg), LegacyMemBody(opcode, ext, reg, after)) == Some(d)
    ensures Decode(LegacyMemRm8(opcode, ext, reg) + after)
      == Some(Decoded(d.instr, d.length + if IsExtended(reg) then 1 else 0))
  {
    var body := LegacyMemBody(opcode, ext, reg, after);
    LegacyMemParts(opcode, ext, reg, after);
    if IsExtended(reg) {
      RexOfMakeRex(true, false, false, true);
      assert ([MakeRex(true, false, false, true)] + body)[1..] == body;
    } else {
      assert [] + body == body;
    }
  }

  /** After the prefix, `FE /0` or `/1` on `[reg]`. */
  lemma ByteMemOpcode(reg: Register, ext: byte, rest: seq<byte>)
    requires (ext == 0 || ext == 1) && RegToInt(reg) != 5
    ensures DecodeOpcode(IsExtended(reg), RexFor(reg), LegacyMemBody(0xFE, ext, reg, rest))
      == Some(Decoded(if ext == 0 then IncM8(reg) else DecM8(reg), 2 + |Sib(reg)|))
  {
    var m := MakeModRM(0, ext, RegToInt(reg));
    LegacyOperand(reg, ext, rest);
    var body := LegacyMemBody(0xFE, ext, reg, rest);
    assert body[0] == 0xFE && body[1] == m && body[2..] == Sib(reg) + rest;
    OpcodeModRM(IsExtended(reg), RexFor(reg), body);
  }

  /** After the prefix, `80 /7` on `[reg]` and the immediate. */
  lemma CmpMemOpcode(reg: Register, imm: i8, rest: seq<byte>)
    requires RegToInt(reg) != 5
    ensures DecodeOpcode(IsExtended(reg), RexFor(reg), LegacyMemBody(0x80, 7, reg, ToBytes(imm, 1) + rest))
      == Some(Decoded(CmpMI8(reg, imm), 3 + |Sib(reg)|))
  {
    var m := MakeModRM(0, 7, RegToInt(reg));
    var t := ToBytes(imm, 1);
    var after := Sib(reg) + (t + rest);
    LegacyOperand(reg, 7, t + rest);
    Signed8Field(imm);
    assert after[|Sib(reg)|..|Sib(reg)| + 1] == t;
    CmpModRM(RexFor(reg), m, after, reg, |Sib(reg)|, imm);
    var body := LegacyMemBody(0x80, 7, reg, t + rest);
    assert body[0] == 0x80 && body[1] == m && body[2..] == after;
    OpcodeModRM(IsExtended(reg), RexFor(reg), body);
  }

  /** `FE` and `80` are read through their ModR/M byte. */
  lemma OpcodeModRM(hasRex: bool, rex: Rex, s: seq<byte>)
    requires |s| >= 2 && (s[0] == 0xFE || s[0] == 0x80)
    ensures DecodeOpcode(hasRex, rex, s) == DecodeModRM(rex, s[0], s[1], s[2..])
  {
  }

  /** `80 /7` on a memory operand the decoder reads as `[base]`, then the immediate. */
  lemma CmpModRM(rex: Rex, m: byte, after: seq<byte>, base: Register, k: nat, imm: i8)
    requires (m / 8) % 8 == 7 && MemBase(rex, m, after) == Some((base, k))
    requires |after| >= k + 1 && Signed8(after[k..k + 1]) == imm
    ensures DecodeModRM(rex, 0x80, m, after) == Some(Decoded(CmpMI8(base, imm), 3 + k))
  {
  }

  /** `[49] FE /0` or `/1` `[24]` decodes as `inc` or `dec` of `byte [reg]`. */
  lemma LegacyByteMemDecode(reg: Register, ext: byte, rest: seq<byte>)
    requires (ext == 0 || ext == 1) && RegToInt(reg) != 5
    ensures Decode(LegacyMemRm8(0xFE, ext, reg) + rest)
      == Some(Decoded(if ext == 0 then IncM8(reg) else DecM8(reg), |LegacyMemRm8(0xFE, ext, reg)|))
  {
    ByteMemOpcode(reg, ext, rest);
    LegacyPrefixDecode(0xFE, ext, reg, rest, Decoded(if ext == 0 then IncM8(reg) else DecM8(reg), 2 + |Sib(reg)|));
    LegacyMemParts(0xFE, ext, reg, rest);
  }

  /** `[49] 80 /7 [24] ib` decodes as `cmp byte [reg], imm`. */
  lemma LegacyCmpMemDecode(reg: Register, imm: i8, rest: seq<byte>)
    requires RegToInt(reg) != 5
    ensures var b := LegacyMemRm8(0x80, 7, reg) + ToBytes(imm, 1);
      Decode(b + rest) == Some(Decoded(CmpMI8(reg, imm), |b|))
  {
    CmpMemPrefix(reg, imm, rest);
    LegacyMemParts(0x80, 7, reg, rest);
    DecodeRegrouped(LegacyMemRm8(0x80, 7, reg), ToBytes(imm, 1), rest);
  }

  /** Decoding does not depend on how the input was put together. */
  lemma DecodeRegrouped(m: seq<byte>, t: seq<byte>, rest: seq<byte>)
    ensures Decode(m + t + rest) == Decode(m + (t + rest))
  {
    assert m + t + rest == m + (t + rest);
  }

  /** `80 /7` on `[reg]` read through the optional prefix. */
  lemma CmpMemPrefix(reg: Register, imm: i8, rest: seq<byte>)
    requires RegToInt(reg) != 5
    ensures Decode(LegacyMemRm8(0x80, 7, reg) + (ToBytes(imm, 1) + rest))
      == Some(Decoded(CmpMI8(reg, imm), 3 + |Sib(reg)| + if IsExtended(reg) then 1 else 0))
  {
    CmpMemOpcode(reg, imm, rest);
    LegacyPrefixDecode(0x80, 7, reg, ToBytes(imm, 1) + rest, Decoded(CmpMI8(reg, imm), 3 + |Sib(reg)|));
  }

  /** `49 FE /0` etc. with r13 as base: rm 101 with mod 00 is no register
      base, so nothing decodes. */
  lemma LegacyR13Misread(ext: byte, tail: seq<byte>, rest: seq<byte>)
    requires ext == 0 || ext == 1 || ext == 7
    ensures var op: byte := if ext == 7 then 0x80 else 0xFE;
      Decode(LegacyMemRm8(op, ext, R13) + tail + rest) == None
  {
    var op: byte := if ext == 7 then 0x80 else 0xFE;
    var m := MakeModRM(0, ext, RegToInt(R13));
    var s := LegacyMemRm8(op, ext, R13) + tail + rest;
    RexOfMakeRex(true, false, false, true);
    assert s == [MakeRex(true, false, false, true), op, m] + (tail + rest);
    var body := s[1..];
    assert body[0] == op && body[1] == m && body[2..] == tail + rest;
  }

  /** Every instruction the older draft encodes exactly decodes back to
      itself, with the length of its encoding. */
  lemma LegacyDecodeEncode(i: Instr, rest: seq<byte>)
    requires LegacyEncodable(i)
    ensures Decode(LegacyEncode(i) + rest) == Some(Decoded(i, |LegacyEncode(i)|))
  {
    match i
    case DecM8(reg) =>
      assert LegacyEncode(i) == LegacyMemRm8(0xFE, 1, reg);
      LegacyByteMemDecode(reg, 1, rest);
    case IncM8(reg) =>
      assert LegacyEncode(i) == LegacyMemRm8(0xFE, 0, reg);
      LegacyByteMemDecode(reg, 0, rest);
    case CmpMI8(reg, imm) =>
      assert LegacyEncode(i) == LegacyMemRm8(0x80, 7, reg) + ToBytes(imm, 1);
      LegacyCmpMemDecode(reg, imm, rest);
    case _ =>
      LegacyAgrees(i);
      DecodeEncode(i, rest);
  }

  /** `LegacyEncodable` is exact: the older draft's bytes for `i` decode
      back to `i`, with their length, if and only if `i` is legacy-encodable. */
  lemma LegacyEncodableExact(i: Instr, rest: seq<byte>)
    ensures LegacyEncodable(i) <==> Decode(LegacyEncode(i) + rest) == Some(Decoded(i, |LegacyEncode(i)|))
  {
    if LegacyEncodable(i) {
      LegacyDecodeEncode(i, rest);
    } else if (i.DecM8? || i.IncM8? || i.CmpMI8?) && i.reg == R13 {
      LegacyR13Fails(i, rest);
    } else {
      LegacyAgrees(i);
      EncodableExact(i, rest);
    }
  }

  /** The older draft's byte-memory forms on r13 decode to nothing. */
  lemma LegacyR13Fails(i: Instr, rest: seq<byte>)
    requires (i.DecM8? || i.IncM8? || i.CmpMI8?) && i.reg == R13
    ensures Decode(LegacyEncode(i) + rest) == None
  {
    match i
    case DecM8(_) =>
      assert LegacyEncode(i) + rest == LegacyMemRm8(0xFE, 1, R13) + [] + rest;
      LegacyR13Misread(1, [], rest);
    case IncM8(_) =>
      assert LegacyEncode(i) + rest == LegacyMemRm8(0xFE, 0, R13) + [] + rest;
      LegacyR13Misread(0, [], rest);
    case CmpMI8(_, imm) =>
      assert LegacyEncode(i) == LegacyMemRm8(0x80, 7, R13) + ToBytes(imm, 1);
      LegacyR13Misread(7, ToBytes(imm, 1), rest);
  }
}
