/** The current draft's `X86Assembler`, with the `BaseAssembler` and
    `DataBuffer` it derives from: every `emit_*` method appends the bytes
    `Encode` gives for its instruction, a branch to a label that is not yet
    bound records a `BackPatch`, and `finalize()` writes the recorded
    displacements. The ghost fields hold the symbolic stream of what has
    been emitted, so that `Valid()` can say what the buffer means. */
module X86Asm {
  import opened Bytes
  import opened X86
  import opened Labels
  import opened CodeLayout
  import opened Buffer

  class X86Assembler {
    /** The `DataBuffer` base class. */
    const buf: DataBuffer
    /** `m_labels`: the label arena; a `Label*` is an index into it. */
    var labels: seq<Label>
    /** `m_patches`: the fields still to be written by `backpatch()`. */
    var patches: seq<BackPatch>
    /** The operations emitted so far, the offset each starts at, and the
        branches whose patches are in `patches`, in the same order. */
    ghost var ops: seq<Op>
    ghost var sites: seq<nat>
    ghost var pending: seq<nat>

    /** The class invariant: `Assembled`, sealed (see `Sealed`). */
    ghost predicate Valid()
      reads this, buf
    {
      Sealed(|ops| + 1, buf.storage, ops, sites, labels, patches, pending)
    }

    constructor ()
      ensures fresh(buf) && Valid()
      ensures buf.storage == [] && labels == [] && patches == [] && ops == []
    {
      buf := new DataBuffer();
      labels, patches := [], [];
      ops, sites, pending := [], [], [];
    }

    /** Operation `op` was appended at the old end of the buffer; the labels
        are unchanged and the patch list grew as `add_backpatch` grows it. */
    twostate predicate Appended(op: Op)
      reads this, buf
    {
      LabelsIn(op, |old(labels)|) && labels == old(labels) &&
      ops == old(ops) + [op] && sites == old(sites) + [|old(buf.storage)|] &&
      patches == PatchesAfter(old(patches), |old(buf.storage)|, op, old(labels)) &&
      pending == PendingAfter(old(pending), |old(ops)|, op, old(labels))
    }

    /** The bookkeeping after an encoder: the bytes it appended to `code` are
        those of `op`, so the stream grows by `op`. */
    ghost method Record(code: seq<byte>, o: seq<Op>, si: seq<nat>, lb: seq<Label>, p: seq<BackPatch>, pe: seq<nat>, op: Op)
      requires Sealed(|o| + 1, code, o, si, lb, p, pe)
      requires LabelsIn(op, |lb|) && !op.BindAt?
      requires ops == o && sites == si && labels == lb && pending == pe
      requires patches == PatchesAfter(p, |code|, op, lb)
      requires buf.storage == code + OpBytes(op, |code|, lb)
      modifies this
      ensures labels == old(labels) && patches == old(patches)
      ensures ops == o + [op] && sites == si + [|code|]
      ensures pending == PendingAfter(pe, |o|, op, lb)
      ensures Valid()
    {
      AppendSealed(code, o, si, lb, p, pe, op);
      ops, sites, pending := o + [op], si + [|code|], PendingAfter(pe, |o|, op, lb);
    }

    /** `cursor()`: the offset the next byte goes to. */
    method Cursor() returns (c: nat)
      ensures c == |buf.storage|
    {
      c := buf.Cursor();
    }

    /** `as_view()`: the bytes emitted so far. */
    method AsView() returns (view: seq<byte>)
      ensures view == buf.storage
    {
      view := buf.AsView();
    }

    /** `add_label()`: a new unbound label at address 0; the others are untouched. */
    method AddLabel() returns (l: nat)
      requires Valid()
      modifies this
      ensures l == |old(labels)| && labels == old(labels) + [NewLabel()]
      ensures ops == old(ops) && sites == old(sites) && patches == old(patches) && pending == old(pending)
      ensures Valid()
    {
      Unseal(|ops| + 1, buf.storage, ops, sites, labels, patches, pending);
      AddLabelAssembled(buf.storage, ops, sites, labels, patches, pending);
      l := |labels|;
      labels := labels + [NewLabel()];
      Unseal(|ops| + 1, buf.storage, ops, sites, labels, patches, pending);
    }

    /** `bind_label(l)`: binds `l` at the cursor without touching the buffer.
        The source does not check that `l` is still unbound; a second bind
        would move a label that earlier branches were resolved against. */
    method BindLabel(l: nat)
      requires Valid() && l < |labels| && !labels[l].isBound
      modifies this
      ensures labels == old(labels)[l := Bind(old(labels)[l], |buf.storage|)]
      ensures ops == old(ops) + [BindAt(l)] && sites == old(sites) + [|buf.storage|]
      ensures patches == old(patches) && pending == old(pending)
      ensures Valid()
    {
      var rip := buf.Cursor();
      Unseal(|ops| + 1, buf.storage, ops, sites, labels, patches, pending);
      BindAssembled(buf.storage, ops, sites, labels, patches, pending, l);
      labels := labels[l := Bind(labels[l], rip)];
      ops, sites := ops + [BindAt(l)], sites + [rip];
      Unseal(|ops| + 1, buf.storage, ops, sites, labels, patches, pending);
    }

    /** `add_backpatch(l, len, size, offset)`: remembers the field of the
        instruction about to be emitted at the cursor, unless `l` is bound. */
    method AddBackpatch(l: nat, instructionLength: nat, dataSize: nat, offset: int)
      requires l < |labels|
      modifies this
      ensures patches == if old(labels)[l].isBound then old(patches)
        else old(patches) + [BackPatch(l, |buf.storage|, instructionLength, dataSize, offset)]
      ensures labels == old(labels) && ops == old(ops) && sites == old(sites) && pending == old(pending)
    {
      if !labels[l].isBound {
        var rip := buf.Cursor();
        patches := patches + [BackPatch(l, rip, instructionLength, dataSize, offset)];
      }
    }

    /** `backpatch()`: writes each patch's displacement `target.rip - rip - len`,
        truncated to the patch's size, at `rip + offset`, then empties the list. */
    method Backpatch()
      requires PatchesFit(patches, |buf.storage|, |labels|)
      modifies this, buf
      ensures labels == old(labels) && patches == []
      ensures buf.storage == ApplyPatches(old(buf.storage), old(patches), labels)
      ensures ops == old(ops) && sites == old(sites) && pending == old(pending)
    {
      var k := 0;
      PatchesFitSuffix(patches, |buf.storage|, |labels|, 0);
      while k < |patches|
        invariant 0 <= k <= |patches| && |buf.storage| == |old(buf.storage)|
        invariant patches == old(patches) && labels == old(labels)
        invariant ops == old(ops) && sites == old(sites) && pending == old(pending)
        invariant PatchesFit(patches, |buf.storage|, |labels|) && PatchesFit(patches[k..], |buf.storage|, |labels|)
        invariant ApplyPatches(buf.storage, patches[k..], labels) == ApplyPatches(old(buf.storage), patches, labels)
      {
        ApplyPatchesStep(buf.storage, patches, labels, k);
        WritePatch(patches[k]);
        k := k + 1;
      }
      assert patches[k..] == [];
      patches := [];
    }

    /** The body of `backpatch()`'s loop: the displacement narrowed to the
        patch's size, written over its field. */
    method WritePatch(p: BackPatch)
      requires PatchFits(p, |buf.storage|, |labels|)
      modifies buf
      ensures buf.storage == Overwrite(old(buf.storage), p.rip + p.offset, PatchBytes(p, labels))
    {
      var disp := RelativeTo(labels[p.target], p.rip, p.len);
      var loc := p.rip + p.offset;
      if p.size == 1 {
        buf.Put(loc, Narrow(disp, 1), 1);
      } else if p.size == 2 {
        buf.Put(loc, Narrow(disp, 2), 2);
      } else if p.size == 4 {
        buf.Put(loc, Narrow(disp, 4), 4);
      } else {
        assert false;
      }
    }

    /** `finalize()`: backpatches and returns the buffer. Every operation's
        bytes are then exactly right, a branch to a label that was never bound
        pointing at address 0, and nothing else has moved. */
    method Finalize() returns (code: seq<byte>)
      requires Valid()
      modifies this, buf
      ensures patches == [] && labels == old(labels) && ops == old(ops) && sites == old(sites)
      ensures PatchesFit(old(patches), |old(buf.storage)|, |labels|)
      ensures code == buf.storage && code == ApplyPatches(old(buf.storage), old(patches), labels)
      ensures |code| == |old(buf.storage)|
      ensures Shaped(code, ops, sites, labels) && AllResolved(code, ops, sites, labels)
      ensures LabelsAgree(ops, sites, labels) && Placed(labels, |code|)
    {
      Unseal(|ops| + 1, buf.storage, ops, sites, labels, patches, pending);
      ResolveAll(buf.storage, ops, sites, labels, patches, pending);
      Backpatch();
      pending := [];
      code := buf.AsView();
    }

    /** `emit_int3()`: `CC`. */
    method EmitInt3()
      requires Valid()
      modifies this, buf
      ensures buf.storage == old(buf.storage) + Encode(Int3)
      ensures Appended(Plain(Int3)) && Valid()
    {
      ghost var code, o, si, lb, p, pe := buf.storage, ops, sites, labels, patches, pending;
      buf.EmitRange([0xCC]);
      Record(code, o, si, lb, p, pe, Plain(Int3));
    }

    /** `emit_push(reg)`: `50+r`. */
    method EmitPush(reg: Register)
      requires Valid()
      modifies this, buf
      ensures buf.storage == old(buf.storage) + Encode(Push(reg))
      ensures Appended(Plain(Push(reg))) && Valid()
    {
      ghost var code, o, si, lb, p, pe := buf.storage, ops, sites, labels, patches, pending;
      buf.EmitRange([0x50 + RegToInt(reg)]);
      Record(code, o, si, lb, p, pe, Plain(Push(reg)));
    }

    /** `emit_pop(reg)`: `58+r`. */
    method EmitPop(reg: Register)
      requires Valid()
      modifies this, buf
      ensures buf.storage == old(buf.storage) + Encode(Pop(reg))
      ensures Appended(Plain(Pop(reg))) && Valid()
    {
      ghost var code, o, si, lb, p, pe := buf.storage, ops, sites, labels, patches, pending;
      buf.EmitRange([0x58 + RegToInt(reg)]);
      Record(code, o, si, lb, p, pe, Plain(Pop(reg)));
    }

    /** `emit_sub_ri32(reg, imm)`: `REX.W 81 /5 id`. */
    method EmitSubRI32(reg: Register, imm: i32)
      requires Valid()
      modifies this, buf
      ensures buf.storage == old(buf.storage) + Encode(SubRI32(reg, imm))
      ensures Appended(Plain(SubRI32(reg, imm))) && Valid()
    {
      ghost var code, o, si, lb, p, pe := buf.storage, ops, sites, labels, patches, pending;
      buf.EmitRange([MakeRex(true, false, false, IsExtended(reg)), 0x81, MakeModRM(3, 5, RegToInt(reg))] + ToBytes(imm, 4));
      Record(code, o, si, lb, p, pe, Plain(SubRI32(reg, imm)));
    }

    /** `emit_add_ri32(reg, imm)`: `REX.W 81 /0 id`. */
    method EmitAddRI32(reg: Register, imm: i32)
      requires Valid()
      modifies this, buf
      ensures buf.storage == old(buf.storage) + Encode(AddRI32(reg, imm))
      ensures Appended(Plain(AddRI32(reg, imm))) && Valid()
    {
      ghost var code, o, si, lb, p, pe := buf.storage, ops, sites, labels, patches, pending;
      buf.EmitRange([MakeRex(true, false, false, IsExtended(reg)), 0x81, MakeModRM(3, 0, RegToInt(reg))] + ToBytes(imm, 4));
      Record(code, o, si, lb, p, pe, Plain(AddRI32(reg, imm)));
    }

    /** `emit_mov_ri32(reg, imm)`: `REX.W C7 /0 id`. */
    method EmitMovRI32(reg: Register, imm: i32)
      requires Valid()
      modifies this, buf
      ensures buf.storage == old(buf.storage) + Encode(MovRI32(reg, imm))
      ensures Appended(Plain(MovRI32(reg, imm))) && Valid()
    {
      ghost var code, o, si, lb, p, pe := buf.storage, ops, sites, labels, patches, pending;
      buf.EmitRange([MakeRex(true, false, false, IsExtended(reg)), 0xC7, MakeModRM(3, 0, RegToInt(reg))] + ToBytes(imm, 4));
      Record(code, o, si, lb, p, pe, Plain(MovRI32(reg, imm)));
    }

    /** `emit_movabs(reg, imm)`: `REX.W B8+r io`. */
    method EmitMovAbs(reg: Register, imm: i64)
      requires Valid()
      modifies this, buf
      ensures buf.storage == old(buf.storage) + Encode(MovAbs(reg, imm))
      ensures Appended(Plain(MovAbs(reg, imm))) && Valid()
    {
      ghost var code, o, si, lb, p, pe := buf.storage, ops, sites, labels, patches, pending;
      var bytes := [MakeRex(true, false, false, IsExtended(reg)), 0xB8 + RegToInt(reg)] + ToBytes(imm, 8);
      assert bytes == Encode(MovAbs(reg, imm));
      buf.EmitRange(bytes);
      Record(code, o, si, lb, p, pe, Plain(MovAbs(reg, imm)));
    }

    /** `emit_mov_rr(dst, src)`: `REX.W 89 /r`, `src` in the reg field. */
    method EmitMovRR(dst: Register, src: Register)
      requires Valid()
      modifies this, buf
      ensures buf.storage == old(buf.storage) + Encode(MovRR(dst, src))
      ensures Appended(Plain(MovRR(dst, src))) && Valid()
    {
      ghost var code, o, si, lb, p, pe := buf.storage, ops, sites, labels, patches, pending;
      buf.EmitRange([MakeRex(true, IsExtended(src), false, IsExtended(dst)), 0x89, MakeModRM(3, RegToInt(src), RegToInt(dst))]);
      Record(code, o, si, lb, p, pe, Plain(MovRR(dst, src)));
    }

    /** `emit_movzx_rm8(dst, src)`: `REX.W 0F B6 /r` with `[src]` as the operand;
        the opcode is emitted as the `uint16_t` `0xB60F`. */
    method EmitMovzxRM8(dst: Register, src: Register)
      requires Valid()
      modifies this, buf
      ensures buf.storage == old(buf.storage) + Encode(MovzxRM8(dst, src))
      ensures Appended(Plain(MovzxRM8(dst, src))) && Valid()
    {
      ghost var code, o, si, lb, p, pe := buf.storage, ops, sites, labels, patches, pending;
      buf.EmitRange([MakeRex(true, IsExtended(dst), false, IsExtended(src))] + ToBytes(0xB60F, 2) + [MakeModRM(0, RegToInt(dst), RegToInt(src))]);
      Record(code, o, si, lb, p, pe, Plain(MovzxRM8(dst, src)));
    }

    /** `emit_xor_rr(dst, src)`: `REX.W 31 /r`. */
    method EmitXorRR(dst: Register, src: Register)
      requires Valid()
      modifies this, buf
      ensures buf.storage == old(buf.storage) + Encode(XorRR(dst, src))
      ensures Appended(Plain(XorRR(dst, src))) && Valid()
    {
      ghost var code, o, si, lb, p, pe := buf.storage, ops, sites, labels, patches, pending;
      buf.EmitRange([MakeRex(true, IsExtended(src), false, IsExtended(dst)), 0x31, MakeModRM(3, RegToInt(src), RegToInt(dst))]);
      Record(code, o, si, lb, p, pe, Plain(XorRR(dst, src)));
    }

    /** `emit_dec_r(reg)`: `REX.W FF /1`. */
    method EmitDecR(reg: Register)
      requires Valid()
      modifies this, buf
      ensures buf.storage == old(buf.storage) + Encode(DecR(reg))
      ensures Appended(Plain(DecR(reg))) && Valid()
    {
      ghost var code, o, si, lb, p, pe := buf.storage, ops, sites, labels, patches, pending;
      buf.EmitRange([MakeRex(true, false, false, IsExtended(reg)), 0xFF, MakeModRM(3, 1, RegToInt(reg))]);
      Record(code, o, si, lb, p, pe, Plain(DecR(reg)));
    }

    /** `emit_inc_r(reg)`: `REX.W FF /0`. */
    method EmitIncR(reg: Register)
      requires Valid()
      modifies this, buf
      ensures buf.storage == old(buf.storage) + Encode(IncR(reg))
      ensures Appended(Plain(IncR(reg))) && Valid()
    {
      ghost var code, o, si, lb, p, pe := buf.storage, ops, sites, labels, patches, pending;
      buf.EmitRange([MakeRex(true, false, false, IsExtended(reg)), 0xFF, MakeModRM(3, 0, RegToInt(reg))]);
      Record(code, o, si, lb, p, pe, Plain(IncR(reg)));
    }

    /** `emit_dec_rm8(reg)`: `FE /1` with `[reg]`, no REX and no SIB. */
    method EmitDecRM8(reg: Register)
      requires Valid()
      modifies this, buf
      ensures buf.storage == old(buf.storage) + Encode(DecM8(reg))
      ensures Appended(Plain(DecM8(reg))) && Valid()
    {
      ghost var code, o, si, lb, p, pe := buf.storage, ops, sites, labels, patches, pending;
      buf.EmitRange([0xFE, MakeModRM(0, 1, RegToInt(reg))]);
      Record(code, o, si, lb, p, pe, Plain(DecM8(reg)));
    }

    /** `emit_inc_rm8(reg)`: `FE /0` with `[reg]`, no REX and no SIB. */
    method EmitIncRM8(reg: Register)
      requires Valid()
      modifies this, buf
      ensures buf.storage == old(buf.storage) + Encode(IncM8(reg))
      ensures Appended(Plain(IncM8(reg))) && Valid()
    {
      ghost var code, o, si, lb, p, pe := buf.storage, ops, sites, labels, patches, pending;
      buf.EmitRange([0xFE, MakeModRM(0, 0, RegToInt(reg))]);
      Record(code, o, si, lb, p, pe, Plain(IncM8(reg)));
    }

    /** `emit_cmp_mi8(reg, value)`: `80 /7 ib` with `[reg]`; the `int32_t`
        value is narrowed to the `int8_t` immediate. */
    method EmitCmpMI8(reg: Register, value: i32)
      requires Valid()
      modifies this, buf
      ensures buf.storage == old(buf.storage) + Encode(CmpMI8(reg, Narrow(value, 1)))
      ensures Appended(Plain(CmpMI8(reg, Narrow(value, 1)))) && Valid()
    {
      ghost var code, o, si, lb, p, pe := buf.storage, ops, sites, labels, patches, pending;
      buf.EmitRange([0x80, MakeModRM(0, 7, RegToInt(reg))] + ToBytes(Narrow(value, 1), 1));
      Record(code, o, si, lb, p, pe, Plain(CmpMI8(reg, Narrow(value, 1))));
    }

    /** `emit_jcc(cc, l)`: `0F 80+cc rel32`, the rel32 being the distance from
        the end of the instruction to `l` as it is now (to address 0 while `l`
        is unbound, in which case the field is recorded for `backpatch()`). */
    method EmitJcc(cc: Condition, l: nat)
      requires Valid() && l < |labels|
      modifies this, buf
      ensures buf.storage == old(buf.storage) + Encode(Jcc(cc, Rel32(old(labels)[l], |old(buf.storage)|, 6)))
      ensures Appended(JccTo(cc, l)) && Valid()
    {
      ghost var code, o, si, lb, p, pe := buf.storage, ops, sites, labels, patches, pending;
      var rip := buf.Cursor();
      AddBackpatch(l, 6, 4, 2);
      JccOpBytes(cc, l, rip, labels);
      buf.EmitRange([0x0F, 0x80 + CondCode(cc)] + ToBytes(Narrow(RelativeTo(labels[l], rip, 6), 4), 4));
      Record(code, o, si, lb, p, pe, JccTo(cc, l));
    }

    /** `emit_jmp(l)`: `E9 rel32`. */
    method EmitJmp(l: nat)
      requires Valid() && l < |labels|
      modifies this, buf
      ensures buf.storage == old(buf.storage) + Encode(Jmp(Rel32(old(labels)[l], |old(buf.storage)|, 5)))
      ensures Appended(JmpTo(l)) && Valid()
    {
      ghost var code, o, si, lb, p, pe := buf.storage, ops, sites, labels, patches, pending;
      var rip := buf.Cursor();
      AddBackpatch(l, 5, 4, 1);
      buf.EmitRange([0xE9] + ToBytes(Narrow(RelativeTo(labels[l], rip, 5), 4), 4));
      OpBytesEncode(JmpTo(l), rip, labels);
      Record(code, o, si, lb, p, pe, JmpTo(l));
    }

    /** `emit_call(l)`: `E8 rel32`. */
    method EmitCall(l: nat)
      requires Valid() && l < |labels|
      modifies this, buf
      ensures buf.storage == old(buf.storage) + Encode(Call(Rel32(old(labels)[l], |old(buf.storage)|, 5)))
      ensures Appended(CallTo(l)) && Valid()
    {
      ghost var code, o, si, lb, p, pe := buf.storage, ops, sites, labels, patches, pending;
      var rip := buf.Cursor();
      AddBackpatch(l, 5, 4, 1);
      buf.EmitRange([0xE8] + ToBytes(Narrow(RelativeTo(labels[l], rip, 5), 4), 4));
      OpBytesEncode(CallTo(l), rip, labels);
      Record(code, o, si, lb, p, pe, CallTo(l));
    }

    /** `emit_call_r(reg)`: `FF D0+r`, i.e. `FF /2` with a register operand. */
    method EmitCallR(reg: Register)
      requires Valid()
      modifies this, buf
      ensures buf.storage == old(buf.storage) + Encode(CallR(reg))
      ensures Appended(Plain(CallR(reg))) && Valid()
    {
      ghost var code, o, si, lb, p, pe := buf.storage, ops, sites, labels, patches, pending;
      buf.EmitRange([0xFF, 0xD0 + RegToInt(reg)]);
      Record(code, o, si, lb, p, pe, Plain(CallR(reg)));
    }

    /** `emit_ret(imm)`: `C3`, or `C2 iw` when `imm` is not zero. */
    method EmitRet(imm: i16)
      requires Valid()
      modifies this, buf
      ensures buf.storage == old(buf.storage) + Encode(Ret(imm))
      ensures Appended(Plain(Ret(imm))) && Valid()
    {
      ghost var code, o, si, lb, p, pe := buf.storage, ops, sites, labels, patches, pending;
      if imm == 0 {
        buf.EmitRange([0xC3]);
      } else {
        buf.EmitRange([0xC2] + ToBytes(imm, 2));
      }
      Record(code, o, si, lb, p, pe, Plain(Ret(imm)));
    }

    /** `emit_prefix(type)`: the prefix byte. */
    method EmitPrefix(prefix: Prefix)
      requires Valid()
      modifies this, buf
      ensures buf.storage == old(buf.storage) + Encode(RawPrefix(prefix))
      ensures Appended(Plain(RawPrefix(prefix))) && Valid()
    {
      ghost var code, o, si, lb, p, pe := buf.storage, ops, sites, labels, patches, pending;
      buf.EmitRange([PrefixByte(prefix)]);
      Record(code, o, si, lb, p, pe, Plain(RawPrefix(prefix)));
    }

    /** `emit_stosb()`: `AA`. */
    method EmitStosb()
      requires Valid()
      modifies this, buf
      ensures buf.storage == old(buf.storage) + Encode(Stosb)
      ensures Appended(Plain(Stosb)) && Valid()
    {
      ghost var code, o, si, lb, p, pe := buf.storage, ops, sites, labels, patches, pending;
      buf.EmitRange([0xAA]);
      Record(code, o, si, lb, p, pe, Plain(Stosb));
    }

    /** `emit_cld()`: `FC`. */
    method EmitCld()
      requires Valid()
      modifies this, buf
      ensures buf.storage == old(buf.storage) + Encode(Cld)
      ensures Appended(Plain(Cld)) && Valid()
    {
      ghost var code, o, si, lb, p, pe := buf.storage, ops, sites, labels, patches, pending;
      buf.EmitRange([0xFC]);
      Record(code, o, si, lb, p, pe, Plain(Cld));
    }
  }
}
