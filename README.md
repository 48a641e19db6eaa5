# bfcomp code emission, modelled in Dafny

bfcomp is a Brainfuck just-in-time compiler for x86-64. It translates the
program text straight into machine code in a growable byte buffer, then
runs that buffer. The code generation engine has four parts:

- the byte buffer, appended to and overwritten in place;
- labels, which are code addresses that start unknown and are bound later, together with the backpatches that fill in forward displacements;
- the x86-64 instruction encoder;
- the translator, which keeps a stack of loop frames and maps `[` and `]` onto `cmp`/`je`/`jmp`.

The repository holds two drafts of this engine, and this project models both of them.

**The current draft** (`src/core/`) has four pieces:

- `DataBuffer`: the buffer (`Buffer.DataBuffer`).
- `Label` and `BaseAssembler`: the label arena (`Labels`, and the `labels` field of the assembler).
- `X86Assembler`: the encoder, with one central list of pending patches and `backpatch()`. It is modelled as `X86Asm.X86Assembler`, with the pure encoding in `X86`.
- `jit_compile`: the translator, with its prologue, epilogue and `putchar` call stub (`Jit`, specified by `JitSpec`).

Each `emit_*` method is proved to append exactly the bytes that `X86.Encode` gives for its instruction. The assembler also carries a ghost stream of symbolic operations (`CodeLayout.Op`). Its invariant (`CodeLayout.Assembled`) says three things:

- the buffer holds that stream;
- every branch is resolved or has its patch recorded, in order;
- every bound label sits where its bind stands.

`finalize()` is proved to leave every operation's bytes exact. From that:

- `Landing` shows that every branch field, read as a signed 32-bit value and added to the end of its instruction, gives the target label's address. `FieldLands` proves this modulo 2^32. `FieldExact` proves exact equality only when the buffer is under 2 GiB and every label lies inside it (`Placed`).
- `Loops` and `Driver` show that in a compiled program every loop's `je` lands right after its `jmp`, and the `jmp` lands back on its `cmp`.

An independent decoder (`X86Decode`) is written from the x86-64 encoding rules in the Intel 64 and IA-32 Architectures Software Developer's Manual, Volume 2A:

- section 2.2.1, the REX prefix;
- section 2.1.5, ModR/M and SIB;
- the instruction reference, for Jcc, JMP and CALL with rel32.

`X86RoundTrip` proves that decoding the encoding gives back the instruction exactly for the instructions `X86.Encodable` admits. For every other instruction it proves that the bytes do not decode back to it: `push`, `pop` and `call reg` of r8 to r15 decode as the low register with the same three bits, and some of the byte-memory forms decode as another operand or not at all.

**The older draft** (`src/emit.h`, `src/asm.h`, `src/jit.cc`) has three pieces:

- `Emitter` (`Emit.Emitter`).
- An `Assembler` whose labels each own their patch list, and whose byte-memory forms emit REX.B and a SIB byte (`LegacyAsm`).
- `compile`, which keeps the tape pointer in `rsp` (`LegacyJit`).

`LegacyAsm.Assembler`'s methods are proved against value-level functions on `LegacyAsm.Asm` (`Put`, `PutJcc`, `PutJmp`, `PutLabel`, `PutBind`). `finalize()` is proved against `ApplyWrites` of the writes each label makes. `LegacyJit.Compile` is proved equal to `Step` applied to one character after another. `LegacyJit.LoopsLand` then shows that in the finalized code of a balanced program every loop's head is the `cmp byte [rsp], 0` and a `je` that lands after the loop, and its tail is a `jmp` that lands on the `cmp`.

**Where the code does not match the evidently intended behaviour, the model follows the code.** A second bind of a label, an out-of-range write and an unmatched bracket are evidently meant to be errors, but the code does not treat them so:

- Neither draft checks for a second bind of a label.
- Neither draft checks bounds when it overwrites the buffer.
- Neither draft detects an unmatched bracket.

The model handles each case as follows:

- A second bind in the current draft is a precondition: `X86Asm.X86Assembler.BindLabel` requires the label to be unbound.
- A second bind in the older draft is modelled as written: `LegacyAsm.Assembler.BindLabel` requires only a valid assembler and a label in range, and it binds the label again at the cursor.
- An out-of-range write is a precondition in both drafts (`PatchesFit` and `PatchFits` for the current draft, `FieldFits` and `LabelsFit` for the older one).
- A `]` with no open loop is a precondition of both compilers (`NoUnderflow`).
- An unmatched `[` is accepted: `Jit.JitCompile`, `Driver.Compile` and `LegacyJit.Compile` take any program without underflow. Its labels stay unbound, so `Driver.Compile` promises that every label is bound only when `Depth(source) == 0`, and `LegacyJit.LoopsLand` covers only balanced programs.

`emit_jcc`/`emit_jmp` on a bound label emit the displacement inline rather than through a patch. The current draft records patches only for unbound targets (`add_backpatch`). The older draft's `resolve_backpatches` writes fields of size 1 or 4, and the current draft's `backpatch` writes fields of size 1, 2 or 4.

Integers are unbounded in Dafny. The model writes the widths out explicitly:

- `size_t` arithmetic is modulo 2^64.
- Casts to `int8_t`, `int16_t` and `int32_t` are two's-complement narrowing (`Bytes.Narrow`).
- The `uintptr_t` address of `putchar` becomes an `int64_t` immediate (`Bytes.AsI64`).

## Model

| member | source | states |
|---|---|---|
| Bytes.ToBytes | src/core/buffer.h:17-20 | `to_bytes` of a value of `n` bytes gives exactly `n` bytes |
| Bytes.FromToBytes | src/core/buffer.h:17-20 | the little-endian bytes read back as the value modulo 256^n |
| Bytes.FromBytes | src/core/buffer.h:17-20 | reading `n` little-endian bytes gives a value in `[0, 256^n)` |
| Bytes.Signed | src/core/x86.h:104-109 | the two's-complement reading of `n` bytes lies in the signed range of `n` bytes |
| Bytes.ToBytesCongruent | src/core/buffer.h:17-20 | values congruent modulo 256^n have the same `n` bytes |
| Bytes.ToBytesByte | src/core/buffer.h:23-26 | `emit<uint8_t>` of a byte appends that byte |
| Bytes.ToBytesMod | src/core/buffer.h:17-20 | only the value modulo 256^n affects its bytes (the truncation of `bit_cast` to a narrower object) |
| Bytes.SignedToBytes | src/emit.h:20-23 | every value of the signed range reads back unchanged as two's complement |
| Bytes.SignedCongruent | src/emit.h:20-23 | the signed reading of any encoding is congruent to the value modulo 256^n |
| Bytes.Narrow | src/core/x86.h:104-109 | a conversion to a narrower signed type lies in its range, is congruent to the value and has the same low bytes |
| Bytes.AsI64 | src/core/jit.h:58 | the `uintptr_t` address as an `int64_t` has the same 8 bytes and is the value minus 2^64 above 2^63 |
| Bytes.NarrowU64 | src/core/jit.h:58 | narrowing a `uint64_t` to `int64_t` keeps values below 2^63 and subtracts 2^64 from the rest |
| Bytes.Overwrite | src/core/buffer.h:33-37 | a copy into the vector keeps its length |
| Bytes.OverwriteAt | src/core/buffer.h:33-37 | after the copy, byte `k` comes from the value inside the range and from the old buffer outside it |
| Buffer.DataBuffer.constructor | src/core/buffer.h:48 | a new buffer is empty |
| Buffer.DataBuffer.Emit | src/core/buffer.h:23-26 | `emit` appends exactly the `size` little-endian bytes of the value; the old contents are a prefix and the length grows by `size` |
| Buffer.DataBuffer.EmitRange | src/core/buffer.h:28-31 | `emit_range` appends the bytes unchanged |
| Buffer.DataBuffer.Put | src/core/buffer.h:33-37 | `put` overwrites exactly `[offset, offset+size)` with the value's bytes and keeps the length; the range must lie inside the buffer |
| Buffer.DataBuffer.AsView | src/core/buffer.h:39-41 | the view is the whole contents |
| Buffer.DataBuffer.Cursor | src/core/buffer.h:43-45 | the cursor is the number of bytes stored |
| Emit.Emitter.constructor | src/emit.h:47 | a new emitter is empty |
| Emit.Emitter.Emit | src/emit.h:28-31 | `emit` appends exactly the value's `size` bytes and keeps the old contents as a prefix |
| Emit.Emitter.EmitTo | src/emit.h:33-36 | `emit_to` overwrites exactly `[offset, offset+size)` and keeps the length; the range must lie inside the buffer |
| Emit.Emitter.AsView | src/emit.h:38-40 | the view is the whole contents |
| Emit.Emitter.Cursor | src/emit.h:42-44 | the cursor is the byte count |
| Labels.NewLabel | src/core/assembler.h:30-31 | a new label is unbound at address 0 |
| Labels.Bind | src/core/assembler.h:12-15 | `bind(r)` makes the label bound at `r` |
| Labels.RelativeTo | src/core/assembler.h:17-19 | `relative_to` is a `size_t` that, added to the instruction's end, gives the label's address modulo 2^64 |
| X86.RegisterAt | src/core/x86.h:26-43 | the register with a given ordinal, the inverse of `to_underlying` |
| X86.RegisterAtOrdinal | src/core/x86.h:26-43 | every register is named again by its ordinal, so the enumerators are the values 0 to 15 |
| X86.RegToInt | src/core/x86.h:72-74 | `reg_to_int` is below 8 |
| X86.RegToIntOrdinal | src/core/x86.h:72-78 | `reg_to_int(r)` is the ordinal mod 8, and with 8 added for an extended register it is the ordinal |
| X86.MakeRex | src/core/x86.h:80-82 | `make_rex` lies in `0x40..0x4F` with bit 3 = w, bit 2 = r, bit 1 = x, bit 0 = b |
| X86.MakeModRM | src/core/x86.h:84-86 | for mod < 4 and 3-bit fields, `make_modrm` packs them so that mod, reg and rm read back unchanged |
| X86.MakeSib | src/asm.h:80-82 | `make_sib` masks scale to 2 bits and index and base to 3; the fields read back as the masked arguments |
| X86.SibForStackPointer | src/asm.h:80-82 | `make_sib(0, 4, 4)` is `0x24` |
| X86.ConditionAt | src/core/x86.h:45-62 | the condition with a given code, the inverse of its `to_underlying` |
| X86.ConditionAtCode | src/core/x86.h:45-62 | every condition is named again by its code, so the enumerators are the codes 0 to 15 |
| X86.EncodeLength | src/core/x86.h:123-254 | each instruction's encoding has the fixed length of its form: push/pop 1, `mov_ri32` 7, `movabs` 10, `jcc` 6, `jmp`/`call` 5, `ret` 1 or 3, and so on |
| X86.Encode | src/core/x86.h:123-254 | the bytes each `emit_*` of the current draft appends; their length is stated by `X86.EncodeLength`, their decoding by `X86RoundTrip.DecodeEncode` and `X86RoundTrip.EncodableExact` |
| X86.LegacyEncode | src/asm.h:169-272 | the older draft's bytes for an instruction are as long as the current draft's, plus a REX byte for r8-r15 and a SIB byte for rsp and r12 in the byte-memory forms |
| X86.LegacyMem | src/asm.h:224-256 | a byte-memory form's bytes have that widened length, and equal the current draft's exactly when nothing is added |
| X86.LegacyAgrees | src/asm.h:169-272 | the two drafts give the same bytes for an instruction if and only if the older draft adds no REX or SIB byte to it |
| X86Decode.RexOfMakeRex | src/core/x86.h:80-82 | a REX byte built by `make_rex` decodes to its four bits |
| X86Decode.RegOfFields | src/core/x86.h:72-78 | the 3-bit field and the extension bit name the register again |
| X86Decode.PrefixOf | src/core/x86.h:12-24 | each prefix byte names the enumerator with that value |
| X86RoundTrip.DecodeEncodePush | src/core/x86.h:127-129 | `push` of a low register is the one byte `50+r`, which decodes to that push |
| X86RoundTrip.DecodeEncodePop | src/core/x86.h:131-133 | `pop` of a low register is the one byte `58+r`, which decodes to that pop |
| X86RoundTrip.DecodeEncodeSubRI32 | src/core/x86.h:135-140 | `REX.W 81 /5 id` decodes to `sub reg, imm32`, 7 bytes |
| X86RoundTrip.DecodeEncodeAddRI32 | src/core/x86.h:142-147 | `REX.W 81 /0 id` decodes to `add reg, imm32`, 7 bytes |
| X86RoundTrip.DecodeEncodeMovRI32 | src/core/x86.h:149-154 | `REX.W C7 /0 id` decodes to `mov reg, imm32`, 7 bytes |
| X86RoundTrip.DecodeEncodeMovAbs | src/core/x86.h:156-160 | `REX.W B8+r io` decodes to `movabs reg, imm64`, 10 bytes |
| X86RoundTrip.DecodeEncodeMovRR | src/core/x86.h:162-166 | `REX.W 89 /r` decodes to `mov dst, src` for every register pair |
| X86RoundTrip.DecodeEncodeXorRR | src/core/x86.h:174-178 | `REX.W 31 /r` decodes to `xor dst, src` for every register pair |
| X86RoundTrip.DecodeEncodeMovzx | src/core/x86.h:168-172 | `REX.W 0F B6 /r` decodes to `movzx dst, byte [src]` when `src` is not rsp/rbp/r12/r13 |
| X86RoundTrip.DecodeEncodeDecR | src/core/x86.h:180-184 | `REX.W FF /1` decodes to `dec reg` |
| X86RoundTrip.DecodeEncodeIncR | src/core/x86.h:186-190 | `REX.W FF /0` decodes to `inc reg` |
| X86RoundTrip.DecodeEncodeDecM8 | src/core/x86.h:192-195 | `FE /1` decodes to `dec byte [reg]` for the low registers other than rsp and rbp |
| X86RoundTrip.DecodeEncodeIncM8 | src/core/x86.h:197-200 | `FE /0` decodes to `inc byte [reg]` for the same registers |
| X86RoundTrip.DecodeEncodeCmpMI8 | src/core/x86.h:202-206 | `80 /7 ib` decodes to `cmp byte [reg], imm8` for the same registers |
| X86RoundTrip.DecodeEncodeJcc | src/core/x86.h:208-214 | `0F 80+cc rel32` decodes to `jcc` with the condition and the signed rel32, 6 bytes |
| X86RoundTrip.DecodeEncodeJmp | src/core/x86.h:216-221 | `E9 rel32` decodes to `jmp rel32`, 5 bytes |
| X86RoundTrip.DecodeEncodeCall | src/core/x86.h:223-228 | `E8 rel32` decodes to `call rel32`, 5 bytes |
| X86RoundTrip.DecodeEncodeCallR | src/core/x86.h:230-233 | `FF D0+r` decodes to `call reg` for a low register |
| X86RoundTrip.DecodeEncodeRet | src/core/x86.h:235-242 | `ret` is `C3` for 0 and `C2 iw` otherwise, and decodes back with the immediate |
| X86RoundTrip.DecodeEncode | src/core/x86.h:123-254 | every encodable instruction decodes back to itself with the length of its encoding, whatever follows it |
| X86RoundTrip.WrongExtension | src/core/x86.h:72-78 | a 3-bit register field with the wrong extension bit names a different register |
| X86RoundTrip.MemBaseMisread | src/core/x86.h:192-206 | ModR/M mod 00 does not denote `[reg]` when REX.B disagrees with `reg` or its low bits are 100 (SIB follows) or 101 (RIP-relative) |
| X86RoundTrip.MovzxEncoding | src/core/x86.h:168-172 | the bytes of `movzx dst, byte [src]` are REX.W with R and B, `0F B6` and ModR/M mod 00 |
| X86RoundTrip.PushMisread | src/core/x86.h:127-129 | `push r8`..`push r15` (no REX.B) decode as `push rax`..`push rdi` |
| X86RoundTrip.PopMisread | src/core/x86.h:131-133 | `pop r8`..`pop r15` decode as `pop rax`..`pop rdi` |
| X86RoundTrip.CallRMisread | src/core/x86.h:230-233 | `call r8`..`call r15` decode as `call rax`..`call rdi` |
| X86RoundTrip.ByteMemMisread | src/core/x86.h:192-200 | `inc`/`dec byte [reg]` without REX.B or SIB do not decode to themselves for r8-r15, rsp or rbp |
| X86RoundTrip.CmpMemMisread | src/core/x86.h:202-206 | the same for `cmp byte [reg], imm8` |
| X86RoundTrip.MovzxMisread | src/core/x86.h:168-172 | `movzx` from `[rsp]`, `[rbp]`, `[r12]` or `[r13]` does not decode to itself |
| X86RoundTrip.EncodableExact | src/core/x86.h:123-254 | an instruction decodes back to itself if and only if `Encodable` admits it |
| X86RoundTrip.LegacyOperand | src/asm.h:224-256 | the older draft's `[reg]` operand reads back as `reg`, its SIB byte consumed, for every base but rbp and r13 |
| X86RoundTrip.LegacyByteMemDecode | src/asm.h:224-244 | `[49] FE /0` or `/1` `[24]` decodes to `inc` or `dec byte [reg]` with the length of those bytes |
| X86RoundTrip.LegacyCmpMemDecode | src/asm.h:246-256 | `[49] 80 /7 [24] ib` decodes to `cmp byte [reg], imm8` with the length of those bytes |
| X86RoundTrip.LegacyR13Misread | src/asm.h:224-256 | with r13 as base the bytes decode to nothing: mod 00 with rm 101 names no register base |
| X86RoundTrip.LegacyDecodeEncode | src/asm.h:169-272 | every instruction `LegacyEncodable` admits decodes back to itself with the length of the older draft's bytes, whatever follows |
| X86RoundTrip.LegacyEncodableExact | src/asm.h:169-272 | the older draft's bytes decode back to the instruction if and only if `LegacyEncodable` admits it, so its byte-memory forms are exact for every base but rbp and r13 |
| CodeLayout.BranchHead | src/core/x86.h:208-228 | a branch's opcode bytes are those before its rel32 field |
| CodeLayout.Field | src/core/x86.h:213 | the rel32 field of a branch is 4 bytes |
| CodeLayout.OpBytes | src/core/x86.h:123-254 | the bytes of an operation have its length |
| CodeLayout.Rel32 | src/core/x86.h:213 | the rel32 passed to `emit<int32_t>` is `relative_to` narrowed, and its bytes are the branch's field |
| CodeLayout.OpBytesEncode | src/core/x86.h:208-228 | a branch's bytes are the encoding of the branch with its rel32 |
| CodeLayout.OpBytesRelabel | src/core/x86.h:208-228 | moving labels changes a branch's bytes only inside its field, and not at all when its own target stays put |
| CodeLayout.OpBytesField | src/core/x86.h:208-228 | the field of a branch's bytes is exactly the displacement to its target |
| CodeLayout.JccOpBytes | src/core/x86.h:208-214 | the bytes `emit_jcc` appends are the `jcc` with its rel32, the operation's bytes, and the opcode followed by the field |
| CodeLayout.OpBytesExtend | src/core/assembler.h:35-37 | adding a label to the arena changes no operation's bytes |
| CodeLayout.LaidAppend | src/core/buffer.h:28-31 | appending an operation's bytes lays it out right after the others |
| CodeLayout.Disjoint | src/core/buffer.h:28-31 | the operations of a stream occupy disjoint byte ranges |
| CodeLayout.Chunk | src/core/buffer.h:28-31 | the bytes an operation occupies have its length |
| CodeLayout.ChunkAppend | src/core/buffer.h:28-31 | appending keeps every earlier operation's bytes and gives the new one the appended bytes |
| CodeLayout.AppendShaped | src/core/x86.h:123-254 | an encoder appending an operation's bytes keeps the buffer holding the stream |
| CodeLayout.AppendConsistent | src/core/x86.h:93-97 | appending keeps every operation resolved or pending, the pending list growing as `add_backpatch` grows it |
| CodeLayout.AppendTracking | src/core/x86.h:93-97 | a branch to an unbound label becomes pending |
| CodeLayout.AppendLabelsAgree | src/core/x86.h:123-254 | appending anything but a bind keeps labels where their binds are |
| CodeLayout.BindShaped | src/core/assembler.h:39-41 | binding at the cursor keeps the buffer holding the stream |
| CodeLayout.BindResolved | src/core/assembler.h:39-41 | an operation that is not pending stays resolved when a label is bound |
| CodeLayout.BindConsistent | src/core/assembler.h:39-41 | binding an unbound label keeps every operation resolved or pending |
| CodeLayout.BindTracking | src/core/assembler.h:39-41 | binding keeps every branch to an unbound label pending |
| CodeLayout.BindLabelsAgree | src/core/assembler.h:39-41 | binding records the label's address where its bind stands |
| CodeLayout.PatchFor | src/core/x86.h:93-97 | the patch of a branch has size 4, the branch's length and start, and its field offset |
| CodeLayout.PatchBytes | src/core/x86.h:101-112 | the bytes `backpatch` writes have the patch's size |
| CodeLayout.ApplyPatches | src/core/x86.h:99-116 | writing the patches in order keeps the buffer's length |
| CodeLayout.ApplyPatchesStep | src/core/x86.h:99-116 | the loop of `backpatch` writes patch `k` and then those after it |
| CodeLayout.ApplyPatchesOutside | src/core/x86.h:99-116 | writing the patches changes no byte outside their fields |
| CodeLayout.MatchFits | src/core/x86.h:93-97 | a recorded patch lies inside its own branch, at its field |
| CodeLayout.FieldWriteSelf | src/core/x86.h:99-116 | writing a branch's displacement into its field resolves it |
| CodeLayout.FieldWriteOthers | src/core/x86.h:99-116 | writing a branch's field leaves every other operation's bytes alone |
| CodeLayout.ChunkOutside | src/core/x86.h:99-116 | a write outside an operation's bytes leaves them alone |
| CodeLayout.PatchOne | src/core/x86.h:99-116 | one patch keeps the buffer in shape, resolves its branch and keeps the others |
| CodeLayout.ResolveAll | src/core/x86.h:99-121 | writing the patches of the pending branches resolves every operation |
| CodeLayout.Unseal | src/core/x86.h:92-258 | the sealed form of the assembler's invariant is the invariant |
| CodeLayout.PatchesMatchAppend | src/core/x86.h:93-97 | the patch list keeps matching the pending branches when one is appended |
| CodeLayout.AppendAssembled | src/core/x86.h:123-254 | every encoder keeps the assembler's invariant |
| CodeLayout.BindAssembled | src/core/assembler.h:39-41 | binding an unbound label keeps the assembler's invariant |
| CodeLayout.AddLabelAssembled | src/core/assembler.h:35-37 | a new label keeps the assembler's invariant |
| CodeLayout.ResolveStep | src/core/x86.h:99-116 | one turn of `backpatch` leaves the rest pending |
| X86Asm.X86Assembler.constructor | src/core/x86.h:92-258 | a new assembler is empty and satisfies its invariant |
| X86Asm.X86Assembler.Record | src/core/x86.h:123-254 | after an encoder, the stream grows by its operation and the invariant holds |
| X86Asm.X86Assembler.Cursor | src/core/buffer.h:43-45 | the cursor is the size of the buffer |
| X86Asm.X86Assembler.AsView | src/core/x86.h:120 | the view is the buffer |
| X86Asm.X86Assembler.AddLabel | src/core/assembler.h:35-37 | `add_label` appends an unbound label and returns its handle; nothing else changes |
| X86Asm.X86Assembler.BindLabel | src/core/assembler.h:39-41 | `bind_label` binds the label at the cursor and leaves the buffer alone |
| X86Asm.X86Assembler.AddBackpatch | src/core/x86.h:93-97 | a patch at the cursor is recorded exactly when the label is unbound |
| X86Asm.X86Assembler.Backpatch | src/core/x86.h:99-116 | `backpatch` writes every patch in order, keeps the length and empties the list |
| X86Asm.X86Assembler.WritePatch | src/core/x86.h:101-112 | one turn writes the displacement, narrowed to the patch's size, over its field |
| X86Asm.X86Assembler.Finalize | src/core/x86.h:118-121 | `finalize` returns the patched buffer, whose every operation is exact and whose labels lie inside it |
| X86Asm.X86Assembler.EmitInt3 | src/core/x86.h:123-125 | appends `CC` |
| X86Asm.X86Assembler.EmitPush | src/core/x86.h:127-129 | appends `50+r` |
| X86Asm.X86Assembler.EmitPop | src/core/x86.h:131-133 | appends `58+r` |
| X86Asm.X86Assembler.EmitSubRI32 | src/core/x86.h:135-140 | appends `REX.W 81 /5 id` |
| X86Asm.X86Assembler.EmitAddRI32 | src/core/x86.h:142-147 | appends `REX.W 81 /0 id` |
| X86Asm.X86Assembler.EmitMovRI32 | src/core/x86.h:149-154 | appends `REX.W C7 /0 id` |
| X86Asm.X86Assembler.EmitMovAbs | src/core/x86.h:156-160 | appends `REX.W B8+r io` |
| X86Asm.X86Assembler.EmitMovRR | src/core/x86.h:162-166 | appends `REX.W 89 /r` |
| X86Asm.X86Assembler.EmitMovzxRM8 | src/core/x86.h:168-172 | appends `REX.W 0F B6 /r`, the opcode as the `uint16_t` `0xB60F` |
| X86Asm.X86Assembler.EmitXorRR | src/core/x86.h:174-178 | appends `REX.W 31 /r` |
| X86Asm.X86Assembler.EmitDecR | src/core/x86.h:180-184 | appends `REX.W FF /1` |
| X86Asm.X86Assembler.EmitIncR | src/core/x86.h:186-190 | appends `REX.W FF /0` |
| X86Asm.X86Assembler.EmitDecRM8 | src/core/x86.h:192-195 | appends `FE /1` |
| X86Asm.X86Assembler.EmitIncRM8 | src/core/x86.h:197-200 | appends `FE /0` |
| X86Asm.X86Assembler.EmitCmpMI8 | src/core/x86.h:202-206 | appends `80 /7 ib` with the value narrowed to `int8_t` |
| X86Asm.X86Assembler.EmitJcc | src/core/x86.h:208-214 | appends `0F 80+cc rel32`, the rel32 computed from the label as it is now, and records the field while the label is unbound |
| X86Asm.X86Assembler.EmitJmp | src/core/x86.h:216-221 | appends `E9 rel32` in the same way |
| X86Asm.X86Assembler.EmitCall | src/core/x86.h:223-228 | appends `E8 rel32` in the same way |
| X86Asm.X86Assembler.EmitCallR | src/core/x86.h:230-233 | appends `FF D0+r` |
| X86Asm.X86Assembler.EmitRet | src/core/x86.h:235-242 | appends `C3`, or `C2 iw` for a nonzero immediate |
| X86Asm.X86Assembler.EmitPrefix | src/core/x86.h:244-246 | appends the prefix byte |
| X86Asm.X86Assembler.EmitStosb | src/core/x86.h:248-250 | appends `AA` |
| X86Asm.X86Assembler.EmitCld | src/core/x86.h:252-254 | appends `FC` |
| Landing.InstrOf | src/core/x86.h:208-228 | an operation other than a bind stands for an instruction whose encoding is its bytes |
| Landing.Rel32Lands | src/core/x86.h:213 | the rel32 plus the instruction's end is the label's address modulo 2^32 |
| Landing.Rel32Exact | src/core/x86.h:213 | below 2^31 the rel32 is exactly the distance from the instruction's end to the label |
| Landing.BranchField | src/core/x86.h:208-228 | a branch's field read as signed is its rel32 |
| Landing.FieldValue | src/core/x86.h:99-121 | a resolved branch's field read as signed is the rel32 its encoder computes |
| Landing.HeldWraps | src/core/x86.h:101 | a field holding the rel32 lands on the label modulo 2^32 |
| Landing.HeldExact | src/core/x86.h:101 | and exactly when both lie below 2 GiB |
| Landing.FieldLands | src/core/x86.h:99-121 | after `finalize`, each branch's field read as signed, added to its end, gives the target's address modulo 2^32 |
| Landing.FieldExact | src/core/x86.h:99-121 | in a buffer under 2 GiB, each branch's field is exactly the distance to its target |
| Landing.DecodeHeld | src/core/x86.h:123-254 | bytes holding an encodable instruction decode to it, whatever follows |
| Landing.DecodeAt | src/core/x86.h:118-121 | decoding the finalized buffer at an operation's site gives its instruction and its length |
| JitSpec.NoUnderflowPrefix | src/core/jit.h:80-83 | a program whose `]`s all find a frame has prefixes that do too |
| JitSpec.Run | src/core/jit.h:77-79 | after the characters, two labels have been made per `[` |
| JitSpec.ExpandAppend | src/core/jit.h:69-99 | what a concatenation emits is what each part emits, in order |
| JitSpec.EmittedAppend | src/core/jit.h:69-99 | `a + b` emits `a`'s operations, then `b`'s from where `a` left off |
| JitSpec.PrologueEpilogueMirror | src/core/jit.h:30-53 | the prologue pushes `rbp` then `rdi` and sets `rbp` from `rsp`; the epilogue sets `rsp` from `rbp`, pops `rdi` then `rbp`, and returns |
| JitSpec.DepthAppend | src/core/jit.h:69-99 | nesting depth and the count of `[` add up over concatenation |
| JitSpec.NoUnderflowAppend | src/core/jit.h:80-83 | `a + b` never underflows exactly when `a` does not and `b` does not from `a`'s depth |
| JitSpec.RunDepth | src/core/jit.h:77-83 | the branch stack's depth after a prefix is `#'[' - #']'` in it |
| JitSpec.RunSnoc | src/core/jit.h:69-99 | one more character adds its state change and its operations |
| JitSpec.RunAppend | src/core/jit.h:69-99 | running `a + b` is running `a`, then `b` |
| JitSpec.RunFrame | src/core/jit.h:77-83 | a fragment that closes only what it opens runs the same on any frames below, and leaves them |
| JitSpec.NextFrame | src/core/jit.h:77-83 | one character on top of extra frames |
| JitSpec.LoopOpen | src/core/jit.h:77-79 | `[` binds `begin` at the `cmp`, emits `je end` and pushes the frame |
| JitSpec.LoopBody | src/core/jit.h:77-79 | a balanced body runs on top of the new frame and leaves it |
| JitSpec.LoopShape | src/core/jit.h:15-24 | `[t]` with a balanced `t` emits bind `begin`, `cmp`, `je end`, the body, `jmp begin`, bind `end`, and pops its frame (LIFO) |
| JitSpec.NoUnderflowRaise | src/core/jit.h:80-83 | more open frames never cause an underflow |
| JitSpec.LoopBalanced | src/core/jit.h:77-83 | a loop around a balanced body is balanced |
| JitSpec.NextFrames | src/core/jit.h:77-83 | the branch stack stays a stack of frames, an inner `end` later than the outer ones |
| JitSpec.RunFrames | src/core/jit.h:77-83 | the same over a whole program |
| JitSpec.CharOpsNamed | src/core/jit.h:69-99 | every label a character's operations name exists |
| JitSpec.CharOpsNoBind | src/core/jit.h:77-83 | no character binds the `putchar` label |
| JitSpec.EmittedNoBind | src/core/jit.h:69-99 | nor does any program text |
| JitSpec.PutcharBoundLast | src/core/jit.h:55-61 | `putchar` is bound once, at the stub after the epilogue, so every `call` to it comes before its bind |
| JitSpec.CharOps | src/core/jit.h:69-99 | a character emits nothing exactly when it is not one of the eight commands, or is `]` with no open frame; otherwise at most three operations, every instruction among them encodable |
| JitSpec.PrologueOps | src/core/jit.h:30-46 | the prologue is plain instructions only, each encodable |
| JitSpec.EpilogueOps | src/core/jit.h:48-53 | four plain encodable instructions, the last `ret` |
| JitSpec.NativeCallOps | src/core/jit.h:55-61 | the bind of the `putchar` label, then three plain encodable instructions |
| JitSpec.Program | src/core/jit.h:63-103 | the operations of `jit_compile`: prologue, the text's operations, epilogue and call stub; what they promise is stated by `JitSpec.ProgramEncodable` and the `Loops` lemmas |
| JitSpec.EmittedEncodable | src/core/jit.h:69-99 | every instruction any program text emits is encodable |
| JitSpec.ProgramEncodable | src/core/jit.h:63-103 | every instruction `jit_compile` emits is one the current draft encodes exactly, so none of its misencoded operand forms reaches the buffer |
| Jit.CharTracks | src/core/jit.h:69-99 | translating a character keeps the labels tracked and leaves those up to `putchar` alone |
| Jit.OpenTracks | src/core/jit.h:77-79 | `[` adds a bound `begin` and an unbound `end` |
| Jit.CloseTracks | src/core/jit.h:80-83 | `]` binds the innermost `end` right after the `jmp` |
| Jit.Step | src/core/jit.h:69-99 | one more character of the loop, and `]` finds a frame |
| Jit.NewBranch | src/core/jit.h:13 | `Branch{cc}` adds two unbound labels, `begin` first |
| Jit.Start | src/core/jit.h:15-19 | `start` binds `begin` at the cursor, then emits `cmp byte [rdi], 0` and `je end` |
| Jit.Close | src/core/jit.h:21-24 | `close` emits `jmp begin`, then binds `end` at the byte after it |
| Jit.GenPrologue | src/core/jit.h:30-46 | the prologue's eleven instructions, in order |
| Jit.GenEpilogue | src/core/jit.h:48-53 | `mov rsp, rbp; pop rdi; pop rbp; ret` |
| Jit.GenNativeCall | src/core/jit.h:55-61 | binds the label, then `movabs rax, func; call rax; ret` |
| Jit.Output | src/core/jit.h:90-94 | `.` emits `movzx rcx, byte [rdi]; call putchar; xor rax, rax` |
| Jit.OpenLoop | src/core/jit.h:77-79 | `[` pushes a frame of two new labels and starts it |
| Jit.CloseLoop | src/core/jit.h:80-83 | `]` closes the innermost frame and pops it |
| Jit.CompileChar | src/core/jit.h:70-98 | the `switch` emits each character's operations, and nothing for any other character |
| Jit.FinalLabels | src/core/jit.h:101-102 | after the stub, every label of a balanced program is bound |
| Jit.CompileLoop | src/core/jit.h:69-99 | the loop emits the program's operations and keeps the labels tracked |
| Jit.JitCompile | src/core/jit.h:63-103 | `jit_compile` emits prologue, body, epilogue and stub, makes 1 + 2 × (number of `[`) labels, and binds them all for a balanced program |
| Loops.LoopEmitted | src/core/jit.h:77-83 | `p[t]q` emits the loop's operations as one block after `p`'s |
| Loops.LoopAtMiddle | src/core/jit.h:15-24 | a loop block sits where the streams around it leave it |
| Loops.LoopInProgramAt | src/core/jit.h:63-103 | each loop's head and tail are at the positions the program's prefix and body give |
| Loops.JccLands | src/core/jit.h:18 | a resolved `je` lands on its label |
| Loops.JmpLands | src/core/jit.h:22 | a resolved `jmp` lands on its label |
| Loops.LoopBound | src/core/jit.h:15-24 | `begin` is bound at the `cmp` and `end` right after the `jmp` |
| Loops.HeadLanding | src/core/jit.h:18 | the `je` lands after the `jmp` |
| Loops.TailLanding | src/core/jit.h:22 | the `jmp` lands on the `cmp` |
| Loops.LoopLands | src/core/jit.h:15-24 | in finalized code a loop's head and tail land on each other |
| Driver.Compile | src/main.cc:16-19 | compiling and finalizing gives the program's stream, every operation resolved, every label where its bind stands |
| Driver.CompiledLoopLands | src/core/jit.h:15-24 | in a compiled program every loop's `je` lands right after its `jmp`, and the `jmp` lands on its `cmp` |
| LegacyAsm.NewLabel | src/asm.h:134-137 | a new label has no patches and is unbound at 0 |
| LegacyAsm.Bind | src/asm.h:102-105 | `bind` makes the label bound at `rip` and keeps its patches |
| LegacyAsm.RelativeTo | src/asm.h:94-96 | `relative_to` plus the instruction's end is the label's address modulo 2^64 |
| LegacyAsm.AddBackpatch | src/asm.h:107-114 | `add_backpatch` appends one patch at the cursor and changes nothing else |
| LegacyAsm.ApplyWrites | src/emit.h:33-36 | writes applied in order keep the length |
| LegacyAsm.ApplyWritesAppend | src/emit.h:33-36 | applying two lists of writes is applying their concatenation |
| LegacyAsm.ApplyWritesOutside | src/emit.h:33-36 | a byte no write covers keeps its value |
| LegacyAsm.ApplyWritesLands | src/emit.h:33-36 | a write every other misses is found intact |
| LegacyAsm.PatchBytes | src/asm.h:121-128 | the bytes written have the field's size |
| LegacyAsm.PatchWrites | src/asm.h:120-129 | the loop makes one write per patch |
| LegacyAsm.PatchWriteAt | src/asm.h:120-129 | the `i`-th write is the `i`-th patch's |
| LegacyAsm.WriteOrigin | src/asm.h:282-288 | every write of `finalize` is that of a patch of a bound label |
| LegacyAsm.WriteOfPatch | src/asm.h:282-288 | every patch of a bound label is written by `finalize` |
| LegacyAsm.AllWritesInside | src/asm.h:282-288 | when every field fits, every write lies inside the buffer |
| LegacyAsm.RecordedFit | src/asm.h:107-114 | recorded patches fit the buffer |
| LegacyAsm.FieldsApart | src/asm.h:107-114 | the fields of two patches of different instructions are disjoint |
| LegacyAsm.FieldResolved | src/asm.h:116-131 | after `finalize`, each patch of a bound label holds the displacement from its instruction's end to the label |
| LegacyAsm.ByteKept | src/asm.h:116-131 | after `finalize`, a byte outside every patched field keeps its value |
| LegacyAsm.UnboundKept | src/asm.h:116-119 | the field of a patch whose label was never bound keeps its placeholder |
| LegacyAsm.UnboundByte | src/asm.h:116-119 | each byte of such a field keeps its value |
| LegacyAsm.RangeKept | src/asm.h:116-131 | a run of bytes outside every patched field keeps its values |
| LegacyAsm.PatchLands | src/asm.h:121-125 | a 4-byte field read as signed, added to its instruction's end, gives the label's address modulo 2^32, and exactly below 2^31 |
| LegacyAsm.Put | src/asm.h:169-272 | a non-branch encoder appends its instruction's bytes, widened by REX and SIB where the older draft adds them, keeps the old bytes as a prefix and leaves the labels alone |
| LegacyAsm.PutLabel | src/asm.h:274-276 | `label()` keeps the bytes and appends one fresh label after the old ones |
| LegacyAsm.PutBind | src/asm.h:278-280 | `bind` keeps the bytes, binds that label at the cursor with its patches kept, and changes no other label |
| LegacyAsm.PutJcc | src/asm.h:142-154 | `emit_jcc` appends 6 bytes; a bound target changes no label, an unbound one gains the patch of the rel32 field (size 4, instruction length 6, offset 2) |
| LegacyAsm.PutJmp | src/asm.h:156-167 | `emit_jmp` appends 5 bytes; a bound target changes no label, an unbound one gains the patch of size 4, length 5, offset 1 |
| LegacyAsm.LabelWrites | src/asm.h:116-131 | `resolve_backpatches` writes once per patch of a bound label and not at all for an unbound one |
| LegacyAsm.Resolved | src/asm.h:116-131 | afterwards a bound label's patch list is empty and an unbound label is unchanged; binding and address stay |
| LegacyAsm.AllWrites | src/asm.h:282-288 | `finalize` makes one write per patch of each bound label |
| LegacyAsm.RecordedGrow | src/asm.h:107-114 | recorded patches stay recorded when bytes are appended |
| LegacyAsm.PutKeeps | src/asm.h:169-272 | every non-branch encoder keeps the assembler's invariant and appends |
| LegacyAsm.PutLabelKeeps | src/asm.h:274-276 | `label()` keeps the invariant and adds one label |
| LegacyAsm.PutBindKeeps | src/asm.h:278-280 | `bind` keeps the invariant |
| LegacyAsm.AddKeepsApart | src/asm.h:107-114 | a patch at the cursor is apart from every earlier one |
| LegacyAsm.AddKeepsRecorded | src/asm.h:107-114 | and is recorded once its instruction is emitted |
| LegacyAsm.JccEncoding | src/asm.h:143-147 | the bytes of a `jcc` are `0F 80+cc rel32` |
| LegacyAsm.JmpEncoding | src/asm.h:157-160 | the bytes of a `jmp` are `E9 rel32` |
| LegacyAsm.PutJccKeeps | src/asm.h:142-154 | `emit_jcc` keeps the invariant; an unbound label's new patch covers the field, a bound label's displacement is inline |
| LegacyAsm.PutJmpKeeps | src/asm.h:156-167 | `emit_jmp` likewise |
| LegacyAsm.LegacyMemOperand | src/asm.h:224-256 | REX `49` exactly for r8-r15, SIB `24` exactly for rsp and r12, 2 to 4 bytes, with the opcode and the ModR/M extension in place |
| LegacyAsm.LegacyMemSplit | src/asm.h:224-256 | the three parts appended in turn are the operand |
| LegacyAsm.ResolveInside | src/asm.h:116-131 | the writes of a label whose fields fit lie inside the buffer |
| LegacyAsm.PatchWritesStep | src/asm.h:120-129 | one more turn of the loop is one more overwrite |
| LegacyAsm.AllWritesStep | src/asm.h:283-285 | one more turn of `finalize`'s loop applies that label's writes |
| LegacyAsm.Assembler.constructor | src/asm.h:140 | the assembler holds the emitter and no labels |
| LegacyAsm.Assembler.EmitU8 | src/asm.h:144 | `emit<uint8_t>` appends the byte |
| LegacyAsm.Assembler.EmitJccReal | src/asm.h:143-147 | `emit_real` appends `0F 80+cc rel32` |
| LegacyAsm.Assembler.EmitJcc | src/asm.h:142-154 | `emit_jcc` leaves the state `PutJcc` gives |
| LegacyAsm.Assembler.EmitJmpReal | src/asm.h:157-160 | `emit_real` appends `E9 rel32` |
| LegacyAsm.Assembler.EmitJmp | src/asm.h:156-167 | `emit_jmp` leaves the state `PutJmp` gives |
| LegacyAsm.Assembler.EmitRet | src/asm.h:169-176 | appends `C3`, or `C2 iw` |
| LegacyAsm.Assembler.EmitPush | src/asm.h:178-180 | appends `50+r` |
| LegacyAsm.Assembler.EmitPop | src/asm.h:182-184 | appends `58+r` |
| LegacyAsm.Assembler.EmitSubRI32 | src/asm.h:186-191 | appends `REX.W 81 /5 id` |
| LegacyAsm.Assembler.EmitMovRI32 | src/asm.h:193-198 | appends `REX.W C7 /0 id` |
| LegacyAsm.Assembler.EmitMovRR | src/asm.h:200-204 | appends `REX.W 89 /r` |
| LegacyAsm.Assembler.EmitXorRR | src/asm.h:206-210 | appends `REX.W 31 /r` |
| LegacyAsm.Assembler.EmitDecR | src/asm.h:212-216 | appends `REX.W FF /1` |
| LegacyAsm.Assembler.EmitIncR | src/asm.h:218-222 | appends `REX.W FF /0` |
| LegacyAsm.Assembler.EmitDecRM8 | src/asm.h:224-233 | appends `[49] FE /1 [24]` |
| LegacyAsm.Assembler.EmitIncRM8 | src/asm.h:235-244 | appends `[49] FE /0 [24]` |
| LegacyAsm.Assembler.EmitCmpMI8 | src/asm.h:246-256 | appends `[49] 80 /7 [24] ib` with the value narrowed to `int8_t` |
| LegacyAsm.Assembler.EmitRexB | src/asm.h:225-227 | the REX byte only for an extended register |
| LegacyAsm.Assembler.EmitSib | src/asm.h:230-232 | the SIB byte only for rsp and r12 |
| LegacyAsm.Assembler.EmitStosb | src/asm.h:258-260 | appends `AA` |
| LegacyAsm.Assembler.EmitPrefix | src/asm.h:262-264 | appends the prefix byte |
| LegacyAsm.Assembler.EmitCld | src/asm.h:266-268 | appends `FC` |
| LegacyAsm.Assembler.EmitInt3 | src/asm.h:270-272 | appends `CC` |
| LegacyAsm.Assembler.CreateLabel | src/asm.h:274-276 | `label()` adds an unbound label and returns it |
| LegacyAsm.Assembler.BindLabel | src/asm.h:278-280 | `bind` binds it at the cursor |
| LegacyAsm.Assembler.ResolveBackpatches | src/asm.h:116-131 | nothing for no patches or an unbound label; otherwise each field gets the displacement, the length is kept and the list cleared |
| LegacyAsm.Assembler.WritePatches | src/asm.h:120-129 | the loop writes the patches in order |
| LegacyAsm.Assembler.WriteNext | src/asm.h:120-129 | one more turn of the loop |
| LegacyAsm.Assembler.WritePatch | src/asm.h:121-128 | one turn writes the displacement as `int8_t` or `int32_t` over its field |
| LegacyAsm.Assembler.Finalize | src/asm.h:282-288 | `finalize` applies every label's writes, in order, and drops the labels |
| LegacyJit.Epilogue | src/jit.cc:42-47 | the epilogue appends to the buffer and keeps the labels |
| LegacyJit.Prologue | src/jit.cc:29-40 | the prologue appends to the buffer and changes no label |
| LegacyJit.PutAll | src/jit.cc:29-47 | `Put` of each of a list of plain instructions, in order, keeps the labels |
| LegacyJit.PrologueAll | src/jit.cc:29-40 | the older draft's prologue is `PutAll` of the current draft's first ten prologue instructions |
| LegacyJit.EpilogueAll | src/jit.cc:42-47 | the older draft's epilogue is `PutAll` of the current draft's four epilogue instructions |
| LegacyJit.DraftsAgree | src/jit.cc:29-47 | the older draft's prologue is `Put` of the current draft's first ten prologue instructions in order, and the current draft's eleventh is `dec rdi`; the older draft's epilogue is `Put` of the current draft's epilogue instructions in order |
| LegacyJit.Step | src/jit.cc:53-79 | one character adds two labels for `[`, moves the stack by its depth change, only appends, and leaves labels and stack alone otherwise |
| LegacyJit.Run | src/jit.cc:53-79 | after the text, the stack's depth is `#'[' - #']'`, two labels per `[`, and the old bytes a prefix |
| LegacyJit.NewBranch | src/jit.cc:12 | `Branch{cc}` makes two labels, `begin` first |
| LegacyJit.Start | src/jit.cc:14-18 | `start` binds `begin`, then `cmp byte [rsp], 0` and `je end` |
| LegacyJit.Close | src/jit.cc:20-23 | `close` emits `jmp begin`, then binds `end` |
| LegacyJit.GenPrologue | src/jit.cc:29-40 | the prologue's ten instructions |
| LegacyJit.GenEpilogue | src/jit.cc:42-47 | `mov rsp, rbp; pop rdi; pop rbp; ret` |
| LegacyJit.RunSnoc | src/jit.cc:53-79 | `Run` one character further is `Step` |
| LegacyJit.CompileChar | src/jit.cc:54-78 | the `switch` leaves the state `Step` gives |
| LegacyJit.OpenBranch | src/jit.cc:61-63 | `[` leaves the state `Opened` gives |
| LegacyJit.CloseBranch | src/jit.cc:64-67 | `]` leaves the state `Closed` gives |
| LegacyJit.Compile | src/jit.cc:49-82 | `compile` leaves the prologue, `Run` of the text and the epilogue |
| LegacyJit.CompileBody | src/jit.cc:53-79 | the loop leaves `Run` of the text |
| LegacyJit.HeadEncoding | src/jit.cc:16-17 | `cmp byte [rsp], 0` and the `je` opcode are `80 3C 24 00 0F 84` |
| LegacyJit.GrowKeeps | src/jit.cc:53-79 | appending bytes keeps the translator's invariant |
| LegacyJit.GrowLoop | src/jit.cc:53-79 | an unchanged loop stays as it was when bytes are appended |
| LegacyJit.PrologueInv | src/jit.cc:51 | the invariant holds after the prologue |
| LegacyJit.StepOpen | src/jit.cc:61-63 | the `[` step is `Opened` |
| LegacyJit.OpenShape | src/jit.cc:61-63 | `[` adds the `cmp` and a zero-field `je`, binds `begin` and gives `end` the je's patch |
| LegacyJit.OpenRecorded | src/jit.cc:61-63 | `[` keeps the assembler's invariant |
| LegacyJit.OpenJcc | src/jit.cc:17 | the `je` to a fresh label records its field |
| LegacyJit.OpenKeeps | src/jit.cc:61-63 | `[` keeps the translator's invariant |
| LegacyJit.OpenInv | src/jit.cc:61-63 | the invariant after `[` |
| LegacyJit.OpenOrdered | src/jit.cc:61-63 | a new loop starts after every earlier loop's `je` |
| LegacyJit.PopMember | src/jit.cc:66 | popping removes exactly the top frame |
| LegacyJit.StepClose | src/jit.cc:64-67 | the `]` step is `Closed` |
| LegacyJit.CloseShape | src/jit.cc:64-67 | `]` adds a `jmp` back to `begin` and binds `end` right after it |
| LegacyJit.CloseRecorded | src/jit.cc:64-67 | `]` keeps the assembler's invariant |
| LegacyJit.CloseKeeps | src/jit.cc:64-67 | `]` keeps the translator's invariant |
| LegacyJit.CloseInv | src/jit.cc:64-67 | the invariant after `]` |
| LegacyJit.CloseLoop | src/jit.cc:64-67 | the loop `]` closes is closed after it |
| LegacyJit.CloseOrdered | src/jit.cc:64-67 | closing keeps later loops inside or after earlier ones |
| LegacyJit.StepKeeps | src/jit.cc:53-79 | every character keeps the invariant |
| LegacyJit.RunKeeps | src/jit.cc:53-79 | every program keeps the invariant |
| LegacyJit.CompiledInv | src/jit.cc:49-82 | `compile` in a fresh assembler keeps the invariant, one frame per unclosed `[` |
| LegacyJit.RunEpilogueInv | src/jit.cc:53-81 | the loop and the epilogue keep the invariant |
| LegacyJit.Finalized | src/asm.h:282-288 | the finalized code has the compiled length |
| LegacyJit.PatchesOf | src/jit.cc:14-23 | a loop's `begin` has no patches and its `end` the `je` |
| LegacyJit.OutsideFields | src/asm.h:116-131 | a byte outside every closed loop's `je` field is untouched by `finalize` |
| LegacyJit.HeadTailOutside | src/jit.cc:14-23 | the bytes of a closed loop's head and `jmp` lie outside every `je` field |
| LegacyJit.ClosedUntouched | src/jit.cc:14-23 | a closed loop has its head and tail, and no patch writes over them |
| LegacyJit.HeadKept | src/jit.cc:16-17 | the finalized head is still the `cmp` and the `je` opcode |
| LegacyJit.HeadSide | src/jit.cc:14-18 | the finalized head of a closed loop: the `cmp`, then a `je` landing on `end` |
| LegacyJit.TailSide | src/jit.cc:20-23 | the finalized tail: a `jmp` landing on `begin` |
| LegacyJit.HeadLands | src/jit.cc:14-18 | the finalized head of a closed loop of the translator's state |
| LegacyJit.TailLands | src/jit.cc:20-23 | the finalized tail of a closed loop of the translator's state |
| LegacyJit.JeField | src/jit.cc:17 | the `je` field of a loop whose `end` is bound lands on `end` |
| LegacyJit.JeFrom | src/asm.h:121-125 | a `je` field holding the resolved displacement lands on its label |
| LegacyJit.TailKept | src/jit.cc:21 | the finalized `jmp` keeps its inline displacement back to `begin` |
| LegacyJit.JmpField | src/asm.h:165 | a `jmp` field holding the displacement lands on `begin` |
| LegacyJit.LoopsLand | src/jit.cc:49-82 | in the finalized code of a balanced program every loop's `je` lands right after its `jmp` and its `jmp` on its `cmp` |
| LegacyJit.Opened | src/jit.cc:61-63 | `[` pushes a frame naming two new labels, appends the 10 bytes of the `cmp` and the `je`, and binds `begin` at the old cursor |
| LegacyJit.Closed | src/jit.cc:64-67 | `]` pops the top frame, appends the 5-byte `jmp` and binds that frame's `end` right after it |
| LegacyJit.Compiled | src/jit.cc:49-82 | `compile` in a fresh assembler leaves two labels per `[` |
| LegacyJit.Execute | src/jit.cc:86-93 | `execute`'s fresh emitter and assembler, `compile` and `finalize()` give the finalized program |

## Left out

- I/O and process control are not modelled: the command line, the file reading, printing and exiting in `src/main.cc`, `src/util.h` and `src/util/print.h`.
- Running the code is not modelled: `VirtualAlloc`, the copy into executable memory, the call into it and `VirtualFree` (`bfcomp::execute` and `jit_execute`). Their compile-and-finalize part is `LegacyJit.Execute` and `Driver.Compile`.
- The address of `std::putchar` is a parameter, `func`, of `Jit.JitCompile` and `Driver.Compile`.
- The run-time meaning of the emitted instructions is not modelled: no CPU, tape or output. The model stops at the byte stream and where its branches land.
- Inheritance becomes composition. `X86Assembler` holds its `DataBuffer` as `buf`, and the fields of `BaseAssembler` are its own.
- The label arena is a sequence of label values and a `Label*` is a position in it. `Label::bind` is therefore a functional update of one entry (`Labels.Bind`, `LegacyAsm.Bind`), not a mutation through a pointer.
- Deleting labels is not modelled. `m_labels.clear()` in the older `finalize()` resets the sequence.
- `emit` takes a byte count with the value instead of a C++ type, and `to_bytes` is the little-endian bytes of the value modulo 256^n. Types other than integers are never emitted.
- X86Asm.X86Assembler.BindLabel: requires the label to be unbound. The source does not check this, and a second bind would move a label that earlier branches were already resolved against, so the assembler's invariant could not be kept.
- X86Asm.X86Assembler.Backpatch: the `std::unreachable()` branch for a size other than 1, 2 or 4 becomes a precondition that every patch has one of those sizes and fits the buffer.
- LegacyAsm.Assembler.ResolveBackpatches: likewise, sizes other than 1 or 4 and fields outside the buffer are excluded by precondition.
- LegacyAsm.PatchLands: only the 4-byte fields the older draft's branches record are shown to land. The 1-byte form, which no caller uses, is only written.
- Jit.JitCompile: `]` with no open loop (`back()` of an empty vector) is excluded by the precondition `NoUnderflow`. The same holds for LegacyJit.Compile.
- LegacyJit.Prologue: states only that the prologue appends and keeps the labels, not its 28-byte length or its bytes. Its body is the ten `Put`s of `gen_prologue`, and `LegacyJit.GenPrologue` is proved to leave exactly that state. `LegacyJit.DraftsAgree` ties those `Put`s to the current draft's prologue instructions.
- Jit.GenPrologue: the prologue's bytes are given as its instruction list (`JitSpec.PrologueOps`). No lemma states the bytes they encode to.
- X86.Encodable: for push, pop, `call reg` and the byte-memory forms, the current draft emits no REX.B or SIB byte, so those forms are exact only for some registers. The round-trip lemmas say which; every register the translators use is among them.
- Several methods have no function of their own in the source. `LegacyAsm.Assembler.EmitU8`, `EmitRexB`, `EmitSib`, `WritePatches` and `WriteNext` split up straight-line code and loops of `src/asm.h`. `Jit.CompileChar`, `Jit.CompileLoop`, `LegacyJit.CompileChar`, `CompileBody`, `OpenBranch` and `CloseBranch` split up the translators' loop and `switch`. `X86Asm.X86Assembler.Record` is ghost bookkeeping. Each does the same thing in the same order as the code it stands for.
