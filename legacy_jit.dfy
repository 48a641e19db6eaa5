/** The older draft's translator (`compile` in src/jit.cc): the tape pointer
    is `rsp`, the tape is 512 bytes of the stack cleared by the prologue,
    each loop is a `Branch` of two labels, and `.` and `,` become `int3`.
    `Step` and `Run` give what the assembler holds after each character; the
    methods are proved against them, and the lemmas show that in the
    finalized code of a balanced program every loop's `je` lands right after
    its `jmp` and the `jmp` lands back on its `cmp`. */
module LegacyJit {
  import opened Bytes
  import opened X86
  import opened Emit
  import opened LegacyAsm
  import CodeLayout
  import JitSpec
  import Landing

  /** The translator's state between characters: the assembler and
      `branch_stack`, innermost loop last. */
  datatype Compiling = Compiling(asm: Asm, stack: seq<JitSpec.Branch>)

  /** Every frame on the stack names two labels the assembler owns. */
  predicate StackIn(c: Compiling)
  {
    forall i :: 0 <= i < |c.stack| ==> c.stack[i].begin < |c.asm.labels| && c.stack[i].end < |c.asm.labels|
  }

  /** `gen_prologue`: save `rbp` and `rdi`, make `rbp` the frame pointer,
      reserve 512 bytes of tape below it and clear them with `repne stosb`
      from `rdi = rsp`, `rcx = 512`, `al = 0`; no label changes. */
  function Prologue(a: Asm): (r: Asm)
    ensures r.labels == a.labels && |r.data| >= |a.data| && r.data[..|a.data|] == a.data
  {
    ChainKeeps(a);
    PrologueChain(a)
  }

  /** Its ten `Put`s, in the order `gen_prologue` emits them. */
  function PrologueChain(a: Asm): Asm
  {
    var a5 := Put(Put(Put(Put(Put(a, Push(Rbp)), Push(Rdi)), MovRR(Rbp, Rsp)),
      SubRI32(Rsp, JitSpec.StackReserve)), MovRI32(Rcx, JitSpec.StackReserve));
    Put(Put(Put(Put(Put(a5, MovRR(Rdi, Rsp)), XorRR(Rax, Rax)), Cld), RawPrefix(Repne)), Stosb)
  }

  /** The ten `Put`s append and keep the labels. */
  lemma ChainKeeps(a: Asm)
    ensures var r := PrologueChain(a); r.labels == a.labels && |r.data| >= |a.data| && r.data[..|a.data|] == a.data
  {
    var a1 := Put(a, Push(Rbp));
    var a2 := Put(a1, Push(Rdi));
    var a3 := Put(a2, MovRR(Rbp, Rsp));
    var a4 := Put(a3, SubRI32(Rsp, JitSpec.StackReserve));
    var a5 := Put(a4, MovRI32(Rcx, JitSpec.StackReserve));
    PutsKeep(a, a1, a2, a3, a4, a5);
    var a6 := Put(a5, MovRR(Rdi, Rsp));
    var a7 := Put(a6, XorRR(Rax, Rax));
    var a8 := Put(a7, Cld);
    var a9 := Put(a8, RawPrefix(Repne));
    var a10 := Put(a9, Stosb);
    PutsKeep(a5, a6, a7, a8, a9, a10);
    PutsKeep(a, a, a, a, a5, a10);
  }

  /** Five states in a row, each's bytes extending the last's with the
      labels kept: the last extends the first. */
  lemma PutsKeep(a0: Asm, a1: Asm, a2: Asm, a3: Asm, a4: Asm, a5: Asm)
    requires a1.labels == a0.labels && |a1.data| >= |a0.data| && a1.data[..|a0.data|] == a0.data
    requires a2.labels == a1.labels && |a2.data| >= |a1.data| && a2.data[..|a1.data|] == a1.data
    requires a3.labels == a2.labels && |a3.data| >= |a2.data| && a3.data[..|a2.data|] == a2.data
    requires a4.labels == a3.labels && |a4.data| >= |a3.data| && a4.data[..|a3.data|] == a3.data
    requires a5.labels == a4.labels && |a5.data| >= |a4.data| && a5.data[..|a4.data|] == a4.data
    ensures a5.labels == a0.labels && a5.data[..|a0.data|] == a0.data
  {
    assert a5.data[..|a0.data|] == a4.data[..|a0.data|] == a3.data[..|a0.data|] == a2.data[..|a0.data|] == a1.data[..|a0.data|];
  }

  /** `gen_epilogue`: drop the tape, restore `rdi` and `rbp`, return. */
  function Epilogue(a: Asm): (r: Asm)
    ensures r.labels == a.labels && |r.data| >= |a.data| && r.data[..|a.data|] == a.data
  {
    Put(Put(Put(Put(a, MovRR(Rsp, Rbp)), Pop(Rdi)), Pop(Rbp)), Ret(0))
  }

  /** `Put` of each instruction of `ops` in turn: what the emitters the
      current draft lists as `ops` do in the older draft's assembler. */
  function PutAll(a: Asm, ops: seq<CodeLayout.Op>): (r: Asm)
    requires JitSpec.AllPlain(ops)
    ensures r.labels == a.labels
    decreases |ops|
  {
    if ops == [] then a
    else
      assert JitSpec.AllPlain(ops[..|ops| - 1]);
      Put(PutAll(a, ops[..|ops| - 1]), ops[|ops| - 1].instr)
  }

  /** One more instruction of `ops` is one more `Put`. */
  lemma PutAllStep(a: Asm, ops: seq<CodeLayout.Op>, k: nat)
    requires JitSpec.AllPlain(ops) && k < |ops|
    ensures JitSpec.AllPlain(ops[..k]) && JitSpec.AllPlain(ops[..k + 1])
    ensures PutAll(a, ops[..k + 1]) == Put(PutAll(a, ops[..k]), ops[k].instr)
    ensures PutAll(a, ops[..0]) == a
  {
    assert ops[..k + 1][..k] == ops[..k];
    assert ops[..0] == [];
  }

  /** Four more instructions of `ops` are four more `Put`s. */
  lemma PutAll4(a: Asm, ops: seq<CodeLayout.Op>, k: nat, i0: Instr, i1: Instr, i2: Instr, i3: Instr)
    requires JitSpec.AllPlain(ops) && k + 4 <= |ops|
    requires ops[k] == CodeLayout.Plain(i0) && ops[k + 1] == CodeLayout.Plain(i1)
    requires ops[k + 2] == CodeLayout.Plain(i2) && ops[k + 3] == CodeLayout.Plain(i3)
    ensures JitSpec.AllPlain(ops[..k]) && JitSpec.AllPlain(ops[..k + 4])
    ensures PutAll(a, ops[..k + 4]) == Put(Put(Put(Put(PutAll(a, ops[..k]), i0), i1), i2), i3)
  {
    PutAllStep(a, ops, k);
    PutAllStep(a, ops, k + 1);
    PutAllStep(a, ops, k + 2);
    PutAllStep(a, ops, k + 3);
  }

  /** Five more instructions of `ops` are five more `Put`s. */
  lemma PutAll5(a: Asm, ops: seq<CodeLayout.Op>, k: nat, i0: Instr, i1: Instr, i2: Instr, i3: Instr, i4: Instr)
    requires JitSpec.AllPlain(ops) && k + 5 <= |ops|
    requires ops[k] == CodeLayout.Plain(i0) && ops[k + 1] == CodeLayout.Plain(i1)
    requires ops[k + 2] == CodeLayout.Plain(i2) && ops[k + 3] == CodeLayout.Plain(i3)
    requires ops[k + 4] == CodeLayout.Plain(i4)
    ensures JitSpec.AllPlain(ops[..k]) && JitSpec.AllPlain(ops[..k + 5])
    ensures PutAll(a, ops[..k + 5]) == Put(Put(Put(Put(Put(PutAll(a, ops[..k]), i0), i1), i2), i3), i4)
  {
    PutAll4(a, ops, k, i0, i1, i2, i3);
    PutAllStep(a, ops, k + 4);
  }

  /** The older draft's prologue is the current draft's without its last
      instruction. */
  lemma PrologueAll(a: Asm)
    ensures JitSpec.AllPlain(JitSpec.PrologueOps()[..10])
    ensures Prologue(a) == PutAll(a, JitSpec.PrologueOps()[..10])
  {
    PrologueFold(a);
  }

  lemma PrologueFold(a: Asm)
    ensures JitSpec.AllPlain(JitSpec.PrologueOps()[..10])
    ensures PutAll(a, JitSpec.PrologueOps()[..10]) == PrologueChain(a)
  {
    var p := JitSpec.PrologueOps();
    PrologueAt();
    PutAll5(a, p, 0, Push(Rbp), Push(Rdi), MovRR(Rbp, Rsp), SubRI32(Rsp, JitSpec.StackReserve), MovRI32(Rcx, JitSpec.StackReserve));
    PutAll5(a, p, 5, MovRR(Rdi, Rsp), XorRR(Rax, Rax), Cld, RawPrefix(Repne), Stosb);
  }

  /** The current draft's prologue, instruction by instruction. */
  lemma PrologueAt()
    ensures var p := JitSpec.PrologueOps();
      |p| == 11 && p[0] == CodeLayout.Plain(Push(Rbp)) && p[1] == CodeLayout.Plain(Push(Rdi)) &&
      p[2] == CodeLayout.Plain(MovRR(Rbp, Rsp)) && p[3] == CodeLayout.Plain(SubRI32(Rsp, JitSpec.StackReserve)) &&
      p[4] == CodeLayout.Plain(MovRI32(Rcx, JitSpec.StackReserve)) && p[5] == CodeLayout.Plain(MovRR(Rdi, Rsp)) &&
      p[6] == CodeLayout.Plain(XorRR(Rax, Rax)) && p[7] == CodeLayout.Plain(Cld) &&
      p[8] == CodeLayout.Plain(RawPrefix(Repne)) && p[9] == CodeLayout.Plain(Stosb) && p[10] == CodeLayout.Plain(DecR(Rdi))
  {
  }

  /** The older draft's epilogue is the current draft's. */
  lemma EpilogueAll(a: Asm)
    ensures Epilogue(a) == PutAll(a, JitSpec.EpilogueOps())
  {
    var e := JitSpec.EpilogueOps();
    assert e[..4] == e;
    PutAll4(a, e, 0, MovRR(Rsp, Rbp), Pop(Rdi), Pop(Rbp), Ret(0));
  }

  /** The two drafts' prologues agree except that the current one then
      points `rdi` at the tape (`dec rdi`), where the older one keeps the
      tape pointer in `rsp`; the epilogues agree outright. So what
      `JitSpec.PrologueEpilogueMirror` says of the current draft's
      instructions holds of the older draft's too. */
  lemma DraftsAgree(a: Asm)
    ensures JitSpec.AllPlain(JitSpec.PrologueOps()[..10])
    ensures Prologue(a) == PutAll(a, JitSpec.PrologueOps()[..10])
    ensures JitSpec.PrologueOps()[10..] == [CodeLayout.Plain(DecR(Rdi))]
    ensures Epilogue(a) == PutAll(a, JitSpec.EpilogueOps())
  {
    PrologueAll(a);
    EpilogueAll(a);
  }

  /** `Branch::start`: bind `begin` here, `cmp byte [rsp], 0`, `je end`. */
  function StartAt(a: Asm, b: JitSpec.Branch): Asm
    requires b.begin < |a.labels| && b.end < |a.labels|
  {
    PutJcc(Put(PutBind(a, b.begin), CmpMI8(Rsp, 0)), Equal, b.end)
  }

  /** `Branch::close`: `jmp begin`, then bind `end` here. */
  function CloseAt(a: Asm, b: JitSpec.Branch): Asm
    requires b.begin < |a.labels| && b.end < |a.labels|
  {
    PutBind(PutJmp(a, b.begin), b.end)
  }

  /** What one character of the program adds: `>` and `<` move `rsp`, `+`
      and `-` change the byte at `[rsp]`, `.` and `,` become `int3`, `[`
      creates a `Branch` (two new labels), starts it and pushes it, `]` closes
      the innermost one and pops it; any other character adds nothing. */
  function Step(c: Compiling, ch: char): (r: Compiling)
    requires StackIn(c) && (ch == ']' ==> |c.stack| > 0)
    ensures StackIn(r) && |r.stack| == |c.stack| + JitSpec.Delta(ch)
    ensures |r.asm.labels| == |c.asm.labels| + (if ch == '[' then 2 else 0)
    ensures |r.asm.data| >= |c.asm.data| && r.asm.data[..|c.asm.data|] == c.asm.data
    ensures ch != '[' && ch != ']' ==> r.asm.labels == c.asm.labels && r.stack == c.stack
  {
    var a := c.asm;
    match ch
    case '>' => c.(asm := Put(a, IncR(Rsp)))
    case '<' => c.(asm := Put(a, DecR(Rsp)))
    case '+' => c.(asm := Put(a, IncM8(Rsp)))
    case '-' => c.(asm := Put(a, DecM8(Rsp)))
    case '.' => c.(asm := Put(a, Int3))
    case ',' => c.(asm := Put(a, Int3))
    case '[' => Opened(c)
    case ']' => Closed(c)
    case _ => c
  }

  /** What `[` leaves: a new `Branch` of two new labels, started and
      pushed; its `begin` is bound at the 10 bytes of `cmp` and `je` it
      appends. */
  function Opened(c: Compiling): (r: Compiling)
    requires StackIn(c)
    ensures r.stack == c.stack + [JitSpec.Branch(|c.asm.labels|, |c.asm.labels| + 1)]
    ensures |r.asm.labels| == |c.asm.labels| + 2
    ensures |r.asm.data| == |c.asm.data| + 10 && r.asm.data[..|c.asm.data|] == c.asm.data
    ensures r.asm.labels[|c.asm.labels|].bound && r.asm.labels[|c.asm.labels|].rip == |c.asm.data|
  {
    var L := |c.asm.labels|;
    var b := JitSpec.Branch(L, L + 1);
    Compiling(StartAt(PutLabel(PutLabel(c.asm)), b), c.stack + [b])
  }

  /** What `]` leaves: the innermost `Branch` closed and popped, its `end`
      bound right after the 5-byte `jmp` it appends. */
  function Closed(c: Compiling): (r: Compiling)
    requires StackIn(c) && |c.stack| > 0
    ensures r.stack == c.stack[..|c.stack| - 1] && |r.asm.labels| == |c.asm.labels|
    ensures |r.asm.data| == |c.asm.data| + 5 && r.asm.data[..|c.asm.data|] == c.asm.data
    ensures var e := c.stack[|c.stack| - 1].end; r.asm.labels[e].bound && r.asm.labels[e].rip == |r.asm.data|
  {
    var b := c.stack[|c.stack| - 1];
    Compiling(CloseAt(c.asm, b), c.stack[..|c.stack| - 1])
  }

  /** The state after the characters of `code`, one after the other. */
  function Run(code: string, c: Compiling): (r: Compiling)
    requires StackIn(c) && JitSpec.NoUnderflow(code, |c.stack|)
    ensures StackIn(r) && |r.stack| == |c.stack| + JitSpec.Depth(code)
    ensures |r.asm.labels| == |c.asm.labels| + 2 * JitSpec.Opens(code)
    ensures |r.asm.data| >= |c.asm.data| && r.asm.data[..|c.asm.data|] == c.asm.data
    decreases |code|
  {
    if code == [] then c
    else
      var c' := Run(code[..|code| - 1], c);
      Step(c', code[|code| - 1])
  }

  /** Everything `compile` leaves in a fresh assembler: two labels per `[`. */
  function Compiled(source: string): (r: Asm)
    requires JitSpec.NoUnderflow(source, 0)
    ensures |r.labels| == 2 * JitSpec.Opens(source)
  {
    Epilogue(Run(source, Compiling(Prologue(Asm([], [])), [])).asm)
  }

  /** `Branch{cc}`: the constructor takes two labels, `begin` first. */
  method NewBranch(cc: Assembler) returns (b: JitSpec.Branch)
    requires cc.Valid()
    modifies cc
    ensures b == JitSpec.Branch(|old(cc.labels)|, |old(cc.labels)| + 1)
    ensures cc.State() == PutLabel(PutLabel(old(cc.State()))) && cc.Valid()
  {
    var begin := cc.CreateLabel();
    var end := cc.CreateLabel();
    b := JitSpec.Branch(begin, end);
  }

  /** `Branch::start(cc)`. */
  method Start(cc: Assembler, b: JitSpec.Branch)
    requires cc.Valid() && b.begin < |cc.labels| && b.end < |cc.labels|
    modifies cc, cc.emitter
    ensures cc.State() == StartAt(old(cc.State()), b) && cc.Valid()
  {
    cc.BindLabel(b.begin);
    cc.EmitCmpMI8(Rsp, 0);
    cc.EmitJcc(Equal, b.end);
  }

  /** `Branch::close(cc)`. */
  method Close(cc: Assembler, b: JitSpec.Branch)
    requires cc.Valid() && b.begin < |cc.labels| && b.end < |cc.labels|
    modifies cc, cc.emitter
    ensures cc.State() == CloseAt(old(cc.State()), b) && cc.Valid()
  {
    cc.EmitJmp(b.begin);
    cc.BindLabel(b.end);
  }

  /** `gen_prologue(cc)`. */
  method GenPrologue(cc: Assembler)
    requires cc.Valid()
    modifies cc.emitter
    ensures cc.State() == Prologue(old(cc.State())) && cc.Valid()
  {
    cc.EmitPush(Rbp);
    cc.EmitPush(Rdi);
    cc.EmitMovRR(Rbp, Rsp);
    cc.EmitSubRI32(Rsp, JitSpec.StackReserve);
    cc.EmitMovRI32(Rcx, JitSpec.StackReserve);
    cc.EmitMovRR(Rdi, Rsp);
    cc.EmitXorRR(Rax, Rax);
    cc.EmitCld();
    cc.EmitPrefix(Repne);
    cc.EmitStosb();
  }

  /** `gen_epilogue(cc)`. */
  method GenEpilogue(cc: Assembler)
    requires cc.Valid()
    modifies cc.emitter
    ensures cc.State() == Epilogue(old(cc.State())) && cc.Valid()
  {
    cc.EmitMovRR(Rsp, Rbp);
    cc.EmitPop(Rdi);
    cc.EmitPop(Rbp);
    cc.EmitRet(0);
  }

  /** `Run` one character further. */
  lemma RunSnoc(code: string, i: nat, c: Compiling)
    requires i < |code| && StackIn(c) && JitSpec.NoUnderflow(code[..i + 1], |c.stack|)
    ensures JitSpec.NoUnderflow(code[..i], |c.stack|)
    ensures var r := Run(code[..i], c); StackIn(r) && (code[i] == ']' ==> |r.stack| > 0)
    ensures Run(code[..i + 1], c) == Step(Run(code[..i], c), code[i])
  {
    assert code[..i + 1][..i] == code[..i] && code[..i + 1][i] == code[i];
  }

  /** One turn of `compile`'s `switch`. */
  method CompileChar(cc: Assembler, ch: char, branchStack: seq<JitSpec.Branch>) returns (stack: seq<JitSpec.Branch>)
    requires cc.Valid() && StackIn(Compiling(cc.State(), branchStack)) && (ch == ']' ==> |branchStack| > 0)
    modifies cc, cc.emitter
    ensures Compiling(cc.State(), stack) == Step(Compiling(old(cc.State()), branchStack), ch) && cc.Valid()
  {
    stack := branchStack;
    if ch == '>' {
      cc.EmitIncR(Rsp);
    } else if ch == '<' {
      cc.EmitDecR(Rsp);
    } else if ch == '[' {
      StepOpen(Compiling(cc.State(), stack));
      stack := OpenBranch(cc, stack);
    } else if ch == ']' {
      StepClose(Compiling(cc.State(), stack));
      stack := CloseBranch(cc, stack);
    } else if ch == '+' {
      cc.EmitIncRM8(Rsp);
    } else if ch == '-' {
      cc.EmitDecRM8(Rsp);
    } else if ch == '.' || ch == ',' {
      cc.EmitInt3();
    }
  }

  /** The `[` case of `compile`: a new `Branch`, started and pushed. */
  method OpenBranch(cc: Assembler, branchStack: seq<JitSpec.Branch>) returns (stack: seq<JitSpec.Branch>)
    requires cc.Valid() && StackIn(Compiling(cc.State(), branchStack))
    modifies cc, cc.emitter
    ensures Compiling(cc.State(), stack) == Opened(Compiling(old(cc.State()), branchStack)) && cc.Valid()
  {
    var b := NewBranch(cc);
    Start(cc, b);
    stack := branchStack + [b];
  }

  /** The `]` case of `compile`: the innermost `Branch` closed and popped. */
  method CloseBranch(cc: Assembler, branchStack: seq<JitSpec.Branch>) returns (stack: seq<JitSpec.Branch>)
    requires cc.Valid() && StackIn(Compiling(cc.State(), branchStack)) && |branchStack| > 0
    modifies cc, cc.emitter
    ensures Compiling(cc.State(), stack) == Closed(Compiling(old(cc.State()), branchStack)) && cc.Valid()
  {
    var b := branchStack[|branchStack| - 1];
    Close(cc, b);
    stack := branchStack[..|branchStack| - 1];
  }

  /** `compile(cc, code)`: the prologue, the characters, the epilogue.
      `back()` on an empty vector is undefined, so no `]` may find the
      stack empty. */
  method Compile(cc: Assembler, code: string)
    requires cc.Valid() && JitSpec.NoUnderflow(code, 0)
    modifies cc, cc.emitter
    ensures cc.State() == Epilogue(Run(code, Compiling(Prologue(old(cc.State())), [])).asm) && cc.Valid()
  {
    GenPrologue(cc);
    var branchStack := CompileBody(cc, code);
    GenEpilogue(cc);
  }

  /** The `for` loop of `compile`: one `Step` per character, with
      `branch_stack` as the stack. */
  method CompileBody(cc: Assembler, code: string) returns (branchStack: seq<JitSpec.Branch>)
    requires cc.Valid() && JitSpec.NoUnderflow(code, 0)
    modifies cc, cc.emitter
    ensures Compiling(cc.State(), branchStack) == Run(code, Compiling(old(cc.State()), [])) && cc.Valid()
  {
    branchStack := [];
    ghost var c0 := Compiling(cc.State(), []);
    var i := 0;
    while i < |code|
      invariant i <= |code| && cc.Valid() && JitSpec.NoUnderflow(code[..i], 0)
      invariant Compiling(cc.State(), branchStack) == Run(code[..i], c0)
    {
      JitSpec.NoUnderflowPrefix(code, 0, i + 1);
      RunSnoc(code, i, c0);
      branchStack := CompileChar(cc, code[i], branchStack);
      i := i + 1;
    }
    assert code[..i] == code;
  }

  // Where the loops are. Loop `k` owns labels `2k` (`begin`) and `2k + 1`
  // (`end`) of a fresh assembler.

  /** `cmp byte [rsp], 0` and the two opcode bytes of `je`. */
  const HeadCode: seq<byte> := [0x80, 0x3C, 0x24, 0x00, 0x0F, 0x84]

  lemma HeadEncoding()
    ensures LegacyEncode(CmpMI8(Rsp, 0)) + [0x0F, 0x80 + CondCode(Equal)] == HeadCode
  {
    ShiftValues(0);
    ShiftValues(7);
    SibForStackPointer();
    assert MakeModRM(0, 7, 4) == 0x3C;
    assert LegacyEncode(CmpMI8(Rsp, 0)) == [0x80, 0x3C, 0x24] + ToBytes(0, 1);
  }

  function Begin(labels: seq<Label>, k: nat): Label
    requires 2 * k + 1 < |labels|
  {
    labels[2 * k]
  }

  function End(labels: seq<Label>, k: nat): Label
    requires 2 * k + 1 < |labels|
  {
    labels[2 * k + 1]
  }

  /** Loop `k` has started: `begin` is bound at `h`, never patched, and the
      loop's first ten bytes are the `cmp` and a `je` whose rel32 field is
      the one patch of `end`. */
  predicate HeadAt(a: Asm, k: nat)
    requires 2 * k + 1 < |a.labels|
  {
    var h := Begin(a.labels, k).rip;
    Begin(a.labels, k).bound && Begin(a.labels, k).patches == [] && h + 10 <= |a.data| &&
    a.data[h..h + 6] == HeadCode && End(a.labels, k).patches == [BackPatch(h + 4, 4, 6, 2)]
  }

  /** Loop `k` has closed: `end` is bound right after a `jmp` that ends at
      least five bytes after the `je` and whose rel32 field holds the
      displacement back to `begin`. */
  predicate TailAt(a: Asm, k: nat)
    requires 2 * k + 1 < |a.labels|
  {
    var h, e := Begin(a.labels, k).rip, End(a.labels, k).rip;
    End(a.labels, k).bound && h + 15 <= e <= |a.data| &&
    a.data[e - 5] == 0xE9 && a.data[e - 4..e] == PatchBytes(BackPatch(e - 5, 4, 5, 1), Begin(a.labels, k))
  }

  /** Loop `k` is still on `branch_stack`. */
  predicate Open(c: Compiling, k: nat)
  {
    JitSpec.Branch(2 * k, 2 * k + 1) in c.stack
  }

  /** Loop `k` has started, and is open with `end` unbound, or closed. */
  predicate LoopOk(c: Compiling, k: nat)
    requires 2 * k + 1 < |c.asm.labels|
  {
    HeadAt(c.asm, k) && if Open(c, k) then !End(c.asm.labels, k).bound else TailAt(c.asm, k)
  }

  /** A later loop `k'` starts after the `je` of loop `k`, and, once `k` is
      closed, lies wholly inside it (before its `jmp`) or after it. */
  predicate Ordered(labels: seq<Label>, k: nat, k': nat)
    requires 2 * k + 1 < |labels| && 2 * k' + 1 < |labels|
  {
    var h, h' := Begin(labels, k).rip, Begin(labels, k').rip;
    h + 10 <= h' && (End(labels, k).bound ==> h' + 10 <= End(labels, k).rip - 5 || End(labels, k).rip <= h')
  }

  /** The frames on the stack are loops, outermost first. */
  predicate Framed(c: Compiling)
  {
    (forall i :: 0 <= i < |c.stack| ==>
      c.stack[i].begin % 2 == 0 && c.stack[i].end == c.stack[i].begin + 1 && c.stack[i].end < |c.asm.labels|) &&
    (forall i, j :: 0 <= i < j < |c.stack| ==> c.stack[i].begin < c.stack[j].begin)
  }

  /** What `compile` keeps from the end of the prologue on, in a fresh
      assembler. */
  predicate Inv(c: Compiling)
  {
    |c.asm.labels| % 2 == 0 && WellRecorded(c.asm) && Framed(c) && LoopsOk(c) && AllOrdered(c.asm.labels)
  }

  predicate LoopsOk(c: Compiling)
  {
    forall k :: 0 <= k < |c.asm.labels| / 2 ==> LoopOk(c, k)
  }

  predicate AllOrdered(labels: seq<Label>)
  {
    forall k, k' :: 0 <= k < k' < |labels| / 2 ==> Ordered(labels, k, k')
  }

  lemma SliceOfPrefix(s: seq<byte>, n: nat, i: nat, j: nat)
    requires n <= |s| && i <= j <= n
    ensures s[..n][i..j] == s[i..j]
  {
  }

  /** Appending bytes keeps the invariant. */
  lemma GrowKeeps(c: Compiling, c': Compiling)
    requires Inv(c) && c'.asm.labels == c.asm.labels && c'.stack == c.stack
    requires |c'.asm.data| >= |c.asm.data| && c'.asm.data[..|c.asm.data|] == c.asm.data
    ensures Inv(c')
  {
    var a, a', n := c.asm, c'.asm, |c.asm.data|;
    RecordedGrow(a.labels, n, |a'.data|);
    forall k | 0 <= k < |a.labels| / 2
      ensures LoopOk(c', k)
    {
      GrowLoop(c, c', k);
    }
  }

  /** A loop whose labels and stack status are unchanged stays as it was
      when bytes are appended. */
  lemma GrowLoop(c: Compiling, c': Compiling, k: nat)
    requires 2 * k + 1 < |c.asm.labels| && 2 * k + 1 < |c'.asm.labels| && LoopOk(c, k)
    requires Begin(c'.asm.labels, k) == Begin(c.asm.labels, k) && End(c'.asm.labels, k) == End(c.asm.labels, k)
    requires Open(c', k) == Open(c, k)
    requires |c'.asm.data| >= |c.asm.data| && c'.asm.data[..|c.asm.data|] == c.asm.data
    ensures LoopOk(c', k)
  {
    var a, a', n := c.asm, c'.asm, |c.asm.data|;
    var h, e := Begin(a.labels, k).rip, End(a.labels, k).rip;
    SliceOfPrefix(a'.data, n, h, h + 6);
    if !Open(c, k) {
      SliceOfPrefix(a'.data, n, e - 4, e);
      assert a'.data[..n][e - 5] == a'.data[e - 5];
    }
  }

  /** The invariant holds once the prologue is emitted. */
  lemma PrologueInv()
    ensures Inv(Compiling(Prologue(Asm([], [])), []))
  {
  }

  /** What `[` leaves: ten more bytes (the `cmp` and a `je` with a zero
      field), two more labels, `begin` bound at the old cursor and `end`
      unbound with the `je`'s field as its one patch, and the new frame. */
  predicate OpenedFrom(c: Compiling, r: Compiling)
  {
    var L, n := |c.asm.labels|, |c.asm.data|;
    r.asm.data == c.asm.data + HeadCode + [0, 0, 0, 0] &&
    |r.asm.labels| == L + 2 && r.asm.labels[..L] == c.asm.labels &&
    r.asm.labels[L] == Label([], true, n) && r.asm.labels[L + 1] == Label([BackPatch(n + 4, 4, 6, 2)], false, 0) &&
    r.stack == c.stack + [JitSpec.Branch(L, L + 1)]
  }

  lemma StepOpen(c: Compiling)
    requires StackIn(c)
    ensures Step(c, '[') == Opened(c)
  {
    var r := Step(c, '[');
    assert r == Opened(c);
  }

  lemma OpenShape(c: Compiling)
    requires StackIn(c)
    ensures OpenedFrom(c, Opened(c))
  {
    OpenData(c.asm);
    OpenLabels(c.asm);
  }

  /** The bytes `[` appends: the `cmp`, the `je` opcode and a zero field. */
  lemma OpenData(a: Asm)
    ensures var L := |a.labels|;
      StartAt(PutLabel(PutLabel(a)), JitSpec.Branch(L, L + 1)).data == a.data + HeadCode + [0, 0, 0, 0]
  {
    var L := |a.labels|;
    var a1 := PutLabel(PutLabel(a));
    assert a1.labels[L + 1] == NewLabel();
    var e := LegacyEncode(CmpMI8(Rsp, 0));
    var a3 := Put(PutBind(a1, L), CmpMI8(Rsp, 0));
    assert a3.data == a.data + e;
    OpenJcc(a3, L + 1);
    assert 0x80 + CondCode(Equal) == 0x84;
    HeadEncoding();
    HeadRegroup(a.data, e);
  }

  lemma HeadRegroup(d: seq<byte>, e: seq<byte>)
    ensures d + e + [0x0F, 0x84, 0, 0, 0, 0] == d + (e + [0x0F, 0x84]) + [0, 0, 0, 0]
  {
  }

  /** The labels `[` leaves: `begin` bound where it starts, `end` with the
      `je` field as its one patch. */
  lemma OpenLabels(a: Asm)
    ensures var L, n := |a.labels|, |a.data|;
      var r := StartAt(PutLabel(PutLabel(a)), JitSpec.Branch(L, L + 1)).labels;
      |r| == L + 2 && r[..L] == a.labels &&
      r[L] == Label([], true, n) && r[L + 1] == Label([BackPatch(n + 4, 4, 6, 2)], false, 0)
  {
    var L, n := |a.labels|, |a.data|;
    var a1 := PutLabel(PutLabel(a));
    assert a1.labels == a.labels + [NewLabel(), NewLabel()];
    var a2 := PutBind(a1, L);
    assert a2.labels == a1.labels[L := Label([], true, n)];
    HeadEncoding();
    var a3 := Put(a2, CmpMI8(Rsp, 0));
    assert a3.labels == a2.labels && |a3.data| == n + 4;
    OpenJcc(a3, L + 1);
    var r := PutJcc(a3, Equal, L + 1).labels;
    assert r == a.labels + [Label([], true, n), Label([BackPatch(n + 4, 4, 6, 2)], false, 0)];
    assert r[..L] == a.labels;
  }

  /** `[` keeps the assembler's own invariant. */
  lemma OpenRecorded(c: Compiling)
    requires StackIn(c) && WellRecorded(c.asm)
    ensures WellRecorded(Opened(c).asm)
  {
    var a, L := c.asm, |c.asm.labels|;
    var a1 := PutLabel(PutLabel(a));
    PutLabelKeeps(a);
    PutLabelKeeps(PutLabel(a));
    var a2 := PutBind(a1, L);
    PutBindKeeps(a1, L);
    var a3 := Put(a2, CmpMI8(Rsp, 0));
    PutKeeps(a2, CmpMI8(Rsp, 0));
    PutJccKeeps(a3, Equal, L + 1);
  }

  /** The `je` of `[`, to a label with no patches yet. */
  lemma OpenJcc(a: Asm, l: nat)
    requires l < |a.labels| && a.labels[l] == NewLabel()
    ensures var r := PutJcc(a, Equal, l);
      r.data == a.data + [0x0F, 0x80 + CondCode(Equal), 0, 0, 0, 0] &&
      r.labels == a.labels[l := Label([BackPatch(|a.data|, 4, 6, 2)], false, 0)]
  {
    JccEncoding(Equal, 0);
    assert ToBytes(0, 4) == [0, 0, 0, 0];
    assert [] + [BackPatch(|a.data|, 4, 6, 2)] == [BackPatch(|a.data|, 4, 6, 2)];
  }

  /** `[` keeps the invariant. */
  lemma OpenKeeps(c: Compiling)
    requires Inv(c)
    ensures StackIn(c) && Inv(Step(c, '['))
  {
    StepOpen(c);
    OpenShape(c);
    OpenRecorded(c);
    OpenInv(c, Opened(c));
  }

  lemma OpenInv(c: Compiling, r: Compiling)
    requires Inv(c) && OpenedFrom(c, r) && WellRecorded(r.asm)
    ensures Inv(r)
  {
    var a, L, n := c.asm, |c.asm.labels|, |c.asm.data|;
    var K := L / 2;
    assert r.asm.data[..n] == a.data;
    forall k | 0 <= k < K
      ensures LoopOk(r, k)
    {
      assert r.asm.labels[2 * k] == r.asm.labels[..L][2 * k] && r.asm.labels[2 * k + 1] == r.asm.labels[..L][2 * k + 1];
      GrowLoop(c, r, k);
    }
    assert LoopOk(r, K);
    forall k, k' | 0 <= k < k' < K + 1
      ensures Ordered(r.asm.labels, k, k')
    {
      OpenOrdered(c, r, k, k');
    }
  }

  lemma OpenOrdered(c: Compiling, r: Compiling, k: nat, k': nat)
    requires Inv(c) && OpenedFrom(c, r) && k < k' <= |c.asm.labels| / 2
    ensures Ordered(r.asm.labels, k, k')
  {
    var a, L := c.asm, |c.asm.labels|;
    assert r.asm.labels[2 * k] == r.asm.labels[..L][2 * k] && r.asm.labels[2 * k + 1] == r.asm.labels[..L][2 * k + 1];
    assert LoopOk(c, k);
    if 2 * k' < L {
      assert r.asm.labels[2 * k'] == r.asm.labels[..L][2 * k'];
      assert Ordered(a.labels, k, k');
    }
  }

  /** Popping a stack whose frames are distinct removes exactly the top. */
  lemma PopMember(s: seq<JitSpec.Branch>, x: JitSpec.Branch)
    requires |s| > 0 && forall i, j :: 0 <= i < j < |s| ==> s[i].begin < s[j].begin
    ensures x in s[..|s| - 1] <==> x in s && x != s[|s| - 1]
  {
    if x in s && x != s[|s| - 1] {
      var i :| 0 <= i < |s| && s[i] == x;
      assert s[..|s| - 1][i] == x;
    }
  }

  /** What `]` leaves when the innermost loop is `t`: a `jmp` back to its
      `begin`, with the displacement in the field, `end` bound right after
      it, and the frame popped. */
  predicate ClosedFrom(c: Compiling, r: Compiling, t: nat)
    requires 2 * t + 1 < |c.asm.labels|
  {
    var n := |c.asm.data|;
    |c.stack| > 0 &&
    r.asm.data == c.asm.data + [0xE9] + PatchBytes(BackPatch(n, 4, 5, 1), Begin(c.asm.labels, t)) &&
    r.asm.labels == c.asm.labels[2 * t + 1 := Bind(End(c.asm.labels, t), n + 5)] &&
    r.stack == c.stack[..|c.stack| - 1]
  }

  lemma StepClose(c: Compiling)
    requires StackIn(c) && |c.stack| > 0
    ensures Step(c, ']') == Closed(c)
  {
  }

  lemma CloseShape(c: Compiling, t: nat)
    requires StackIn(c) && |c.stack| > 0 && c.stack[|c.stack| - 1] == JitSpec.Branch(2 * t, 2 * t + 1)
    requires Begin(c.asm.labels, t).bound
    ensures ClosedFrom(c, Closed(c), t)
  {
    var a, n := c.asm, |c.asm.data|;
    Pow256Values();
    JmpEncoding(Narrow(RelativeTo(a.labels[2 * t], n, 5), 4));
  }

  /** `]` keeps the assembler's own invariant. */
  lemma CloseRecorded(c: Compiling)
    requires StackIn(c) && |c.stack| > 0 && WellRecorded(c.asm)
    ensures WellRecorded(Closed(c).asm)
  {
    var b := c.stack[|c.stack| - 1];
    PutJmpKeeps(c.asm, b.begin);
    PutBindKeeps(PutJmp(c.asm, b.begin), b.end);
  }

  /** `]` keeps the invariant. */
  lemma CloseKeeps(c: Compiling)
    requires Inv(c) && |c.stack| > 0
    ensures StackIn(c) && Inv(Step(c, ']'))
  {
    var t := c.stack[|c.stack| - 1].begin / 2;
    assert c.stack[|c.stack| - 1] == JitSpec.Branch(2 * t, 2 * t + 1);
    assert LoopOk(c, t);
    StepClose(c);
    CloseShape(c, t);
    CloseRecorded(c);
    CloseInv(c, Closed(c), t);
  }

  lemma CloseInv(c: Compiling, r: Compiling, t: nat)
    requires Inv(c) && |c.stack| > 0 && c.stack[|c.stack| - 1] == JitSpec.Branch(2 * t, 2 * t + 1)
    requires 2 * t + 1 < |c.asm.labels| && ClosedFrom(c, r, t) && WellRecorded(r.asm)
    ensures Inv(r)
  {
    var a, n := c.asm, |c.asm.data|;
    assert r.asm.data[..n] == a.data;
    forall k | 0 <= k < |a.labels| / 2
      ensures LoopOk(r, k)
    {
      PopMember(c.stack, JitSpec.Branch(2 * k, 2 * k + 1));
      assert LoopOk(c, k);
      if k != t {
        GrowLoop(c, r, k);
      } else {
        CloseLoop(c, r, t);
      }
    }
    forall k, k' | 0 <= k < k' < |a.labels| / 2
      ensures Ordered(r.asm.labels, k, k')
    {
      assert Ordered(a.labels, k, k') && LoopOk(c, k');
      CloseOrdered(c, r, t, k, k');
    }
  }

  /** The loop `]` closes is closed afterwards. */
  lemma CloseLoop(c: Compiling, r: Compiling, t: nat)
    requires 2 * t + 1 < |c.asm.labels| && HeadAt(c.asm, t) && ClosedFrom(c, r, t) && !Open(r, t)
    ensures LoopOk(r, t)
  {
    var a, n := c.asm, |c.asm.data|;
    var h := Begin(a.labels, t).rip;
    assert r.asm.data[..n] == a.data;
    SliceOfPrefix(r.asm.data, n, h, h + 6);
    assert r.asm.data[n + 1..n + 5] == PatchBytes(BackPatch(n, 4, 5, 1), Begin(a.labels, t));
  }

  lemma CloseOrdered(c: Compiling, r: Compiling, t: nat, k: nat, k': nat)
    requires 2 * t + 1 < |c.asm.labels| && ClosedFrom(c, r, t) && k < k' < |c.asm.labels| / 2
    requires Ordered(c.asm.labels, k, k') && HeadAt(c.asm, k')
    ensures Ordered(r.asm.labels, k, k')
  {
    var ls, ls' := c.asm.labels, r.asm.labels;
    assert Begin(ls', k) == Begin(ls, k) && Begin(ls', k') == Begin(ls, k');
    if k != t {
      assert End(ls', k) == End(ls, k);
    } else {
      assert End(ls', k).rip == |c.asm.data| + 5;
    }
  }

  /** Every character keeps the invariant. */
  lemma StepKeeps(c: Compiling, ch: char)
    requires Inv(c) && (ch == ']' ==> |c.stack| > 0)
    ensures StackIn(c) && Inv(Step(c, ch))
  {
    if ch == '[' {
      OpenKeeps(c);
    } else if ch == ']' {
      CloseKeeps(c);
    } else {
      GrowKeeps(c, Step(c, ch));
    }
  }

  /** So does every program. */
  lemma {:induction false} RunKeeps(code: string, c: Compiling)
    requires Inv(c) && StackIn(c) && JitSpec.NoUnderflow(code, |c.stack|)
    ensures Inv(Run(code, c))
    decreases |code|
  {
    if code != [] {
      var pre := code[..|code| - 1];
      RunKeeps(pre, c);
      StepKeeps(Run(pre, c), code[|code| - 1]);
    }
  }

  /** The state `compile` leaves in a fresh assembler: its invariant holds,
      and one frame is still on the stack for each `[` never closed. */
  lemma CompiledInv(source: string)
    requires JitSpec.NoUnderflow(source, 0)
    ensures var r := Run(source, Compiling(Prologue(Asm([], [])), []));
      Compiled(source) == Epilogue(r.asm) && Inv(Compiling(Compiled(source), r.stack)) &&
      |r.stack| == JitSpec.Depth(source) && |Compiled(source).labels| == 2 * JitSpec.Opens(source)
  {
    PrologueInv();
    RunEpilogueInv(source, Compiling(Prologue(Asm([], [])), []));
  }

  /** The loop of `compile` and the epilogue keep the invariant. */
  lemma RunEpilogueInv(source: string, c0: Compiling)
    requires Inv(c0) && JitSpec.NoUnderflow(source, |c0.stack|)
    ensures var r := Run(source, c0);
      Inv(Compiling(Epilogue(r.asm), r.stack)) && |r.stack| == |c0.stack| + JitSpec.Depth(source) &&
      |Epilogue(r.asm).labels| == |c0.asm.labels| + 2 * JitSpec.Opens(source)
  {
    RunKeeps(source, c0);
    var r := Run(source, c0);
    GrowKeeps(r, Compiling(Epilogue(r.asm), r.stack));
  }

  /** What `finalize()` returns after `compile` in a fresh assembler. */
  function Finalized(source: string): (code: seq<byte>)
    requires JitSpec.NoUnderflow(source, 0)
    ensures |code| == |Compiled(source).data|
  {
    CompiledInv(source);
    var a := Compiled(source);
    RecordedFit(a.labels, |a.data|);
    ApplyWrites(a.data, AllWrites(a.labels))
  }

  /** What `bfcomp::execute` does before it copies the code out and calls
      it: a fresh `Emitter` and `Assembler`, `compile`, then `finalize()`.
      The code it gets is the finalized program. */
  method Execute(source: string) returns (code: seq<byte>)
    requires JitSpec.NoUnderflow(source, 0)
    ensures code == Finalized(source)
  {
    var emit := new Emitter();
    var cc := new Assembler(emit);
    Compile(cc, source);
    RecordedFit(cc.labels, |cc.emitter.data|);
    code := cc.Finalize();
  }

  /** The patches a loop's label carries: none on `begin`, the `je` on
      `end`. */
  lemma PatchesOf(c: Compiling, m: nat)
    requires |c.asm.labels| % 2 == 0 && m < |c.asm.labels| && LoopOk(c, m / 2)
    ensures c.asm.labels[m].patches ==
      if m % 2 == 1 then [BackPatch(Begin(c.asm.labels, m / 2).rip + 4, 4, 6, 2)] else []
  {
  }

  /** A byte outside every closed loop's `je` field is untouched by
      `finalize()`. */
  lemma OutsideFields(c: Compiling, x: int)
    requires |c.asm.labels| % 2 == 0 && LoopsOk(c)
    requires forall k :: 0 <= k < |c.asm.labels| / 2 && End(c.asm.labels, k).bound ==>
      !(Begin(c.asm.labels, k).rip + 6 <= x < Begin(c.asm.labels, k).rip + 10)
    ensures Untouched(c.asm.labels, x)
  {
    var ls := c.asm.labels;
    forall m, i | 0 <= m < |ls| && 0 <= i < |ls[m].patches| && ls[m].bound
      ensures var p := ls[m].patches[i]; !(p.rip + p.offset <= x < p.rip + p.offset + p.size)
    {
      PatchesOf(c, m);
    }
  }

  /** Each byte of a closed loop's head and of its `jmp` lies outside every
      loop's `je` field. */
  lemma HeadTailOutside(c: Compiling, k: nat, x: nat)
    requires k < |c.asm.labels| / 2 && LoopOk(c, k) && AllOrdered(c.asm.labels) && !Open(c, k)
    requires var h, e := Begin(c.asm.labels, k).rip, End(c.asm.labels, k).rip;
      h <= x < h + 6 || e - 5 <= x < e
    ensures forall k' :: 0 <= k' < |c.asm.labels| / 2 && End(c.asm.labels, k').bound ==>
      !(Begin(c.asm.labels, k').rip + 6 <= x < Begin(c.asm.labels, k').rip + 10)
  {
    var ls := c.asm.labels;
    assert LoopOk(c, k);
    forall k' | 0 <= k' < |ls| / 2
      ensures !(Begin(ls, k').rip + 6 <= x < Begin(ls, k').rip + 10)
    {
      if k' < k {
        assert Ordered(ls, k', k);
      } else if k < k' {
        assert Ordered(ls, k, k');
      }
    }
  }

  /** A closed loop has its head and its tail, and no patch writes over
      the bytes of either. */
  lemma ClosedUntouched(c: Compiling, k: nat)
    requires |c.asm.labels| % 2 == 0 && LoopsOk(c) && AllOrdered(c.asm.labels)
    requires k < |c.asm.labels| / 2 && !Open(c, k)
    ensures HeadAt(c.asm, k) && TailAt(c.asm, k)
    ensures var h := Begin(c.asm.labels, k).rip;
      forall x :: h <= x < h + 6 ==> Untouched(c.asm.labels, x)
    ensures var e := End(c.asm.labels, k).rip;
      forall x :: e - 5 <= x < e ==> Untouched(c.asm.labels, x)
  {
    assert LoopOk(c, k);
    var h, e := Begin(c.asm.labels, k).rip, End(c.asm.labels, k).rip;
    forall x | h <= x < h + 6 || e - 5 <= x < e
      ensures Untouched(c.asm.labels, x)
    {
      HeadTailOutside(c, k, x);
      OutsideFields(c, x);
    }
  }

  /** In finalized code, the loop head at `h` is the `cmp byte [rsp], 0`
      and a `je` whose field, read as a signed 32-bit value and added to
      the end of the `je`, gives `e`: modulo 2^32, and exactly below 2 GiB. */
  predicate HeadLanded(code: seq<byte>, h: nat, e: nat)
  {
    h + 15 <= e <= |code| && code[h..h + 6] == HeadCode &&
    Landing.Wraps(code[h + 6..h + 10], h + 10, e) &&
    (e < 0x8000_0000 ==> Landing.Exact(code[h + 6..h + 10], h + 10, e))
  }

  /** In finalized code, the five bytes before `e` are a `jmp` whose field
      gives `h`. */
  predicate TailLanded(code: seq<byte>, h: nat, e: nat)
  {
    h + 15 <= e <= |code| && code[e - 5] == 0xE9 &&
    Landing.Wraps(code[e - 4..e], e, h) &&
    (e < 0x8000_0000 ==> Landing.Exact(code[e - 4..e], e, h))
  }

  /** The finalized head of a closed loop is still the `cmp` and the
      opcode of the `je`. */
  lemma HeadKept(a: Asm, k: nat, code: seq<byte>)
    requires 2 * k + 1 < |a.labels| && HeadAt(a, k) && TailAt(a, k) && |code| == |a.data|
    requires var h := Begin(a.labels, k).rip;
      forall x :: h <= x < h + 6 ==> code[x] == a.data[x]
    requires JeLands(code, Begin(a.labels, k).rip, End(a.labels, k).rip)
    ensures HeadLanded(code, Begin(a.labels, k).rip, End(a.labels, k).rip)
  {
    var h, e := Begin(a.labels, k).rip, End(a.labels, k).rip;
    assert code[h..h + 6] == a.data[h..h + 6];
    assert code[h..h + 6] == HeadCode;
    assert h + 10 < e;
  }

  /** The `je` field at `h + 6` gives `e`. */
  predicate JeLands(code: seq<byte>, h: nat, e: nat)
  {
    h + 10 <= |code| && Landing.Wraps(code[h + 6..h + 10], h + 10, e) &&
    (e < 0x8000_0000 && h + 10 < 0x8000_0000 ==> Landing.Exact(code[h + 6..h + 10], h + 10, e))
  }

  /** The finalized head of a closed loop: the `cmp`, then a `je` whose
      field gives the loop's `end`. */
  lemma HeadSide(a: Asm, k: nat)
    requires WellRecorded(a) && 2 * k + 1 < |a.labels| && HeadAt(a, k) && TailAt(a, k)
    requires var h := Begin(a.labels, k).rip;
      forall x :: h <= x < h + 6 ==> Untouched(a.labels, x)
    ensures LabelsWritable(a.labels) && AllInside(AllWrites(a.labels), |a.data|)
    ensures var code := ApplyWrites(a.data, AllWrites(a.labels));
      var h, e := Begin(a.labels, k).rip, End(a.labels, k).rip;
      HeadLanded(code, h, e)
  {
    var h := Begin(a.labels, k).rip;
    RecordedFit(a.labels, |a.data|);
    var code := ApplyWrites(a.data, AllWrites(a.labels));
    RangeKept(a.data, a.labels, h, h + 6);
    JeField(a, k);
    HeadKept(a, k, code);
  }

  /** The finalized tail of a closed loop: a `jmp` whose field gives the
      loop's `begin`. */
  lemma TailSide(a: Asm, k: nat)
    requires AllRecorded(a.labels, |a.data|) && 2 * k + 1 < |a.labels| && TailAt(a, k)
    requires var e := End(a.labels, k).rip;
      forall x :: e - 5 <= x < e ==> Untouched(a.labels, x)
    ensures LabelsWritable(a.labels) && AllInside(AllWrites(a.labels), |a.data|)
    ensures var code := ApplyWrites(a.data, AllWrites(a.labels));
      var h, e := Begin(a.labels, k).rip, End(a.labels, k).rip;
      TailLanded(code, h, e)
  {
    var e := End(a.labels, k).rip;
    RecordedFit(a.labels, |a.data|);
    var code := ApplyWrites(a.data, AllWrites(a.labels));
    RangeKept(a.data, a.labels, e - 5, e);
    TailKept(a, k, code);
  }

  /** The finalized head of a closed loop of the compiler's state. */
  lemma HeadLands(c: Compiling, k: nat)
    requires |c.asm.labels| % 2 == 0 && WellRecorded(c.asm) && LoopsOk(c) && AllOrdered(c.asm.labels)
    requires k < |c.asm.labels| / 2 && !Open(c, k)
    ensures LabelsWritable(c.asm.labels) && AllInside(AllWrites(c.asm.labels), |c.asm.data|)
    ensures var code := ApplyWrites(c.asm.data, AllWrites(c.asm.labels));
      var h, e := Begin(c.asm.labels, k).rip, End(c.asm.labels, k).rip;
      Begin(c.asm.labels, k).bound && End(c.asm.labels, k).bound && HeadLanded(code, h, e)
  {
    ClosedUntouched(c, k);
    HeadSide(c.asm, k);
  }

  /** The finalized tail of a closed loop of the compiler's state. */
  lemma TailLands(c: Compiling, k: nat)
    requires |c.asm.labels| % 2 == 0 && WellRecorded(c.asm) && LoopsOk(c) && AllOrdered(c.asm.labels)
    requires k < |c.asm.labels| / 2 && !Open(c, k)
    ensures LabelsWritable(c.asm.labels) && AllInside(AllWrites(c.asm.labels), |c.asm.data|)
    ensures var code := ApplyWrites(c.asm.data, AllWrites(c.asm.labels));
      var h, e := Begin(c.asm.labels, k).rip, End(c.asm.labels, k).rip;
      Begin(c.asm.labels, k).bound && End(c.asm.labels, k).bound && TailLanded(code, h, e)
  {
    ClosedUntouched(c, k);
    TailSide(c.asm, k);
  }

  /** The `je` field of a loop whose `end` is bound. */
  lemma JeField(a: Asm, k: nat)
    requires WellRecorded(a) && 2 * k + 1 < |a.labels| && HeadAt(a, k) && End(a.labels, k).bound
    ensures LabelsWritable(a.labels) && AllInside(AllWrites(a.labels), |a.data|)
    ensures JeLands(ApplyWrites(a.data, AllWrites(a.labels)), Begin(a.labels, k).rip, End(a.labels, k).rip)
  {
    var h, l := Begin(a.labels, k).rip, End(a.labels, k);
    FieldResolved(a.data, a.labels, 2 * k + 1, 0);
    JeFrom(ApplyWrites(a.data, AllWrites(a.labels)), l, h);
  }

  /** A `je` field at `h + 6` holding the resolved displacement to `l`. */
  lemma JeFrom(code: seq<byte>, l: Label, h: nat)
    requires h + 10 <= |code| && code[h + 6..h + 10] == PatchBytes(BackPatch(h + 4, 4, 6, 2), l)
    ensures JeLands(code, h, l.rip)
  {
    PatchLands(BackPatch(h + 4, 4, 6, 2), l);
  }

  /** The finalized `jmp` of a closed loop goes back to its `begin`: the
      five bytes of the `jmp` are kept from what was emitted. */
  lemma TailKept(a: Asm, k: nat, code: seq<byte>)
    requires 2 * k + 1 < |a.labels| && TailAt(a, k) && |code| == |a.data|
    requires var e := End(a.labels, k).rip;
      forall x :: e - 5 <= x < e ==> code[x] == a.data[x]
    ensures TailLanded(code, Begin(a.labels, k).rip, End(a.labels, k).rip)
  {
    var e := End(a.labels, k).rip;
    assert code[e - 5] == a.data[e - 5];
    SameSlice(code, a.data, e - 4, e);
    JmpField(a.data[e - 4..e], Begin(a.labels, k), e);
  }

  /** Two sequences that agree on `[lo, hi)` have the same slice there. */
  lemma SameSlice(s: seq<byte>, t: seq<byte>, lo: nat, hi: nat)
    requires lo <= hi <= |s| && hi <= |t|
    requires forall x :: lo <= x < hi ==> s[x] == t[x]
    ensures s[lo..hi] == t[lo..hi]
  {
  }

  /** A `jmp` field holding the displacement from `e` to `l`. */
  lemma JmpField(field: seq<byte>, l: Label, e: nat)
    requires e >= 5 && field == PatchBytes(BackPatch(e - 5, 4, 5, 1), l)
    ensures Landing.Wraps(field, e, l.rip)
    ensures e < 0x8000_0000 && l.rip < 0x8000_0000 ==> Landing.Exact(field, e, l.rip)
  {
    PatchLands(BackPatch(e - 5, 4, 5, 1), l);
  }

  /** In the finalized code of a balanced program every loop `k` (the
      `k`-th `[`) has its head at `begin` and its tail right before `end`,
      and the head's `je` lands on `end` and the tail's `jmp` on `begin`. */
  lemma LoopsLand(source: string, k: nat)
    requires JitSpec.Balanced(source) && k < JitSpec.Opens(source)
    ensures var a, code := Compiled(source), Finalized(source);
      |a.labels| == 2 * JitSpec.Opens(source) && Begin(a.labels, k).bound && End(a.labels, k).bound &&
      var h, e := Begin(a.labels, k).rip, End(a.labels, k).rip;
      HeadLanded(code, h, e) && TailLanded(code, h, e)
  {
    CompiledInv(source);
    var r := Run(source, Compiling(Prologue(Asm([], [])), []));
    var c := Compiling(Compiled(source), r.stack);
    assert r.stack == [];
    HeadLands(c, k);
    TailLands(c, k);
  }
}
