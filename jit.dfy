/** `jit_compile` and its helpers, driving an `X86Assembler`. Each method
    appends to the assembler's stream exactly the operations `JitSpec` says
    it stands for, and keeps the labels in the state `Tracks` describes, so
    that every label is bound exactly once, and only when it is still
    unbound. */
module Jit {
  import opened Bytes
  import opened X86
  import opened Labels
  import opened CodeLayout
  import opened X86Asm
  import opened JitSpec

  /** The `end` labels of the open loops. */
  function Ends(stack: seq<Branch>): set<nat>
  {
    if stack == [] then {} else Ends(stack[..|stack| - 1]) + {stack[|stack| - 1].end}
  }

  /** The labels while translating: one per label the state has created;
      the `putchar` label and the `end` of every open loop still unbound,
      every other label created after `putchar` already bound; and the
      frames made of labels created after `putchar`. */
  predicate Tracks(labels: seq<Label>, st: State, putchar: nat)
  {
    |labels| == st.next && putchar < st.next && !labels[putchar].isBound &&
    Frames(st.stack, putchar + 1, st.next) &&
    (forall j :: 0 <= j < |st.stack| ==> !labels[st.stack[j].end].isBound) &&
    (forall l :: putchar < l < |labels| && l !in Ends(st.stack) ==> labels[l].isBound)
  }

  /** The labels after translating `ch` with `at` bytes already emitted: a
      `[` adds its `begin`, bound where its `cmp` goes, and its `end`; a `]`
      binds the innermost `end` right after the 5-byte `jmp`. */
  function CharLabels(ch: char, st: State, labels: seq<Label>, at: nat): seq<Label>
  {
    if ch == '[' then labels + [Bind(NewLabel(), at), NewLabel()]
    else if ch == ']' && st.stack != [] && st.stack[|st.stack| - 1].end < |labels| then
      var e := st.stack[|st.stack| - 1].end;
      labels[e := Bind(labels[e], at + 5)]
    else labels
  }

  /** Translating a character keeps the labels tracked: a `[` binds its
      `begin` and opens its `end`, a `]` binds the `end` it closes; and it
      never touches the labels up to and including `putchar`. */
  lemma CharTracks(ch: char, st: State, labels: seq<Label>, putchar: nat, at: nat)
    requires Tracks(labels, st, putchar)
    ensures Tracks(CharLabels(ch, st, labels, at), Next(ch, st), putchar)
    ensures CharLabels(ch, st, labels, at)[..putchar + 1] == labels[..putchar + 1]
  {
    if ch == '[' {
      OpenTracks(st, labels, putchar, at);
    } else if ch == ']' && st.stack != [] {
      CloseTracks(st, labels, putchar, at);
    }
  }

  /** `[`: the new `begin` is bound, the new `end` is open. */
  lemma OpenTracks(st: State, labels: seq<Label>, putchar: nat, at: nat)
    requires Tracks(labels, st, putchar)
    ensures Tracks(labels + [Bind(NewLabel(), at), NewLabel()], Next('[', st), putchar)
    ensures (labels + [Bind(NewLabel(), at), NewLabel()])[..putchar + 1] == labels[..putchar + 1]
  {
    var labels', st' := labels + [Bind(NewLabel(), at), NewLabel()], Next('[', st);
    NextFrames('[', st, putchar + 1);
    assert st'.stack[..|st'.stack| - 1] == st.stack;
    assert Ends(st'.stack) == Ends(st.stack) + {st.next + 1};
    forall j | 0 <= j < |st'.stack|
      ensures !labels'[st'.stack[j].end].isBound
    {
      if j < |st.stack| {
        assert st'.stack[j] == st.stack[j];
      }
    }
    forall l | putchar < l < |labels'| && l !in Ends(st'.stack)
      ensures labels'[l].isBound
    {
      if l < |labels| {
        assert labels'[l] == labels[l];
      }
    }
  }

  /** `]`: the innermost `end` is bound, the enclosing ones stay open. */
  lemma CloseTracks(st: State, labels: seq<Label>, putchar: nat, at: nat)
    requires Tracks(labels, st, putchar) && st.stack != []
    ensures var e := st.stack[|st.stack| - 1].end;
      e < |labels| &&
      Tracks(labels[e := Bind(labels[e], at + 5)], Next(']', st), putchar) &&
      labels[e := Bind(labels[e], at + 5)][..putchar + 1] == labels[..putchar + 1]
  {
    var s := st.stack;
    var e := s[|s| - 1].end;
    var labels', st' := labels[e := Bind(labels[e], at + 5)], Next(']', st);
    NextFrames(']', st, putchar + 1);
    assert st'.stack == s[..|s| - 1];
    assert Ends(s) == Ends(st'.stack) + {e};
    forall j | 0 <= j < |st'.stack|
      ensures !labels'[st'.stack[j].end].isBound
    {
      assert s[j].end < s[|s| - 1].begin;
    }
    assert labels'[..putchar + 1] == labels[..putchar + 1];
  }

  lemma NarrowZero()
    ensures Narrow(0, 1) == 0
  {
    Pow256Values();
  }

  // Appending one operation at a time builds the same stream as appending the block.

  lemma Append2<T>(o: seq<T>, a: T, b: T)
    ensures o + [a] + [b] == o + [a, b]
  {
  }

  lemma Append3<T>(o: seq<T>, a: T, b: T, c: T)
    ensures o + [a] + [b] + [c] == o + [a, b, c]
  {
  }

  lemma Append4<T>(o: seq<T>, a: T, b: T, c: T, d: T)
    ensures o + [a] + [b] + [c] + [d] == o + [a, b, c, d]
  {
  }

  lemma AppendPrologue(o: seq<Op>)
    ensures o + [Plain(Push(Rbp))] + [Plain(Push(Rdi))] + [Plain(MovRR(Rbp, Rsp))]
      + [Plain(SubRI32(Rsp, StackReserve))] + [Plain(MovRI32(Rcx, StackReserve))]
      + [Plain(MovRR(Rdi, Rsp))] + [Plain(XorRR(Rax, Rax))] + [Plain(Cld)]
      + [Plain(RawPrefix(Repne))] + [Plain(Stosb)] + [Plain(DecR(Rdi))]
      == o + PrologueOps()
  {
  }

  lemma AppendAssoc<T>(a: seq<T>, b: seq<T>, c: seq<T>)
    ensures a + b + c == a + (b + c)
  {
  }

  lemma AppendProgram(o: seq<Op>, p: seq<Op>, e: seq<Op>, q: seq<Op>, n: seq<Op>)
    ensures o + p + e + q + n == o + (p + e + q + n)
  {
  }

  /** Translating one more character of `code`, on the prefix the loop has done. */
  lemma Step(code: string, k: nat, st0: State, putchar: nat)
    requires k < |code| && NoUnderflow(code, |st0.stack|)
    ensures Run(code[..k + 1], st0) == Next(code[k], Run(code[..k], st0))
    ensures Emitted(code[..k + 1], st0, putchar) == Emitted(code[..k], st0, putchar) + CharOps(code[k], Run(code[..k], st0), putchar)
    ensures code[k] == ']' ==> Run(code[..k], st0).stack != []
  {
    assert code[..k + 1] == code[..k] + [code[k]];
    RunSnoc(code[..k], code[k], st0, putchar);
    if code[k] == ']' {
      NoUnderflowPrefix(code, |st0.stack|, k);
      NoUnderflowPrefix(code, |st0.stack|, k + 1);
      RunDepth(code[..k], st0);
      assert code[..k + 1][..k] == code[..k];
    }
  }

  /** `Branch{cc}`: the loop's `begin` label, then its `end` label. */
  method NewBranch(cc: X86Assembler) returns (b: Branch)
    requires cc.Valid()
    modifies cc
    ensures b == Branch(|old(cc.labels)|, |old(cc.labels)| + 1)
    ensures cc.labels == old(cc.labels) + [NewLabel(), NewLabel()]
    ensures cc.ops == old(cc.ops) && cc.Valid()
  {
    var begin := cc.AddLabel();
    var end := cc.AddLabel();
    b := Branch(begin, end);
    Append2(old(cc.labels), NewLabel(), NewLabel());
  }

  /** `Branch::start`: bind `begin` where the `cmp byte [rdi], 0` goes, then
      `je end`. */
  method Start(b: Branch, cc: X86Assembler)
    requires cc.Valid() && b.begin < b.end < |cc.labels| && !cc.labels[b.begin].isBound
    modifies cc, cc.buf
    ensures cc.ops == old(cc.ops) + [BindAt(b.begin), Plain(CmpMI8(Rdi, 0)), JccTo(Equal, b.end)]
    ensures cc.labels == old(cc.labels)[b.begin := Bind(old(cc.labels)[b.begin], |old(cc.buf.storage)|)]
    ensures cc.buf.storage == old(cc.buf.storage) + Encode(CmpMI8(Rdi, 0))
      + Encode(Jcc(Equal, Rel32(old(cc.labels)[b.end], |old(cc.buf.storage)| + 3, 6)))
    ensures cc.Valid()
  {
    ghost var s0, l0, o0 := cc.buf.storage, cc.labels, cc.ops;
    cc.BindLabel(b.begin);
    assert cc.labels[b.end] == l0[b.end];
    NarrowZero();
    cc.EmitCmpMI8(Rdi, 0);
    ghost var s1, o1 := cc.buf.storage, cc.ops;
    assert o1 == o0 + [BindAt(b.begin)] + [Plain(CmpMI8(Rdi, 0))];
    assert s1 == s0 + Encode(CmpMI8(Rdi, 0)) && |s1| == |s0| + 3 by {
      EncodeLength(CmpMI8(Rdi, 0));
    }
    cc.EmitJcc(Equal, b.end);
    assert cc.ops == o1 + [JccTo(Equal, b.end)];
    Append3(o0, BindAt(b.begin), Plain(CmpMI8(Rdi, 0)), JccTo(Equal, b.end));
  }

  /** `Branch::close`: `jmp begin`, then bind `end` right after it. */
  method Close(b: Branch, cc: X86Assembler)
    requires cc.Valid() && b.begin < |cc.labels| && b.end < |cc.labels| && !cc.labels[b.end].isBound
    modifies cc, cc.buf
    ensures cc.ops == old(cc.ops) + [JmpTo(b.begin), BindAt(b.end)]
    ensures cc.labels == old(cc.labels)[b.end := Bind(old(cc.labels)[b.end], |old(cc.buf.storage)| + 5)]
    ensures cc.buf.storage == old(cc.buf.storage) + Encode(Jmp(Rel32(old(cc.labels)[b.begin], |old(cc.buf.storage)|, 5)))
    ensures cc.Valid()
  {
    cc.EmitJmp(b.begin);
    cc.BindLabel(b.end);
    Append2(old(cc.ops), JmpTo(b.begin), BindAt(b.end));
  }

  /** `gen_prologue`. */
  method GenPrologue(cc: X86Assembler)
    requires cc.Valid()
    modifies cc, cc.buf
    ensures cc.ops == old(cc.ops) + PrologueOps()
    ensures cc.labels == old(cc.labels) && cc.Valid()
  {
    cc.EmitPush(Rbp);
    cc.EmitPush(Rdi);
    cc.EmitMovRR(Rbp, Rsp);
    cc.EmitSubRI32(Rsp, StackReserve);
    cc.EmitMovRI32(Rcx, StackReserve);
    cc.EmitMovRR(Rdi, Rsp);
    cc.EmitXorRR(Rax, Rax);
    cc.EmitCld();
    cc.EmitPrefix(Repne);
    cc.EmitStosb();
    cc.EmitDecR(Rdi);
    AppendPrologue(old(cc.ops));
  }

  /** `gen_epilogue`. */
  method GenEpilogue(cc: X86Assembler)
    requires cc.Valid()
    modifies cc, cc.buf
    ensures cc.ops == old(cc.ops) + EpilogueOps()
    ensures cc.labels == old(cc.labels) && cc.Valid()
  {
    cc.EmitMovRR(Rsp, Rbp);
    cc.EmitPop(Rdi);
    cc.EmitPop(Rbp);
    cc.EmitRet(0);
    Append4(old(cc.ops), Plain(MovRR(Rsp, Rbp)), Plain(Pop(Rdi)), Plain(Pop(Rbp)), Plain(Ret(0)));
  }

  /** `gen_native_call(cc, label, func)`: bind the label where the stub
      starts, then `movabs rax, func; call rax; ret`. The address `func` is
      a `uintptr_t` passed as the `int64_t` immediate. */
  method GenNativeCall(cc: X86Assembler, target: nat, func: u64)
    requires cc.Valid() && target < |cc.labels| && !cc.labels[target].isBound
    modifies cc, cc.buf
    ensures cc.ops == old(cc.ops) + NativeCallOps(target, AsI64(func))
    ensures cc.labels == old(cc.labels)[target := Bind(old(cc.labels)[target], |old(cc.buf.storage)|)]
    ensures cc.Valid()
  {
    cc.BindLabel(target);
    cc.EmitMovAbs(Rax, AsI64(func));
    cc.EmitCallR(Rax);
    cc.EmitRet(0);
    Append4(old(cc.ops), BindAt(target), Plain(MovAbs(Rax, AsI64(func))), Plain(CallR(Rax)), Plain(Ret(0)));
  }

  /** The `.` case: load the current cell into `rcx`, call the `putchar`
      stub, clear `rax`. */
  method Output(cc: X86Assembler, putchar: nat)
    requires cc.Valid() && putchar < |cc.labels|
    modifies cc, cc.buf
    ensures cc.ops == old(cc.ops) + [Plain(MovzxRM8(Rcx, Rdi)), CallTo(putchar), Plain(XorRR(Rax, Rax))]
    ensures cc.labels == old(cc.labels) && cc.Valid()
  {
    cc.EmitMovzxRM8(Rcx, Rdi);
    cc.EmitCall(putchar);
    cc.EmitXorRR(Rax, Rax);
    Append3(old(cc.ops), Plain(MovzxRM8(Rcx, Rdi)), CallTo(putchar), Plain(XorRR(Rax, Rax)));
  }

  /** The `[` case: `branch_stack.emplace_back(Branch{cc}).start(cc)`. */
  method OpenLoop(cc: X86Assembler, stack: seq<Branch>) returns (stack': seq<Branch>)
    requires cc.Valid()
    modifies cc, cc.buf
    ensures var n := |old(cc.labels)|;
      stack' == stack + [Branch(n, n + 1)] &&
      cc.ops == old(cc.ops) + [BindAt(n), Plain(CmpMI8(Rdi, 0)), JccTo(Equal, n + 1)] &&
      cc.labels == old(cc.labels) + [Bind(NewLabel(), |old(cc.buf.storage)|), NewLabel()]
    ensures cc.Valid()
  {
    var b := NewBranch(cc);
    Start(b, cc);
    stack' := stack + [b];
  }

  /** The `]` case: `branch_stack.back().close(cc)`, then `pop_back()`. */
  method CloseLoop(cc: X86Assembler, stack: seq<Branch>) returns (stack': seq<Branch>)
    requires cc.Valid() && stack != []
    requires var b := stack[|stack| - 1]; b.begin < |cc.labels| && b.end < |cc.labels| && !cc.labels[b.end].isBound
    modifies cc, cc.buf
    ensures var b := stack[|stack| - 1];
      stack' == stack[..|stack| - 1] &&
      cc.ops == old(cc.ops) + [JmpTo(b.begin), BindAt(b.end)] &&
      cc.labels == old(cc.labels)[b.end := Bind(old(cc.labels)[b.end], |old(cc.buf.storage)| + 5)]
    ensures cc.Valid()
  {
    Close(stack[|stack| - 1], cc);
    stack' := stack[..|stack| - 1];
  }

  /** One iteration of `jit_compile`'s loop: the `switch` on `ch`, with the
      branch stack `stack` that the ghost state `st` describes. */
  method CompileChar(cc: X86Assembler, ch: char, stack: seq<Branch>, ghost st: State, putchar: nat)
    returns (stack': seq<Branch>)
    requires cc.Valid() && Tracks(cc.labels, st, putchar) && stack == st.stack
    requires ch == ']' ==> stack != []
    modifies cc, cc.buf
    ensures stack' == Next(ch, st).stack
    ensures cc.ops == old(cc.ops) + CharOps(ch, st, putchar)
    ensures cc.labels == CharLabels(ch, st, old(cc.labels), |old(cc.buf.storage)|)
    ensures cc.Valid()
  {
    stack' := stack;
    match ch
    case '>' => cc.EmitDecR(Rdi);
    case '<' => cc.EmitIncR(Rdi);
    case '[' => stack' := OpenLoop(cc, stack);
    case ']' => stack' := CloseLoop(cc, stack);
    case '+' => cc.EmitIncRM8(Rdi);
    case '-' => cc.EmitDecRM8(Rdi);
    case '.' => Output(cc, putchar);
    case ',' => cc.EmitInt3();
    case _ =>
  }

  /** The labels once the loop is done and `putchar` is bound: the
      assembler's earlier labels are untouched, and for a balanced program
      every label from `putchar` on is bound. */
  lemma FinalLabels(labels: seq<Label>, labels0: seq<Label>, st: State, putchar: nat, at: nat)
    requires Tracks(labels, st, putchar) && putchar == |labels0|
    requires labels[..putchar + 1] == labels0 + [NewLabel()]
    ensures var labels' := labels[putchar := Bind(labels[putchar], at)];
      |labels'| == st.next && labels'[..putchar] == labels0 &&
      (st.stack == [] ==> forall l :: putchar <= l < |labels'| ==> labels'[l].isBound)
  {
    var labels' := labels[putchar := Bind(labels[putchar], at)];
    assert labels'[..putchar] == labels[..putchar + 1][..putchar];
  }

  /** The main loop of `jit_compile`: each character in turn, with the
      stack of open loops, starting with none open and all labels before
      `putchar + 1` made. */
  method CompileLoop(cc: X86Assembler, code: string, putchar: nat)
    requires cc.Valid() && NoUnderflow(code, 0)
    requires Tracks(cc.labels, State(putchar + 1, []), putchar)
    modifies cc, cc.buf
    ensures Tracks(cc.labels, Run(code, State(putchar + 1, [])), putchar)
    ensures cc.labels[..putchar + 1] == old(cc.labels)
    ensures cc.ops == old(cc.ops) + Emitted(code, State(putchar + 1, []), putchar)
    ensures cc.Valid()
  {
    ghost var st0 := State(putchar + 1, []);
    ghost var ops1, labels1 := cc.ops, cc.labels;
    ghost var st := st0;
    var stack: seq<Branch> := [];
    assert code[..0] == [];
    var k := 0;
    while k < |code|
      invariant 0 <= k <= |code|
      invariant cc.Valid()
      invariant st == Run(code[..k], st0) && stack == st.stack
      invariant Tracks(cc.labels, st, putchar)
      invariant cc.labels[..putchar + 1] == labels1
      invariant cc.ops == ops1 + Emitted(code[..k], st0, putchar)
    {
      Step(code, k, st0, putchar);
      CharTracks(code[k], st, cc.labels, putchar, |cc.buf.storage|);
      stack := CompileChar(cc, code[k], stack, st, putchar);
      AppendAssoc(ops1, Emitted(code[..k], st0, putchar), CharOps(code[k], st, putchar));
      st := Next(code[k], st);
      k := k + 1;
    }
    assert code[..k] == code;
  }

  /** `jit_compile(cc, code)`, for a program in which every `]` closes an
      open loop (`back()` of an empty branch stack is undefined). The
      assembler ends with the whole program appended: the `putchar` label
      is the first it creates and the loops' labels follow; earlier labels
      are left alone, and when every loop is closed every new label is
      bound. */
  method JitCompile(cc: X86Assembler, code: string, func: u64)
    requires cc.Valid() && NoUnderflow(code, 0)
    modifies cc, cc.buf
    ensures cc.ops == old(cc.ops) + Program(code, |old(cc.labels)|, AsI64(func))
    ensures |cc.labels| == |old(cc.labels)| + 1 + 2 * Opens(code)
    ensures cc.labels[..|old(cc.labels)|] == old(cc.labels)
    ensures Depth(code) == 0 ==> forall l :: |old(cc.labels)| <= l < |cc.labels| ==> cc.labels[l].isBound
    ensures cc.Valid()
  {
    ghost var ops0, labels0 := cc.ops, cc.labels;
    var putchar := cc.AddLabel();
    GenPrologue(cc);
    ghost var st0 := State(putchar + 1, []);
    ghost var ops1 := cc.ops;
    CompileLoop(cc, code, putchar);
    ghost var st := Run(code, st0);
    GenEpilogue(cc);
    ghost var labels1, at := cc.labels, |cc.buf.storage|;
    GenNativeCall(cc, putchar, func);
    AppendProgram(ops0, PrologueOps(), Emitted(code, st0, putchar), EpilogueOps(), NativeCallOps(putchar, AsI64(func)));
    RunDepth(code, st0);
    FinalLabels(labels1, labels0, st, putchar, at);
  }
}
