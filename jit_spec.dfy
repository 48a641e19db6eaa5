/** What `jit_compile` emits, as a function of the program text: the
    operations each character stands for, the loop frames on the branch
    stack after each prefix, and the whole stream of prologue, body,
    epilogue and `putchar` stub. The lemmas give the stack discipline and
    the shape of a loop. */
module JitSpec {
  import opened Bytes
  import opened X86
  import opened CodeLayout

  /** `kStackReserve`: the bytes of tape the prologue reserves and clears. */
  const StackReserve: i32 := 512

  /** A loop frame: the label bound at the loop's `cmp` and the one bound after its `jmp`. */
  datatype Branch = Branch(begin: nat, end: nat)

  /** The translator's state between characters: the next label to be
      created and the open loops, innermost last. */
  datatype State = State(next: nat, stack: seq<Branch>)

  /** How a character changes the nesting depth. */
  function Delta(ch: char): int
  {
    if ch == '[' then 1 else if ch == ']' then -1 else 0
  }

  /** `#'[' - #']'` in `code`. */
  function Depth(code: string): int
    decreases |code|
  {
    if code == [] then 0 else Depth(code[..|code| - 1]) + Delta(code[|code| - 1])
  }

  /** `#'['` in `code`. */
  function Opens(code: string): nat
    decreases |code|
  {
    if code == [] then 0 else Opens(code[..|code| - 1]) + if code[|code| - 1] == '[' then 1 else 0
  }

  /** No prefix of `code` closes more loops than the `d` open ones plus
      those it opens: every `]` finds a frame for `back()`. */
  predicate NoUnderflow(code: string, d: nat)
    decreases |code|
  {
    d + Depth(code) >= 0 && (code == [] || NoUnderflow(code[..|code| - 1], d))
  }

  /** Every `[` of `code` has its `]` in `code`, and the other way round. */
  predicate Balanced(code: string)
  {
    NoUnderflow(code, 0) && Depth(code) == 0
  }

  lemma {:induction false} NoUnderflowPrefix(code: string, d: nat, n: nat)
    requires NoUnderflow(code, d) && n <= |code|
    ensures NoUnderflow(code[..n], d)
    decreases |code|
  {
    if n < |code| {
      var init := code[..|code| - 1];
      assert init[..n] == code[..n];
      NoUnderflowPrefix(init, d, n);
    } else {
      assert code[..n] == code;
    }
  }

  /** The state after one character (`branch_stack` and the label count).
      A `]` with no open loop is undefined behaviour in the translator
      (`back()` of an empty vector); here it leaves the state alone, and the
      translator's model never reaches it. */
  function Next(ch: char, st: State): (r: State)
  {
    if ch == '[' then State(st.next + 2, st.stack + [Branch(st.next, st.next + 1)])
    else if ch == ']' && st.stack != [] then State(st.next, st.stack[..|st.stack| - 1])
    else st
  }

  /** `ops` are instructions only: no branch and no bind. */
  predicate AllPlain(ops: seq<Op>)
  {
    forall k :: 0 <= k < |ops| ==> ops[k].Plain?
  }

  /** Every instruction among `ops` is one the current draft encodes exactly. */
  predicate PlainEncodable(ops: seq<Op>)
  {
    forall k :: 0 <= k < |ops| && ops[k].Plain? ==> Encodable(ops[k].instr)
  }

  /** The operations one character emits, labels numbered from `st.next`:
      nothing for a character outside the eight commands and for a `]`
      with no open loop, at most three operations otherwise, and only
      instructions the encoder gets right. */
  function CharOps(ch: char, st: State, putchar: nat): (ops: seq<Op>)
    ensures ops == [] <==> ch !in "><[]+-.," || (ch == ']' && st.stack == [])
    ensures |ops| <= 3 && PlainEncodable(ops)
  {
    match ch
    case '>' => [Plain(DecR(Rdi))]
    case '<' => [Plain(IncR(Rdi))]
    case '[' => [BindAt(st.next), Plain(CmpMI8(Rdi, 0)), JccTo(Equal, st.next + 1)]
    case ']' =>
      if st.stack == [] then []
      else
        var top := st.stack[|st.stack| - 1];
        [JmpTo(top.begin), BindAt(top.end)]
    case '+' => [Plain(IncM8(Rdi))]
    case '-' => [Plain(DecM8(Rdi))]
    case '.' => [Plain(MovzxRM8(Rcx, Rdi)), CallTo(putchar), Plain(XorRR(Rax, Rax))]
    case ',' => [Plain(Int3)]
    case _ => []
  }

  /** The state after `code`: one frame per loop still open, two labels per `[`. */
  function Run(code: string, st: State): (r: State)
    ensures r.next == st.next + 2 * Opens(code)
    decreases |code|
  {
    if code == [] then st
    else
      Next(code[|code| - 1], Run(code[..|code| - 1], st))
  }

  /** The operations `code` stands for from state `st`, when a character
      `c` met in state `s` stands for `f(c, s)`. */
  function Expand(code: string, st: State, f: (char, State) -> seq<Op>): seq<Op>
    decreases |code|
  {
    if code == [] then []
    else
      var init := code[..|code| - 1];
      Expand(init, st, f) + f(code[|code| - 1], Run(init, st))
  }

  /** The operations `code` emits from state `st`. */
  function Emitted(code: string, st: State, putchar: nat): seq<Op>
  {
    Expand(code, st, (c, s) => CharOps(c, s, putchar))
  }

  /** Expanding one more character. */
  lemma ExpandSnoc(code: string, ch: char, st: State, f: (char, State) -> seq<Op>)
    ensures Expand(code + [ch], st, f) == Expand(code, st, f) + f(ch, Run(code, st))
  {
    assert (code + [ch])[..|code|] == code;
  }

  /** Expansion composes over concatenation, whatever the per-character operations. */
  lemma {:induction false} ExpandAppend(a: string, b: string, st: State, f: (char, State) -> seq<Op>)
    ensures Expand(a + b, st, f) == Expand(a, st, f) + Expand(b, Run(a, st), f)
    decreases |b|
  {
    if b == [] {
      assert a + b == a;
    } else {
      var b', c := b[..|b| - 1], b[|b| - 1];
      assert b == b' + [c];
      assert a + b == (a + b') + [c];
      var s := Run(a, st);
      var x, y := Expand(a, st, f), Expand(b', s, f);
      var last := f(c, Run(b', s));
      calc {
        Expand(a + b, st, f);
        { ExpandSnoc(a + b', c, st, f); }
        Expand(a + b', st, f) + f(c, Run(a + b', st));
        { ExpandAppend(a, b', st, f); RunAppend(a, b', st); }
        (x + y) + last;
        x + (y + last);
        { ExpandSnoc(b', c, s, f); }
        x + Expand(b, s, f);
      }
    }
  }
  /** What `a + b` emits is what `a` emits, then what `b` emits from where `a` left off. */
  lemma EmittedAppend(a: string, b: string, st: State, putchar: nat)
    ensures Emitted(a + b, st, putchar) == Emitted(a, st, putchar) + Emitted(b, Run(a, st), putchar)
  {
    ExpandAppend(a, b, st, (c, s) => CharOps(c, s, putchar));
  }


  /** `gen_prologue`: save `rbp` and `rdi`, make `rbp` the frame pointer,
      reserve the tape below it, zero it with `rep stosb`, and point `rdi` at
      its last byte. */
  function PrologueOps(): (r: seq<Op>)
    ensures AllPlain(r) && PlainEncodable(r)
  {
    [Plain(Push(Rbp)), Plain(Push(Rdi)),
     Plain(MovRR(Rbp, Rsp)), Plain(SubRI32(Rsp, StackReserve)),
     Plain(MovRI32(Rcx, StackReserve)), Plain(MovRR(Rdi, Rsp)), Plain(XorRR(Rax, Rax)),
     Plain(Cld), Plain(RawPrefix(Repne)), Plain(Stosb),
     Plain(DecR(Rdi))]
  }

  /** `gen_epilogue`: drop the tape, restore `rdi` and `rbp`, return. */
  function EpilogueOps(): (r: seq<Op>)
    ensures |r| == 4 && AllPlain(r) && PlainEncodable(r) && r[3] == Plain(Ret(0))
  {
    [Plain(MovRR(Rsp, Rbp)), Plain(Pop(Rdi)), Plain(Pop(Rbp)), Plain(Ret(0))]
  }

  /** `gen_native_call(label, func)`: bind the label `target`, load the
      address `func`, call it, return; only the first operation binds. */
  function NativeCallOps(target: nat, func: i64): (r: seq<Op>)
    ensures |r| == 4 && r[0] == BindAt(target) && AllPlain(r[1..])
    ensures PlainEncodable(r)
  {
    [BindAt(target), Plain(MovAbs(Rax, func)), Plain(CallR(Rax)), Plain(Ret(0))]
  }

  /** Everything `jit_compile` emits, when the assembler already holds
      `base` labels (the `putchar` label is `base`, loop labels follow). */
  function Program(code: string, base: nat, func: i64): seq<Op>
  {
    PrologueOps() + Emitted(code, State(base + 1, []), base) + EpilogueOps() + NativeCallOps(base, func)
  }

  predicate IsPush(op: Op)
  {
    op.Plain? && op.instr.Push?
  }

  predicate IsPop(op: Op)
  {
    op.Plain? && op.instr.Pop?
  }

  /** The epilogue undoes the prologue: the prologue pushes `rbp` then `rdi`
      and nothing else, then sets `rbp` from `rsp`; the epilogue first sets
      `rsp` back from `rbp`, then pops exactly the pushed registers in reverse
      order, and returns. */
  lemma PrologueEpilogueMirror()
    ensures var p, e := PrologueOps(), EpilogueOps();
      (forall i :: 0 <= i < |p| ==> (IsPush(p[i]) <==> i < 2) && !IsPop(p[i])) &&
      (forall i :: 0 <= i < |e| ==> (IsPop(e[i]) <==> 1 <= i < 3) && !IsPush(e[i])) &&
      (forall i :: 0 <= i < 2 ==> p[i].instr.reg == e[2 - i].instr.reg) &&
      p[2] == Plain(MovRR(Rbp, Rsp)) && e[0] == Plain(MovRR(Rsp, Rbp)) && e[|e| - 1] == Plain(Ret(0))
  {
  }

  // The state and the operations compose over concatenation.

  lemma {:induction false} DepthAppend(a: string, b: string)
    ensures Depth(a + b) == Depth(a) + Depth(b)
    ensures Opens(a + b) == Opens(a) + Opens(b)
    decreases |b|
  {
    if b != [] {
      var b' := b[..|b| - 1];
      assert (a + b)[..|a + b| - 1] == a + b';
      DepthAppend(a, b');
    } else {
      assert a + b == a;
    }
  }

  /** `a + b` is underflow-free exactly when `a` is and `b` is from where `a` leaves the depth. */
  lemma {:induction false} NoUnderflowAppend(a: string, b: string, d: nat)
    ensures NoUnderflow(a + b, d) <==> NoUnderflow(a, d) && d + Depth(a) >= 0 && NoUnderflow(b, d + Depth(a))
    decreases |b|
  {
    if b == [] {
      assert a + b == a;
    } else {
      var b' := b[..|b| - 1];
      assert (a + b)[..|a + b| - 1] == a + b';
      NoUnderflowAppend(a, b', d);
      DepthAppend(a, b);
    }
  }

  /** The open loops after `code` are the ones open before plus those it
      leaves open, as long as no `]` comes without a frame. */
  lemma {:induction false} RunDepth(code: string, st: State)
    requires NoUnderflow(code, |st.stack|)
    ensures |Run(code, st).stack| == |st.stack| + Depth(code)
    decreases |code|
  {
    if code != [] {
      RunDepth(code[..|code| - 1], st);
    }
  }

  /** Running one more character. */
  lemma RunSnoc(code: string, ch: char, st: State, putchar: nat)
    ensures Run(code + [ch], st) == Next(ch, Run(code, st))
    ensures Emitted(code + [ch], st, putchar) == Emitted(code, st, putchar) + CharOps(ch, Run(code, st), putchar)
  {
    assert (code + [ch])[..|code|] == code;
  }

  /** Running `a + b` is running `a`, then `b` from where `a` left off. */
  lemma {:induction false} RunAppend(a: string, b: string, st: State)
    ensures Run(a + b, st) == Run(b, Run(a, st))
    decreases |b|
  {
    if b == [] {
      assert a + b == a;
    } else {
      var b', c := b[..|b| - 1], b[|b| - 1];
      assert b == b' + [c];
      assert a + b == (a + b') + [c];
      RunSnoc(a + b', c, st, 0);
      RunAppend(a, b', st);
      RunSnoc(b', c, Run(a, st), 0);
    }
  }

  /** A fragment that never closes a loop it did not open works the same
      whatever frames lie below it, and leaves them in place. */
  lemma {:induction false} RunFrame(t: string, n: nat, below: seq<Branch>, putchar: nat)
    requires NoUnderflow(t, 0)
    ensures Run(t, State(n, below)) == State(Run(t, State(n, [])).next, below + Run(t, State(n, [])).stack)
    ensures Emitted(t, State(n, below), putchar) == Emitted(t, State(n, []), putchar)
    decreases |t|
  {
    if t != [] {
      var t', c := t[..|t| - 1], t[|t| - 1];
      assert t == t' + [c];
      RunSnoc(t', c, State(n, []), putchar);
      RunSnoc(t', c, State(n, below), putchar);
      RunFrame(t', n, below, putchar);
      RunDepth(t', State(n, []));
      NextFrame(c, Run(t', State(n, [])), below);
    }
  }

  /** One character on top of extra frames. */
  lemma NextFrame(c: char, s: State, below: seq<Branch>)
    requires c == ']' ==> |s.stack| > 0
    ensures Next(c, State(s.next, below + s.stack)) == State(Next(c, s).next, below + Next(c, s).stack)
    ensures forall putchar: nat :: CharOps(c, State(s.next, below + s.stack), putchar) == CharOps(c, s, putchar)
  {
    if c == ']' {
      assert (below + s.stack)[..|below + s.stack| - 1] == below + s.stack[..|s.stack| - 1];
      assert (below + s.stack)[|below + s.stack| - 1] == s.stack[|s.stack| - 1];
    } else if c == '[' {
      assert below + s.stack + [Branch(s.next, s.next + 1)] == below + (s.stack + [Branch(s.next, s.next + 1)]);
    }
  }

  /** `[` binds `begin` at the `cmp`, emits `je end`, and pushes the frame. */
  lemma {:induction false} LoopOpen(st: State, putchar: nat)
    ensures Run("[", st) == State(st.next + 2, st.stack + [Branch(st.next, st.next + 1)])
    ensures Emitted("[", st, putchar) == [BindAt(st.next), Plain(CmpMI8(Rdi, 0)), JccTo(Equal, st.next + 1)]
  {
    assert "[" == [] + ['['];
    RunSnoc([], '[', st, putchar);
  }

  /** `[` followed by a balanced body: the body runs on top of the new frame,
      with labels two further on, and leaves the frame in place. */
  lemma {:induction false} LoopBody(t: string, st: State, putchar: nat)
    requires Balanced(t)
    ensures Emitted("[" + t, st, putchar)
         == [BindAt(st.next), Plain(CmpMI8(Rdi, 0)), JccTo(Equal, st.next + 1)]
            + Emitted(t, State(st.next + 2, []), putchar)
    ensures Run("[" + t, st) == State(st.next + 2 + 2 * Opens(t), st.stack + [Branch(st.next, st.next + 1)])
  {
    var n, below := st.next, st.stack + [Branch(st.next, st.next + 1)];
    var inner := Run(t, State(n + 2, []));
    LoopOpen(st, putchar);
    RunFrame(t, n + 2, below, putchar);
    calc {
      Emitted("[" + t, st, putchar);
      { EmittedAppend("[", t, st, putchar); }
      Emitted("[", st, putchar) + Emitted(t, State(n + 2, below), putchar);
    }
    RunDepth(t, State(n + 2, []));
    assert inner.stack == [];
    calc {
      Run("[" + t, st);
      { RunAppend("[", t, st); }
      Run(t, State(n + 2, below));
      State(inner.next, below + inner.stack);
      { assert below + inner.stack == below; }
      State(inner.next, below);
    }
  }

  /** A loop `[t]` with a balanced body: bind `begin` at the `cmp`, `je end`,
      the body from two labels further on with no frame of its own below it,
      `jmp begin`, bind `end` right after the `jmp`; the frame is popped again. */
  lemma {:induction false} LoopShape(t: string, st: State, putchar: nat)
    requires Balanced(t)
    ensures Emitted("[" + t + "]", st, putchar)
         == [BindAt(st.next), Plain(CmpMI8(Rdi, 0)), JccTo(Equal, st.next + 1)]
            + Emitted(t, State(st.next + 2, []), putchar)
            + [JmpTo(st.next), BindAt(st.next + 1)]
    ensures Run("[" + t + "]", st) == State(st.next + 2 + 2 * Opens(t), st.stack)
  {
    var f := Branch(st.next, st.next + 1);
    LoopBody(t, st, putchar);
    assert "[" + t + "]" == ("[" + t) + [']'];
    assert (st.stack + [f])[..|st.stack + [f]| - 1] == st.stack;
    RunSnoc("[" + t, ']', st, putchar);
  }

  /** More open loops below never cause an underflow. */
  lemma {:induction false} NoUnderflowRaise(code: string, d: nat, d': nat)
    requires NoUnderflow(code, d) && d <= d'
    ensures NoUnderflow(code, d')
    decreases |code|
  {
    if code != [] {
      NoUnderflowRaise(code[..|code| - 1], d, d');
    }
  }

  /** A loop around a balanced body is balanced. */
  lemma {:induction false} LoopBalanced(t: string)
    requires Balanced(t)
    ensures Balanced("[" + t + "]")
  {
    assert "[" + t + "]" == ("[" + t) + [']'];
    assert "["[..0] == [] && "]"[..0] == [];
    NoUnderflowRaise(t, 0, 1);
    NoUnderflowAppend("[", t, 0);
    NoUnderflowAppend("[" + t, "]", 0);
    DepthAppend("[", t);
    DepthAppend("[" + t, "]");
  }

  /** The frames on a branch stack: each a pair of consecutive labels in
      `[lo, hi)`, the inner ones created after the outer ones. */
  predicate Frames(stack: seq<Branch>, lo: nat, hi: nat)
  {
    (forall j :: 0 <= j < |stack| ==> lo <= stack[j].begin && stack[j].end == stack[j].begin + 1 && stack[j].end < hi) &&
    (forall i, j :: 0 <= i < j < |stack| ==> stack[i].end < stack[j].begin)
  }

  /** The branch stack stays a stack of frames. So an inner loop's `end` is
      a different, later label than every enclosing loop's, and is bound
      (at its `]`) before theirs. */
  lemma NextFrames(ch: char, st: State, lo: nat)
    requires Frames(st.stack, lo, st.next) && lo <= st.next
    ensures Frames(Next(ch, st).stack, lo, Next(ch, st).next) && st.next <= Next(ch, st).next
  {
  }

  lemma {:induction false} RunFrames(code: string, st: State, lo: nat)
    requires Frames(st.stack, lo, st.next) && lo <= st.next
    ensures Frames(Run(code, st).stack, lo, Run(code, st).next) && lo <= Run(code, st).next
    decreases |code|
  {
    if code != [] {
      var init, c := code[..|code| - 1], code[|code| - 1];
      RunFrames(init, st, lo);
      NextFrames(c, Run(init, st), lo);
    }
  }

  /** The labels each operation names exist once the characters are run. */
  lemma CharOpsNamed(ch: char, st: State, putchar: nat, lo: nat)
    requires Frames(st.stack, lo, st.next) && putchar < st.next
    ensures Named(CharOps(ch, st, putchar), Next(ch, st).next)
  {
  }

  /** No character binds `putchar`: a `[` binds the label it creates and a
      `]` the `end` of a frame, both created after `putchar`. */
  lemma CharOpsNoBind(ch: char, st: State, putchar: nat)
    requires Frames(st.stack, putchar + 1, st.next) && putchar < st.next
    ensures BindAt(putchar) !in CharOps(ch, st, putchar)
  {
  }

  /** Nor does any program text. */
  lemma {:induction false} EmittedNoBind(code: string, st: State, putchar: nat)
    requires Frames(st.stack, putchar + 1, st.next) && putchar < st.next
    ensures BindAt(putchar) !in Emitted(code, st, putchar)
    decreases |code|
  {
    if code != [] {
      var init := code[..|code| - 1];
      EmittedNoBind(init, st, putchar);
      RunFrames(init, st, putchar + 1);
      CharOpsNoBind(code[|code| - 1], Run(init, st), putchar);
    }
  }

  /** `putchar` is bound once, at the start of the stub after the epilogue,
      so every `call` to it comes before its bind: a forward reference that
      is still pending when it is emitted. */
  lemma PutcharBoundLast(code: string, base: nat, func: i64, i: nat, j: nat)
    requires var ops := Program(code, base, func); i < |ops| && j < |ops| && ops[i] == CallTo(base) && ops[j] == BindAt(base)
    ensures j == |Program(code, base, func)| - 4 && i < j
  {
    var body := PrologueOps() + Emitted(code, State(base + 1, []), base) + EpilogueOps();
    var ops := Program(code, base, func);
    assert ops == body + NativeCallOps(base, func);
    EmittedNoBind(code, State(base + 1, []), base);
    assert BindAt(base) !in body;
  }

  lemma PlainEncodableAppend(a: seq<Op>, b: seq<Op>)
    requires PlainEncodable(a) && PlainEncodable(b)
    ensures PlainEncodable(a + b)
  {
    forall k | 0 <= k < |a + b| && (a + b)[k].Plain?
      ensures Encodable((a + b)[k].instr)
    {
      if k >= |a| {
        assert (a + b)[k] == b[k - |a|];
      }
    }
  }

  /** Whatever the program text, every instruction it emits is encodable. */
  lemma {:induction false} EmittedEncodable(code: string, st: State, putchar: nat)
    ensures PlainEncodable(Emitted(code, st, putchar))
    decreases |code|
  {
    if code != [] {
      var init := code[..|code| - 1];
      EmittedEncodable(init, st, putchar);
      var last := CharOps(code[|code| - 1], Run(init, st), putchar);
      PlainEncodableAppend(Emitted(init, st, putchar), last);
    }
  }

  /** Every instruction `jit_compile` emits, for any program text, is one
      the current draft encodes exactly, so none of the operand forms it
      misencodes ever reaches the buffer. */
  lemma ProgramEncodable(code: string, base: nat, func: i64)
    ensures PlainEncodable(Program(code, base, func))
  {
    var body := Emitted(code, State(base + 1, []), base);
    EmittedEncodable(code, State(base + 1, []), base);
    PlainEncodableAppend(PrologueOps(), body);
    PlainEncodableAppend(PrologueOps() + body, EpilogueOps());
    PlainEncodableAppend(PrologueOps() + body + EpilogueOps(), NativeCallOps(base, func));
  }
}
