/** Where the two branches of a loop land once `jit_compile`'s output is
    finalized: the loop head's `je` goes to the byte right after the
    loop's `jmp`, and the `jmp` goes back to the `cmp`. */
module Loops {
  import opened Bytes
  import opened X86
  import opened Labels
  import opened CodeLayout
  import opened Landing
  import opened JitSpec

  /** Splitting `p[t]q` around its loop. */
  lemma LoopSplit(p: string, t: string, q: string)
    ensures p + "[" + t + "]" + q == (p + ("[" + t + "]")) + q
    ensures p + "[" + t + "]" == p + ("[" + t + "]")
  {
  }

  /** The program `p[t]q` emits the loop's operations as one block after
      those of `p`. */
  lemma {:induction false} LoopEmitted(p: string, t: string, q: string, st0: State, putchar: nat) returns (n: nat)
    requires Balanced(t)
    ensures n == Run(p, st0).next
    ensures Emitted(p + "[" + t + "]" + q, st0, putchar)
      == Emitted(p, st0, putchar)
         + ([BindAt(n), Plain(CmpMI8(Rdi, 0)), JccTo(Equal, n + 1)]
            + Emitted(t, State(n + 2, []), putchar) + [JmpTo(n), BindAt(n + 1)])
         + Emitted(q, Run(p + "[" + t + "]", st0), putchar)
  {
    var w := "[" + t + "]";
    n := Run(p, st0).next;
    LoopSplit(p, t, q);
    EmittedAppend(p + w, q, st0, putchar);
    EmittedAppend(p, w, st0, putchar);
    RunAppend(p, w, st0);
    LoopShape(t, Run(p, st0), putchar);
  }

  /** Indexing into a block in the middle of a stream. */
  lemma IndexMiddle<T>(a: seq<T>, m: seq<T>, b: seq<T>, k: nat)
    requires k < |m|
    ensures (a + m + b)[|a| + k] == m[k]
  {
  }

  /** Operations `cmp - 1 .. cmp + 1` are a loop head (bind `n`, `cmp byte
      [rdi], 0`, `je n + 1`) and `jmp .. jmp + 1` its tail (`jmp n`, bind
      `n + 1`). */
  predicate LoopAt(ops: seq<Op>, cmp: nat, jmp: nat, n: nat)
  {
    1 <= cmp && cmp + 1 < jmp && jmp + 1 < |ops| &&
    ops[cmp - 1] == BindAt(n) && ops[cmp] == Plain(CmpMI8(Rdi, 0)) && ops[cmp + 1] == JccTo(Equal, n + 1) &&
    ops[jmp] == JmpTo(n) && ops[jmp + 1] == BindAt(n + 1)
  }

  /** The branch of `len` bytes at `at`, whose rel32 field starts `head`
      bytes in, lands on `dest`: modulo 2^32, and exactly in a buffer under
      2 GiB. */
  predicate BranchLands(code: seq<byte>, at: nat, head: nat, len: nat, dest: nat)
  {
    head <= len && at + len <= |code| &&
    var field := code[at + head..at + len];
    Wraps(field, at + len, dest) && (|code| < 0x8000_0000 ==> Exact(field, at + len, dest))
  }

  /** The `je` after the `cmp` lands on the byte after the `jmp`. */
  predicate HeadLands(code: seq<byte>, sites: seq<nat>, cmp: nat, jmp: nat)
  {
    cmp + 1 < |sites| && jmp < |sites| && BranchLands(code, sites[cmp + 1], 2, 6, sites[jmp] + 5)
  }

  /** The `jmp` lands on the `cmp`. */
  predicate TailLands(code: seq<byte>, sites: seq<nat>, cmp: nat, jmp: nat)
  {
    cmp < |sites| && jmp < |sites| && BranchLands(code, sites[jmp], 1, 5, sites[cmp])
  }

  /** A loop's two branches land on each other. */
  predicate Lands(code: seq<byte>, sites: seq<nat>, cmp: nat, jmp: nat)
  {
    HeadLands(code, sites, cmp, jmp) && TailLands(code, sites, cmp, jmp)
  }

  /** A loop block between two other streams sits where they leave it. */
  lemma LoopAtMiddle(pre: seq<Op>, body: seq<Op>, post: seq<Op>, n: nat)
    ensures LoopAt(pre + ([BindAt(n), Plain(CmpMI8(Rdi, 0)), JccTo(Equal, n + 1)] + body + [JmpTo(n), BindAt(n + 1)]) + post,
                   |pre| + 1, |pre| + 3 + |body|, n)
  {
    var loop := [BindAt(n), Plain(CmpMI8(Rdi, 0)), JccTo(Equal, n + 1)] + body + [JmpTo(n), BindAt(n + 1)];
    IndexMiddle(pre, loop, post, 0);
    IndexMiddle(pre, loop, post, 1);
    IndexMiddle(pre, loop, post, 2);
    IndexMiddle(pre, loop, post, 3 + |body|);
    IndexMiddle(pre, loop, post, 4 + |body|);
  }

  lemma Regroup<T>(a: seq<T>, b: seq<T>, c: seq<T>, d: seq<T>, e: seq<T>, f: seq<T>)
    ensures a + (b + c + d) + e + f == (a + b) + c + (d + e + f)
  {
  }

  /** Each loop `[t]` in a program puts its head right after what the
      prefix emits and its tail right after its body. */
  lemma LoopInProgramAt(ops: seq<Op>, p: string, t: string, q: string, base: nat, func: i64) returns (cmp: nat, jmp: nat, n: nat)
    requires ops == Program(p + "[" + t + "]" + q, base, func) && Balanced(t)
    ensures n == Run(p, State(base + 1, [])).next
    ensures cmp == |PrologueOps()| + |Emitted(p, State(base + 1, []), base)| + 1
    ensures jmp == cmp + 2 + |Emitted(t, State(n + 2, []), base)|
    ensures LoopAt(ops, cmp, jmp, n)
  {
    var st0 := State(base + 1, []);
    n := LoopEmitted(p, t, q, st0, base);
    var a := Emitted(p, st0, base);
    var body := Emitted(t, State(n + 2, []), base);
    var loop := [BindAt(n), Plain(CmpMI8(Rdi, 0)), JccTo(Equal, n + 1)] + body + [JmpTo(n), BindAt(n + 1)];
    var b := Emitted(q, Run(p + "[" + t + "]", st0), base);
    Regroup(PrologueOps(), a, loop, b, EpilogueOps(), NativeCallOps(base, func));
    LoopAtMiddle(PrologueOps() + a, body, b + EpilogueOps() + NativeCallOps(base, func), n);
    cmp, jmp := |PrologueOps()| + |a| + 1, |PrologueOps()| + |a| + 3 + |body|;
  }

  /** A resolved `jcc` to label `l` at operation `i`: its field (bytes 2 to
      6) added to its end gives `l`'s address `dest`, modulo 2^32, and exactly in a
      buffer under 2 GiB whose labels lie inside it. */
  lemma JccLands(code: seq<byte>, ops: seq<Op>, sites: seq<nat>, labels: seq<Label>, i: nat, cc: Condition, l: nat, dest: nat)
    requires Laid(ops, sites, |code|) && Named(ops, |labels|) && i < |ops| && ops[i] == JccTo(cc, l)
    requires AllResolved(code, ops, sites, labels) && l < |labels| && labels[l].rip == dest && Placed(labels, |code|)
    ensures BranchLands(code, sites[i], 2, 6, dest)
  {
    assert LabelsIn(ops[i], |labels|) && Resolved(code, ops, sites, labels, i);
    FieldLands(code, ops, sites, labels, i);
    if |code| < 0x8000_0000 {
      FieldExact(code, ops, sites, labels, i);
    }
  }

  /** The same for a resolved `jmp` (field at bytes 1 to 5). */
  lemma JmpLands(code: seq<byte>, ops: seq<Op>, sites: seq<nat>, labels: seq<Label>, i: nat, l: nat, dest: nat)
    requires Laid(ops, sites, |code|) && Named(ops, |labels|) && i < |ops| && ops[i] == JmpTo(l)
    requires AllResolved(code, ops, sites, labels) && l < |labels| && labels[l].rip == dest && Placed(labels, |code|)
    ensures BranchLands(code, sites[i], 1, 5, dest)
  {
    assert LabelsIn(ops[i], |labels|) && Resolved(code, ops, sites, labels, i);
    FieldLands(code, ops, sites, labels, i);
    if |code| < 0x8000_0000 {
      FieldExact(code, ops, sites, labels, i);
    }
  }

  /** Where a loop's labels are bound: `begin` at the `cmp`, `end` right
      after the `jmp`. */
  lemma LoopBound(code: seq<byte>, ops: seq<Op>, sites: seq<nat>, labels: seq<Label>, cmp: nat, jmp: nat, n: nat)
    requires Laid(ops, sites, |code|) && LabelsAgree(ops, sites, labels) && LoopAt(ops, cmp, jmp, n)
    ensures n + 1 < |labels| && labels[n] == Label(true, sites[cmp]) && labels[n + 1] == Label(true, sites[jmp] + 5)
  {
    assert LabelsIn(ops[cmp + 1], |labels|);
    assert sites[cmp - 1] + OpLen(ops[cmp - 1]) == StartOf(sites, |code|, cmp);
    assert sites[jmp] + OpLen(ops[jmp]) == StartOf(sites, |code|, jmp + 1);
    assert labels[ops[cmp - 1].lbl] == Label(true, sites[cmp - 1]);
    assert labels[ops[jmp + 1].lbl] == Label(true, sites[jmp + 1]);
  }

  /** The head's `je` of a loop in finalized code, once `end` is known to
      be bound right after the `jmp`. */
  lemma HeadLanding(code: seq<byte>, ops: seq<Op>, sites: seq<nat>, labels: seq<Label>, cmp: nat, jmp: nat, n: nat)
    requires Laid(ops, sites, |code|) && Named(ops, |labels|) && AllResolved(code, ops, sites, labels)
    requires Placed(labels, |code|) && cmp + 1 < |ops| && jmp < |ops| && ops[cmp + 1] == JccTo(Equal, n + 1)
    requires n + 1 < |labels| && labels[n + 1].rip == sites[jmp] + 5
    ensures HeadLands(code, sites, cmp, jmp)
  {
    JccLands(code, ops, sites, labels, cmp + 1, Equal, n + 1, sites[jmp] + 5);
  }

  /** The tail's `jmp`, once `begin` is known to be bound at the `cmp`. */
  lemma TailLanding(code: seq<byte>, ops: seq<Op>, sites: seq<nat>, labels: seq<Label>, cmp: nat, jmp: nat, n: nat)
    requires Laid(ops, sites, |code|) && Named(ops, |labels|) && AllResolved(code, ops, sites, labels)
    requires Placed(labels, |code|) && cmp < |ops| && jmp < |ops| && ops[jmp] == JmpTo(n)
    requires n < |labels| && labels[n].rip == sites[cmp]
    ensures TailLands(code, sites, cmp, jmp)
  {
    JmpLands(code, ops, sites, labels, jmp, n, sites[cmp]);
  }

  /** In finalized code, a loop's head and tail land on each other: its
      `begin` label is bound at the `cmp`, its `end` right after the `jmp`,
      and the branches' displacements say so. */
  lemma LoopLands(code: seq<byte>, ops: seq<Op>, sites: seq<nat>, labels: seq<Label>, cmp: nat, jmp: nat, n: nat)
    requires Laid(ops, sites, |code|) && Named(ops, |labels|) && AllResolved(code, ops, sites, labels)
    requires LabelsAgree(ops, sites, labels) && Placed(labels, |code|)
    requires LoopAt(ops, cmp, jmp, n)
    ensures n + 1 < |labels| && labels[n] == Label(true, sites[cmp]) && labels[n + 1] == Label(true, sites[jmp] + 5)
    ensures Lands(code, sites, cmp, jmp)
  {
    LoopBound(code, ops, sites, labels, cmp, jmp, n);
    HeadLanding(code, ops, sites, labels, cmp, jmp, n);
    TailLanding(code, ops, sites, labels, cmp, jmp, n);
  }
}
