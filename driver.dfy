/** What `jit_execute` does before it copies the code out and calls it: a
    fresh `X86Assembler`, `jit_compile` on the program, then `finalize()`.
    The result is the whole program's stream, laid out in the buffer with
    every field written, and every loop's branches landing on each other. */
module Driver {
  import opened Bytes
  import opened X86
  import opened Labels
  import opened CodeLayout
  import opened X86Asm
  import opened JitSpec
  import opened Jit
  import opened Loops

  /** Translating `source` with `putchar` at `func`. The code is the
      program's operations, each at its site, all resolved; every label is
      bound where its `BindAt` stands, and, for a balanced program, every
      label is bound: the `putchar` one by the stub, the loop ones by their
      brackets. */
  method Compile(source: string, func: u64) returns (cc: X86Assembler, code: seq<byte>)
    requires NoUnderflow(source, 0)
    ensures fresh(cc) && fresh(cc.buf)
    ensures cc.ops == Program(source, 0, AsI64(func)) && code == cc.buf.storage
    ensures |cc.labels| == 1 + 2 * Opens(source) && cc.patches == []
    ensures Laid(cc.ops, cc.sites, |code|) && Named(cc.ops, |cc.labels|)
    ensures AllResolved(code, cc.ops, cc.sites, cc.labels)
    ensures LabelsAgree(cc.ops, cc.sites, cc.labels) && Placed(cc.labels, |code|)
    ensures Depth(source) == 0 ==> forall l :: 0 <= l < |cc.labels| ==> cc.labels[l].isBound
  {
    cc := new X86Assembler();
    JitCompile(cc, source, func);
    code := cc.Finalize();
  }

  /** In a compiled program `p[t]q` whose loop body `t` is balanced, the
      loop's `je` lands right after its `jmp` and the `jmp` lands on its
      `cmp`. */
  lemma CompiledLoopLands(code: seq<byte>, ops: seq<Op>, sites: seq<nat>, labels: seq<Label>,
                          p: string, t: string, q: string, base: nat, func: i64) returns (cmp: nat, jmp: nat, n: nat)
    requires ops == Program(p + "[" + t + "]" + q, base, func) && Balanced(t)
    requires Laid(ops, sites, |code|) && Named(ops, |labels|) && AllResolved(code, ops, sites, labels)
    requires LabelsAgree(ops, sites, labels) && Placed(labels, |code|)
    ensures n == Run(p, State(base + 1, [])).next
    ensures cmp == |PrologueOps()| + |Emitted(p, State(base + 1, []), base)| + 1
    ensures jmp == cmp + 2 + |Emitted(t, State(n + 2, []), base)|
    ensures LoopAt(ops, cmp, jmp, n) && Lands(code, sites, cmp, jmp)
    ensures n + 1 < |labels| && labels[n] == Label(true, sites[cmp]) && labels[n + 1] == Label(true, sites[jmp] + 5)
  {
    cmp, jmp, n := LoopInProgramAt(ops, p, t, q, base, func);
    LoopLands(code, ops, sites, labels, cmp, jmp, n);
  }
}
