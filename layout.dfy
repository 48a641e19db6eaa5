/** The symbolic view of what the current draft's assembler has emitted:
    a stream of operations, each an instruction, a branch or call to a label,
    or the binding of a label at the current position. `OpBytes` is the byte
    string an operation stands for once every label is where it will be; the
    predicates below say how the real buffer relates to that, and the lemmas
    that each assembler step (append, bind, patch) keeps the relation. */
module CodeLayout {
  import opened Bytes
  import opened X86
  import opened Labels

  datatype Op =
    | Plain(instr: Instr)
    | JccTo(cc: Condition, target: nat)
    | JmpTo(target: nat)
    | CallTo(target: nat)
    | BindAt(lbl: nat)

  predicate IsBranch(op: Op)
  {
    op.JccTo? || op.JmpTo? || op.CallTo?
  }

  /** The number of bytes an operation occupies. */
  function OpLen(op: Op): nat
  {
    match op
    case Plain(i) => Length(i)
    case JccTo(_, _) => 6
    case JmpTo(_) => 5
    case CallTo(_) => 5
    case BindAt(_) => 0
  }

  /** Where the rel32 field of a branch starts inside it (4 bytes, at the end). */
  function FieldStart(op: Op): nat
  {
    if IsBranch(op) then OpLen(op) - 4 else OpLen(op)
  }

  function FieldWidth(op: Op): nat
  {
    if IsBranch(op) then 4 else 0
  }

  /** Every label the operation names is one of the first `n`. */
  predicate LabelsIn(op: Op, n: nat)
  {
    match op
    case Plain(_) => true
    case JccTo(_, t) => t < n
    case JmpTo(t) => t < n
    case CallTo(t) => t < n
    case BindAt(l) => l < n
  }

  function Target(op: Op): nat
    requires IsBranch(op)
  {
    match op
    case JccTo(_, t) => t
    case JmpTo(t) => t
    case CallTo(t) => t
  }

  /** The opcode bytes of a branch, before its rel32 field. */
  function BranchHead(op: Op): (h: seq<byte>)
    requires IsBranch(op)
    ensures |h| == FieldStart(op)
  {
    match op
    case JccTo(cc, _) => [0x0F, 0x80 + CondCode(cc)]
    case JmpTo(_) => [0xE9]
    case CallTo(_) => [0xE8]
  }

  /** The 4 bytes of a branch's rel32 field when its target is at `l`:
      `relative_to(rip, len)` truncated to 32 bits. */
  function Field(l: Label, site: nat, len: nat): (f: seq<byte>)
    ensures |f| == 4
  {
    ToBytes(RelativeTo(l, site, len), 4)
  }

  /** The bytes of `op` at offset `site`, with branch displacements computed
      from `labels` (an unbound label has address 0, as a fresh `Label` does). */
  function OpBytes(op: Op, site: nat, labels: seq<Label>): (b: seq<byte>)
    requires LabelsIn(op, |labels|)
    ensures |b| == OpLen(op)
  {
    match op
    case Plain(i) => EncodeLength(i); Encode(i)
    case BindAt(_) => []
    case _ => BranchHead(op) + Field(labels[Target(op)], site, OpLen(op))
  }

  /** The rel32 that `emit_jcc`, `emit_jmp` and `emit_call` pass to `emit<int32_t>`:
      `relative_to` narrowed to `int32_t`. */
  function Rel32(l: Label, site: nat, len: nat): (r: i32)
    ensures ToBytes(r, 4) == Field(l, site, len)
  {
    Pow256Values();
    Narrow(RelativeTo(l, site, len), 4)
  }

  /** A branch's bytes are the instruction the encoder emits with that rel32. */
  lemma OpBytesEncode(op: Op, site: nat, labels: seq<Label>)
    requires IsBranch(op) && LabelsIn(op, |labels|)
    ensures var rel := Rel32(labels[Target(op)], site, OpLen(op));
      OpBytes(op, site, labels) == Encode(match op
        case JccTo(cc, _) => Jcc(cc, rel)
        case JmpTo(_) => Jmp(rel)
        case CallTo(_) => Call(rel))
  {
  }

  /** The bytes `emit_jcc` appends, read three ways: the instruction with
      its rel32, the operation's bytes, and the opcode then the field. */
  lemma JccOpBytes(cc: Condition, l: nat, site: nat, labels: seq<Label>)
    requires l < |labels|
    ensures var r := Rel32(labels[l], site, 6);
      OpBytes(JccTo(cc, l), site, labels) == Encode(Jcc(cc, r)) &&
      Encode(Jcc(cc, r)) == [0x0F, 0x80 + CondCode(cc)] + ToBytes(Narrow(RelativeTo(labels[l], site, 6), 4), 4)
  {
    Pow256Values();
  }

  /** Relabelling changes an operation's bytes only inside its rel32 field,
      and, when the branch's own target keeps its address, not at all. */
  lemma OpBytesRelabel(op: Op, site: nat, labels: seq<Label>, labels': seq<Label>)
    requires LabelsIn(op, |labels|) && |labels'| == |labels|
    ensures SameOutside(OpBytes(op, site, labels), OpBytes(op, site, labels'), FieldStart(op), FieldWidth(op))
    ensures (!IsBranch(op) || labels'[Target(op)] == labels[Target(op)]) ==>
      OpBytes(op, site, labels') == OpBytes(op, site, labels)
  {
    if IsBranch(op) {
      var a, b := OpBytes(op, site, labels), OpBytes(op, site, labels');
      forall k | 0 <= k < FieldStart(op) ensures a[k] == b[k] {
        assert a[k] == BranchHead(op)[k] == b[k];
      }
    }
  }

  /** The field of a branch's bytes holds exactly the displacement to its target. */
  lemma OpBytesField(op: Op, site: nat, labels: seq<Label>)
    requires IsBranch(op) && LabelsIn(op, |labels|)
    ensures OpBytes(op, site, labels)[FieldStart(op)..] == Field(labels[Target(op)], site, OpLen(op))
  {
  }

  /** `a` and `b` have the same length and agree outside `[lo, lo + w)`. */
  predicate SameOutside(a: seq<byte>, b: seq<byte>, lo: nat, w: nat)
  {
    |a| == |b| && lo + w <= |a| &&
    forall k :: 0 <= k < |a| && !(lo <= k < lo + w) ==> a[k] == b[k]
  }

  /** Filling the differing range of `a` with `b`'s bytes there gives `b`. */
  lemma FillField(a: seq<byte>, b: seq<byte>, lo: nat, w: nat, f: seq<byte>)
    requires SameOutside(a, b, lo, w) && |f| == w && b[lo..lo + w] == f
    ensures Overwrite(a, lo, f) == b
  {
    var r := Overwrite(a, lo, f);
    forall k | 0 <= k < |b| ensures r[k] == b[k] {
      OverwriteAt(a, lo, f, k);
    }
  }

  /** Where operation `j` starts, or the end `n` of the buffer after the last. */
  function StartOf(sites: seq<nat>, n: nat, j: nat): nat
  {
    if j < |sites| then sites[j] else n
  }

  /** `sites[i]` is the offset at which operation `i` starts in a buffer of
      `n` bytes: the first at 0, each right after the one before, the last
      ending at `n`. */
  predicate Laid(ops: seq<Op>, sites: seq<nat>, n: nat)
  {
    |sites| == |ops| && StartOf(sites, n, 0) == 0 &&
    (forall i {:trigger ops[i]} :: 0 <= i < |ops| ==> sites[i] + OpLen(ops[i]) == StartOf(sites, n, i + 1)) &&
    (forall i :: 0 <= i < |ops| ==> sites[i] + OpLen(ops[i]) <= n)
  }

  /** Appending an operation at the end keeps the layout. */
  lemma LaidAppend(ops: seq<Op>, sites: seq<nat>, n: nat, op: Op)
    requires Laid(ops, sites, n)
    ensures Laid(ops + [op], sites + [n], n + OpLen(op))
  {
    var ops', sites' := ops + [op], sites + [n];
    forall i | 0 <= i < |ops'| ensures sites'[i] + OpLen(ops'[i]) == StartOf(sites', n + OpLen(op), i + 1) {
      if i < |ops| {
        assert ops'[i] == ops[i] && sites'[i] == sites[i];
      }
    }
  }

  /** Operations `i < j` occupy disjoint byte ranges. */
  lemma {:induction false} Disjoint(ops: seq<Op>, sites: seq<nat>, n: nat, i: nat, j: nat)
    requires Laid(ops, sites, n) && i < j < |ops|
    ensures sites[i] + OpLen(ops[i]) <= sites[j]
    decreases j - i
  {
    assert sites[i] + OpLen(ops[i]) == StartOf(sites, n, i + 1) == sites[i + 1];
    if i + 1 < j {
      Disjoint(ops, sites, n, i + 1, j);
      assert sites[i + 1] <= sites[i + 1] + OpLen(ops[i + 1]);
    }
  }

  /** The bytes of the buffer that operation `i` occupies. */
  function Chunk(code: seq<byte>, ops: seq<Op>, sites: seq<nat>, i: nat): (c: seq<byte>)
    requires Laid(ops, sites, |code|) && i < |ops|
    ensures |c| == OpLen(ops[i])
  {
    code[sites[i]..sites[i] + OpLen(ops[i])]
  }

  /** The labels the stream names all exist. */
  predicate Named(ops: seq<Op>, n: nat)
  {
    forall i :: 0 <= i < |ops| ==> LabelsIn(ops[i], n)
  }

  /** The buffer holds the stream: each operation's bytes are right except
      possibly inside its rel32 field. */
  predicate Shaped(code: seq<byte>, ops: seq<Op>, sites: seq<nat>, labels: seq<Label>)
  {
    Laid(ops, sites, |code|) && Named(ops, |labels|) &&
    forall i :: 0 <= i < |ops| ==>
      SameOutside(Chunk(code, ops, sites, i), OpBytes(ops[i], sites[i], labels), FieldStart(ops[i]), FieldWidth(ops[i]))
  }

  /** Operation `i`'s bytes are exactly right, its field included. */
  predicate Resolved(code: seq<byte>, ops: seq<Op>, sites: seq<nat>, labels: seq<Label>, i: nat)
    requires Laid(ops, sites, |code|) && Named(ops, |labels|) && i < |ops|
  {
    Chunk(code, ops, sites, i) == OpBytes(ops[i], sites[i], labels)
  }

  /** Every operation is resolved or waiting in `pending`. */
  predicate Consistent(code: seq<byte>, ops: seq<Op>, sites: seq<nat>, labels: seq<Label>, pending: seq<nat>)
    requires Laid(ops, sites, |code|) && Named(ops, |labels|)
  {
    forall i :: 0 <= i < |ops| ==> Resolved(code, ops, sites, labels, i) || i in pending
  }

  /** Every operation is resolved. */
  predicate AllResolved(code: seq<byte>, ops: seq<Op>, sites: seq<nat>, labels: seq<Label>)
    requires Laid(ops, sites, |code|) && Named(ops, |labels|)
  {
    forall i :: 0 <= i < |ops| ==> Resolved(code, ops, sites, labels, i)
  }

  /** Every branch to a label not yet bound is waiting in `pending`. */
  predicate Tracking(ops: seq<Op>, labels: seq<Label>, pending: seq<nat>)
    requires Named(ops, |labels|)
  {
    forall i :: 0 <= i < |ops| && IsBranch(ops[i]) && !labels[Target(ops[i])].isBound ==> i in pending
  }

  /** Each `BindAt(l)` in the stream is where `l` is bound; unbound labels are at 0. */
  predicate LabelsAgree(ops: seq<Op>, sites: seq<nat>, labels: seq<Label>)
  {
    |sites| == |ops| && Named(ops, |labels|) &&
    (forall l :: 0 <= l < |labels| && !labels[l].isBound ==> labels[l].rip == 0) &&
    (forall i :: 0 <= i < |ops| && ops[i].BindAt? ==> labels[ops[i].lbl] == Label(true, sites[i]))
  }

  lemma SliceOfAppend(a: seq<byte>, b: seq<byte>)
    ensures (a + b)[|a|..|a| + |b|] == b
  {
  }

  lemma SliceOfAppendLeft(a: seq<byte>, b: seq<byte>, lo: nat, hi: nat)
    requires lo <= hi <= |a|
    ensures (a + b)[lo..hi] == a[lo..hi]
  {
  }

  /** Appending an operation leaves the earlier operations' bytes alone and
      gives the new one the appended bytes. */
  lemma ChunkAppend(code: seq<byte>, ops: seq<Op>, sites: seq<nat>, op: Op, tail: seq<byte>, i: nat)
    requires Laid(ops, sites, |code|) && |tail| == OpLen(op) && i <= |ops|
    ensures Laid(ops + [op], sites + [|code|], |code + tail|)
    ensures (ops + [op])[i] == (if i < |ops| then ops[i] else op)
    ensures (sites + [|code|])[i] == (if i < |ops| then sites[i] else |code|)
    ensures Chunk(code + tail, ops + [op], sites + [|code|], i) == if i < |ops| then Chunk(code, ops, sites, i) else tail
  {
    LaidAppend(ops, sites, |code|, op);
    if i < |ops| {
      SliceOfAppendLeft(code, tail, sites[i], sites[i] + OpLen(ops[i]));
    } else {
      SliceOfAppend(code, tail);
    }
  }

  /** Appending an operation's bytes keeps the buffer in shape. */
  lemma AppendShaped(code: seq<byte>, ops: seq<Op>, sites: seq<nat>, labels: seq<Label>, op: Op)
    requires Shaped(code, ops, sites, labels) && LabelsIn(op, |labels|)
    ensures Shaped(code + OpBytes(op, |code|, labels), ops + [op], sites + [|code|], labels)
  {
    var tail := OpBytes(op, |code|, labels);
    var code', ops', sites' := code + tail, ops + [op], sites + [|code|];
    LaidAppend(ops, sites, |code|, op);
    forall i | 0 <= i < |ops'|
      ensures SameOutside(Chunk(code', ops', sites', i), OpBytes(ops'[i], sites'[i], labels), FieldStart(ops'[i]), FieldWidth(ops'[i]))
    {
      AppendShapedAt(code, ops, sites, labels, op, i);
    }
  }

  /** One operation of the longer stream: an old one keeps its chunk, the
      new one has its bytes just appended. */
  lemma AppendShapedAt(code: seq<byte>, ops: seq<Op>, sites: seq<nat>, labels: seq<Label>, op: Op, i: nat)
    requires Shaped(code, ops, sites, labels) && LabelsIn(op, |labels|) && i <= |ops|
    ensures Laid(ops + [op], sites + [|code|], |code + OpBytes(op, |code|, labels)|)
    ensures var code', ops', sites' := code + OpBytes(op, |code|, labels), ops + [op], sites + [|code|];
      LabelsIn(ops'[i], |labels|) &&
      SameOutside(Chunk(code', ops', sites', i), OpBytes(ops'[i], sites'[i], labels), FieldStart(ops'[i]), FieldWidth(ops'[i]))
  {
    var tail := OpBytes(op, |code|, labels);
    ChunkAppend(code, ops, sites, op, tail, i);
    if i < |ops| {
      assert LabelsIn(ops[i], |labels|);
      assert SameOutside(Chunk(code, ops, sites, i), OpBytes(ops[i], sites[i], labels), FieldStart(ops[i]), FieldWidth(ops[i]));
    }
  }

  /** The pending list after appending `op` as operation `n`: extended when
      `op` is a branch to a label not yet bound, as `add_backpatch` does. */
  function PendingAfter(pending: seq<nat>, n: nat, op: Op, labels: seq<Label>): seq<nat>
    requires LabelsIn(op, |labels|)
  {
    if IsBranch(op) && !labels[Target(op)].isBound then pending + [n] else pending
  }

  /** Appending keeps consistency, with `pending` as `PendingAfter` says. */
  lemma AppendConsistent(code: seq<byte>, ops: seq<Op>, sites: seq<nat>, labels: seq<Label>, pending: seq<nat>, op: Op)
    requires Shaped(code, ops, sites, labels) && LabelsIn(op, |labels|)
    requires Consistent(code, ops, sites, labels, pending)
    ensures Shaped(code + OpBytes(op, |code|, labels), ops + [op], sites + [|code|], labels)
    ensures Consistent(code + OpBytes(op, |code|, labels), ops + [op], sites + [|code|], labels, PendingAfter(pending, |ops|, op, labels))
  {
    var tail := OpBytes(op, |code|, labels);
    var code', ops', sites' := code + tail, ops + [op], sites + [|code|];
    var pending' := PendingAfter(pending, |ops|, op, labels);
    AppendShaped(code, ops, sites, labels, op);
    forall i | 0 <= i < |ops'| ensures Resolved(code', ops', sites', labels, i) || i in pending' {
      ChunkAppend(code, ops, sites, op, tail, i);
    }
  }

  /** Appending keeps the tracking of branches to unbound labels. */
  lemma AppendTracking(ops: seq<Op>, labels: seq<Label>, pending: seq<nat>, op: Op)
    requires Named(ops, |labels|) && LabelsIn(op, |labels|) && Tracking(ops, labels, pending)
    ensures Named(ops + [op], |labels|)
    ensures Tracking(ops + [op], labels, PendingAfter(pending, |ops|, op, labels))
  {
    var ops' := ops + [op];
    forall i | 0 <= i < |ops'| && IsBranch(ops'[i]) && !labels[Target(ops'[i])].isBound
      ensures i in PendingAfter(pending, |ops|, op, labels)
    {
      if i < |ops| {
        assert ops'[i] == ops[i];
      }
    }
  }

  /** Appending anything but a bind keeps the labels where their binds are. */
  lemma AppendLabelsAgree(ops: seq<Op>, sites: seq<nat>, labels: seq<Label>, op: Op, site: nat)
    requires LabelsAgree(ops, sites, labels) && LabelsIn(op, |labels|) && !op.BindAt?
    ensures LabelsAgree(ops + [op], sites + [site], labels)
  {
    var ops', sites' := ops + [op], sites + [site];
    forall i | 0 <= i < |ops'| && ops'[i].BindAt? ensures labels[ops'[i].lbl] == Label(true, sites'[i]) {
      assert ops'[i] == ops[i] && sites'[i] == sites[i];
    }
  }

  lemma NamedAppend(ops: seq<Op>, n: nat, op: Op)
    requires Named(ops, n) && LabelsIn(op, n)
    ensures Named(ops + [op], n)
  {
    forall i | 0 <= i < |ops| + 1 ensures LabelsIn((ops + [op])[i], n) {
      if i < |ops| {
        assert (ops + [op])[i] == ops[i];
      }
    }
  }

  /** One operation's bytes after binding label `l` at the end of the buffer. */
  lemma BindChunk(code: seq<byte>, ops: seq<Op>, sites: seq<nat>, labels: seq<Label>, l: nat, i: nat)
    requires Shaped(code, ops, sites, labels) && l < |labels| && i <= |ops|
    ensures Laid(ops + [BindAt(l)], sites + [|code|], |code|)
    ensures LabelsIn((ops + [BindAt(l)])[i], |labels|)
    ensures SameOutside(Chunk(code, ops + [BindAt(l)], sites + [|code|], i),
      OpBytes((ops + [BindAt(l)])[i], (sites + [|code|])[i], labels[l := Bind(labels[l], |code|)]),
      FieldStart((ops + [BindAt(l)])[i]), FieldWidth((ops + [BindAt(l)])[i]))
  {
    assert code + [] == code;
    ChunkAppend(code, ops, sites, BindAt(l), [], i);
    if i < |ops| {
      RelabelSameOutside(Chunk(code, ops, sites, i), ops[i], sites[i], labels, labels[l := Bind(labels[l], |code|)]);
    }
  }

  /** Binding label `l` at the end of the buffer: the stream gains `BindAt(l)`
      and the label its address; the buffer keeps its shape. */
  lemma BindShaped(code: seq<byte>, ops: seq<Op>, sites: seq<nat>, labels: seq<Label>, l: nat)
    requires Shaped(code, ops, sites, labels) && l < |labels|
    ensures Shaped(code, ops + [BindAt(l)], sites + [|code|], labels[l := Bind(labels[l], |code|)])
  {
    var ops', sites', labels' := ops + [BindAt(l)], sites + [|code|], labels[l := Bind(labels[l], |code|)];
    LaidAppend(ops, sites, |code|, BindAt(l));
    NamedAppend(ops, |labels|, BindAt(l));
    forall i | 0 <= i < |ops'|
      ensures SameOutside(Chunk(code, ops', sites', i), OpBytes(ops'[i], sites'[i], labels'), FieldStart(ops'[i]), FieldWidth(ops'[i]))
    {
      BindChunk(code, ops, sites, labels, l, i);
    }
  }

  /** Bytes that agree with an operation's outside its field still do after relabelling. */
  lemma RelabelSameOutside(c: seq<byte>, op: Op, site: nat, labels: seq<Label>, labels': seq<Label>)
    requires LabelsIn(op, |labels|) && |labels'| == |labels|
    requires SameOutside(c, OpBytes(op, site, labels), FieldStart(op), FieldWidth(op))
    ensures SameOutside(c, OpBytes(op, site, labels'), FieldStart(op), FieldWidth(op))
  {
    OpBytesRelabel(op, site, labels, labels');
  }

  /** An operation that is not pending stays resolved when `l` is bound,
      because every branch to `l` is pending. */
  lemma BindResolved(code: seq<byte>, ops: seq<Op>, sites: seq<nat>, labels: seq<Label>, pending: seq<nat>, l: nat, i: nat)
    requires Shaped(code, ops, sites, labels) && l < |labels| && !labels[l].isBound
    requires Consistent(code, ops, sites, labels, pending) && Tracking(ops, labels, pending)
    requires i <= |ops| && i !in pending
    requires Laid(ops + [BindAt(l)], sites + [|code|], |code|) && Named(ops + [BindAt(l)], |labels|)
    ensures Resolved(code, ops + [BindAt(l)], sites + [|code|], labels[l := Bind(labels[l], |code|)], i)
  {
    var labels' := labels[l := Bind(labels[l], |code|)];
    ChunkAppend(code, ops, sites, BindAt(l), [], i);
    assert code + [] == code;
    if i < |ops| {
      OpBytesRelabel(ops[i], sites[i], labels, labels');
      assert Resolved(code, ops, sites, labels, i);
    }
  }

  /** A branch resolved before the bind stays resolved, because every branch
      to the label being bound is still pending. */
  lemma BindConsistent(code: seq<byte>, ops: seq<Op>, sites: seq<nat>, labels: seq<Label>, pending: seq<nat>, l: nat)
    requires Shaped(code, ops, sites, labels) && l < |labels| && !labels[l].isBound
    requires Consistent(code, ops, sites, labels, pending) && Tracking(ops, labels, pending)
    ensures Shaped(code, ops + [BindAt(l)], sites + [|code|], labels[l := Bind(labels[l], |code|)])
    ensures Consistent(code, ops + [BindAt(l)], sites + [|code|], labels[l := Bind(labels[l], |code|)], pending)
  {
    var ops', sites', labels' := ops + [BindAt(l)], sites + [|code|], labels[l := Bind(labels[l], |code|)];
    BindShaped(code, ops, sites, labels, l);
    NamedAppend(ops, |labels|, BindAt(l));
    forall i | 0 <= i < |ops'| && i !in pending ensures Resolved(code, ops', sites', labels', i) {
      BindResolved(code, ops, sites, labels, pending, l, i);
    }
  }

  /** Binding keeps the tracking of branches to unbound labels. */
  lemma BindTracking(ops: seq<Op>, labels: seq<Label>, pending: seq<nat>, l: nat, rip: nat)
    requires Named(ops, |labels|) && l < |labels| && Tracking(ops, labels, pending)
    ensures Named(ops + [BindAt(l)], |labels|)
    ensures Tracking(ops + [BindAt(l)], labels[l := Bind(labels[l], rip)], pending)
  {
    var ops', labels' := ops + [BindAt(l)], labels[l := Bind(labels[l], rip)];
    forall i | 0 <= i < |ops'| && IsBranch(ops'[i]) && !labels'[Target(ops'[i])].isBound ensures i in pending {
      assert ops'[i] == ops[i];
    }
  }

  /** Binding records the label's address where its `BindAt` stands. */
  lemma BindLabelsAgree(ops: seq<Op>, sites: seq<nat>, labels: seq<Label>, l: nat, rip: nat)
    requires l < |labels| && !labels[l].isBound && LabelsAgree(ops, sites, labels)
    ensures LabelsAgree(ops + [BindAt(l)], sites + [rip], labels[l := Bind(labels[l], rip)])
  {
    var ops', sites', labels' := ops + [BindAt(l)], sites + [rip], labels[l := Bind(labels[l], rip)];
    forall i | 0 <= i < |ops'| && ops'[i].BindAt? ensures labels'[ops'[i].lbl] == Label(true, sites'[i]) {
      if i < |ops| {
        assert ops'[i] == ops[i] && sites'[i] == sites[i];
        assert labels[ops[i].lbl].isBound;
      }
    }
  }

  /** `BackPatch`: a rel32 field still to be written once its label is bound. */
  datatype BackPatch = BackPatch(target: nat, rip: nat, len: nat, size: nat, offset: int)

  /** The patch `add_backpatch` records for branch `i`: the branch's start,
      length, a 4-byte field at its end. */
  function PatchFor(ops: seq<Op>, sites: seq<nat>, i: nat): (p: BackPatch)
    requires |sites| == |ops| && i < |ops| && IsBranch(ops[i])
    ensures p.size == 4 && p.offset == FieldStart(ops[i]) && p.len == OpLen(ops[i]) && p.rip == sites[i]
  {
    BackPatch(Target(ops[i]), sites[i], OpLen(ops[i]), 4, FieldStart(ops[i]))
  }

  /** Patch `j` belongs to the branch `pending[j]`. */
  predicate PatchesMatch(ops: seq<Op>, sites: seq<nat>, patches: seq<BackPatch>, pending: seq<nat>)
  {
    |sites| == |ops| && |pending| == |patches| &&
    forall j :: 0 <= j < |patches| ==>
      pending[j] < |ops| && IsBranch(ops[pending[j]]) && patches[j] == PatchFor(ops, sites, pending[j])
  }

  /** The patch names an existing label, has one of the sizes `backpatch`
      handles, and its field lies inside a buffer of `n` bytes. */
  predicate PatchFits(p: BackPatch, n: nat, labelCount: nat)
  {
    p.target < labelCount && p.size in {1, 2, 4} && 0 <= p.rip + p.offset && p.rip + p.offset + p.size <= n
  }

  predicate PatchesFit(patches: seq<BackPatch>, n: nat, labelCount: nat)
  {
    forall j :: 0 <= j < |patches| ==> PatchFits(patches[j], n, labelCount)
  }

  /** The bytes a patch writes: `disp` truncated to the field's width. */
  function PatchBytes(p: BackPatch, labels: seq<Label>): (b: seq<byte>)
    requires p.target < |labels|
    ensures |b| == p.size
  {
    ToBytes(RelativeTo(labels[p.target], p.rip, p.len), p.size)
  }

  /** The buffer after the patches have been written in order. */
  function ApplyPatches(code: seq<byte>, patches: seq<BackPatch>, labels: seq<Label>): (r: seq<byte>)
    requires PatchesFit(patches, |code|, |labels|)
    ensures |r| == |code|
    decreases |patches|
  {
    if |patches| == 0 then code
    else
      var p := patches[0];
      ApplyPatches(Overwrite(code, p.rip + p.offset, PatchBytes(p, labels)), patches[1..], labels)
  }

  /** Every suffix of a list of fitting patches fits. */
  lemma PatchesFitSuffix(patches: seq<BackPatch>, n: nat, labelCount: nat, k: nat)
    requires PatchesFit(patches, n, labelCount) && k <= |patches|
    ensures PatchesFit(patches[k..], n, labelCount)
  {
    forall j | 0 <= j < |patches[k..]| ensures PatchFits(patches[k..][j], n, labelCount) {
      assert patches[k..][j] == patches[k + j];
    }
  }

  /** Writing the patches from `k` on is writing patch `k`, then those after it. */
  lemma ApplyPatchesStep(code: seq<byte>, patches: seq<BackPatch>, labels: seq<Label>, k: nat)
    requires PatchesFit(patches, |code|, |labels|) && k < |patches|
    ensures PatchesFit(patches[k..], |code|, |labels|) && PatchesFit(patches[k + 1..], |code|, |labels|)
    ensures ApplyPatches(code, patches[k..], labels)
         == ApplyPatches(Overwrite(code, patches[k].rip + patches[k].offset, PatchBytes(patches[k], labels)), patches[k + 1..], labels)
  {
    PatchesFitSuffix(patches, |code|, |labels|, k);
    PatchesFitSuffix(patches, |code|, |labels|, k + 1);
    assert patches[k..][0] == patches[k] && patches[k..][1..] == patches[k + 1..];
  }

  /** Writing patches changes no byte outside their fields. */
  lemma {:induction false} ApplyPatchesOutside(code: seq<byte>, patches: seq<BackPatch>, labels: seq<Label>, k: nat)
    requires PatchesFit(patches, |code|, |labels|) && k < |code|
    requires forall j :: 0 <= j < |patches| ==> !(patches[j].rip + patches[j].offset <= k < patches[j].rip + patches[j].offset + patches[j].size)
    ensures ApplyPatches(code, patches, labels)[k] == code[k]
    decreases |patches|
  {
    if |patches| != 0 {
      var p := patches[0];
      var c := Overwrite(code, p.rip + p.offset, PatchBytes(p, labels));
      OverwriteAt(code, p.rip + p.offset, PatchBytes(p, labels), k);
      ApplyPatchesOutside(c, patches[1..], labels, k);
    }
  }

  /** A pending branch's patch lies inside its own bytes, at its field. */
  lemma MatchFits(code: seq<byte>, ops: seq<Op>, sites: seq<nat>, labels: seq<Label>, patches: seq<BackPatch>, pending: seq<nat>)
    requires Laid(ops, sites, |code|) && Named(ops, |labels|) && PatchesMatch(ops, sites, patches, pending)
    ensures PatchesFit(patches, |code|, |labels|)
  {
  }

  /** Overwriting inside a slice is overwriting the slice. */
  lemma SliceOverwriteInside(s: seq<byte>, a: nat, b: nat, lo: nat, f: seq<byte>)
    requires a <= lo && lo + |f| <= b <= |s|
    ensures Overwrite(s, lo, f)[a..b] == Overwrite(s[a..b], lo - a, f)
  {
    var l, r := Overwrite(s, lo, f)[a..b], Overwrite(s[a..b], lo - a, f);
    forall k | 0 <= k < b - a ensures l[k] == r[k] {
      OverwriteAt(s, lo, f, a + k);
      OverwriteAt(s[a..b], lo - a, f, k);
    }
  }

  /** Overwriting outside a slice leaves the slice alone. */
  lemma SliceOverwriteOutside(s: seq<byte>, a: nat, b: nat, lo: nat, f: seq<byte>)
    requires a <= b <= |s| && lo + |f| <= |s| && (lo + |f| <= a || b <= lo)
    ensures Overwrite(s, lo, f)[a..b] == s[a..b]
  {
    forall k | a <= k < b ensures Overwrite(s, lo, f)[k] == s[k] {
      OverwriteAt(s, lo, f, k);
    }
  }

  /** Filling the one differing range of a slice of `s` with the bytes of
      `b` there makes the slice `b`. */
  lemma FillSlice(s: seq<byte>, at: nat, b: seq<byte>, lo: nat, f: seq<byte>)
    requires at + |b| <= |s| && SameOutside(s[at..at + |b|], b, lo, |f|) && b[lo..lo + |f|] == f
    ensures at + lo + |f| <= |s|
    ensures Overwrite(s, at + lo, f)[at..at + |b|] == b
  {
    SliceOverwriteInside(s, at, at + |b|, at + lo, f);
    FillField(s[at..at + |b|], b, lo, |f|, f);
  }

  /** Writing branch `i0`'s displacement into its field resolves it. */
  lemma FieldWriteSelf(code: seq<byte>, ops: seq<Op>, sites: seq<nat>, labels: seq<Label>, i0: nat)
    requires Laid(ops, sites, |code|) && Named(ops, |labels|) && i0 < |ops| && IsBranch(ops[i0])
    requires SameOutside(Chunk(code, ops, sites, i0), OpBytes(ops[i0], sites[i0], labels), FieldStart(ops[i0]), 4)
    ensures sites[i0] + FieldStart(ops[i0]) + 4 <= |code|
    ensures Chunk(Overwrite(code, sites[i0] + FieldStart(ops[i0]), PatchBytes(PatchFor(ops, sites, i0), labels)), ops, sites, i0)
         == OpBytes(ops[i0], sites[i0], labels)
  {
    OpBytesField(ops[i0], sites[i0], labels);
    FillSlice(code, sites[i0], OpBytes(ops[i0], sites[i0], labels), FieldStart(ops[i0]),
              PatchBytes(PatchFor(ops, sites, i0), labels));
  }

  /** Overwriting bytes outside operation `i` leaves its chunk alone. */
  lemma ChunkOutside(code: seq<byte>, ops: seq<Op>, sites: seq<nat>, i: nat, lo: nat, f: seq<byte>)
    requires Laid(ops, sites, |code|) && i < |ops| && lo + |f| <= |code|
    requires lo + |f| <= sites[i] || sites[i] + OpLen(ops[i]) <= lo
    ensures Chunk(Overwrite(code, lo, f), ops, sites, i) == Chunk(code, ops, sites, i)
  {
    SliceOverwriteOutside(code, sites[i], sites[i] + OpLen(ops[i]), lo, f);
  }

  /** Writing a branch's field leaves every other operation's chunk alone. */
  lemma FieldWriteOthers(code: seq<byte>, ops: seq<Op>, sites: seq<nat>, i0: nat, f: seq<byte>)
    requires Laid(ops, sites, |code|) && i0 < |ops| && IsBranch(ops[i0]) && |f| == 4
    ensures sites[i0] + FieldStart(ops[i0]) + 4 <= |code|
    ensures forall i :: 0 <= i < |ops| && i != i0 ==>
      Chunk(Overwrite(code, sites[i0] + FieldStart(ops[i0]), f), ops, sites, i) == Chunk(code, ops, sites, i)
  {
    var lo := sites[i0] + FieldStart(ops[i0]);
    forall i | 0 <= i < |ops| && i != i0 ensures Chunk(Overwrite(code, lo, f), ops, sites, i) == Chunk(code, ops, sites, i) {
      if i < i0 {
        Disjoint(ops, sites, |code|, i, i0);
      } else {
        Disjoint(ops, sites, |code|, i0, i);
      }
      ChunkOutside(code, ops, sites, i, lo, f);
    }
  }

  /** Hence the buffer stays in shape, `i0` becomes resolved and the others keep their state. */
  lemma PatchOne(code: seq<byte>, ops: seq<Op>, sites: seq<nat>, labels: seq<Label>, i0: nat)
    requires Shaped(code, ops, sites, labels) && i0 < |ops| && IsBranch(ops[i0])
    ensures sites[i0] + FieldStart(ops[i0]) + 4 <= |code|
    ensures var c' := Overwrite(code, sites[i0] + FieldStart(ops[i0]), PatchBytes(PatchFor(ops, sites, i0), labels));
      Shaped(c', ops, sites, labels) && Resolved(c', ops, sites, labels, i0) &&
      forall i :: 0 <= i < |ops| && Resolved(code, ops, sites, labels, i) ==> Resolved(c', ops, sites, labels, i)
  {
    FieldWriteSelf(code, ops, sites, labels, i0);
    FieldWriteOthers(code, ops, sites, i0, PatchBytes(PatchFor(ops, sites, i0), labels));
  }

  /** The first patch belongs to the first pending branch, and the rest match the rest. */
  lemma MatchTail(ops: seq<Op>, sites: seq<nat>, patches: seq<BackPatch>, pending: seq<nat>)
    requires PatchesMatch(ops, sites, patches, pending) && |patches| > 0
    ensures pending[0] < |ops| && IsBranch(ops[pending[0]])
    ensures patches[0] == PatchFor(ops, sites, pending[0])
    ensures PatchesMatch(ops, sites, patches[1..], pending[1..])
    ensures pending == [pending[0]] + pending[1..]
  {
  }

  /** Writing the patches of the pending branches, in order, resolves them
      and keeps the others resolved. */
  lemma {:induction false} ResolveAll(code: seq<byte>, ops: seq<Op>, sites: seq<nat>, labels: seq<Label>,
                                      patches: seq<BackPatch>, pending: seq<nat>)
    requires Shaped(code, ops, sites, labels) && PatchesMatch(ops, sites, patches, pending)
    requires Consistent(code, ops, sites, labels, pending)
    ensures PatchesFit(patches, |code|, |labels|)
    ensures Shaped(ApplyPatches(code, patches, labels), ops, sites, labels)
    ensures AllResolved(ApplyPatches(code, patches, labels), ops, sites, labels)
    decreases |patches|
  {
    MatchFits(code, ops, sites, labels, patches, pending);
    if |patches| == 0 {
      assert AllResolved(code, ops, sites, labels);
    } else {
      var i0 := pending[0];
      MatchTail(ops, sites, patches, pending);
      ResolveStep(code, ops, sites, labels, i0, pending[1..]);
      var c := Overwrite(code, sites[i0] + FieldStart(ops[i0]), PatchBytes(PatchFor(ops, sites, i0), labels));
      ResolveAll(c, ops, sites, labels, patches[1..], pending[1..]);
      assert ApplyPatches(code, patches, labels) == ApplyPatches(c, patches[1..], labels);
    }
  }

  /** Every label's address lies inside a buffer of `n` bytes. */
  predicate Placed(labels: seq<Label>, n: nat)
  {
    forall l :: 0 <= l < |labels| ==> labels[l].rip <= n
  }

  /** The relation the assembler keeps between its buffer, its labels and
      its pending patches on one side and the stream it has emitted on the
      other: the buffer holds the stream, each branch is resolved or has its
      patch recorded, in order, and each bound label is where its bind stands. */
  predicate Assembled(code: seq<byte>, ops: seq<Op>, sites: seq<nat>, labels: seq<Label>,
                      patches: seq<BackPatch>, pending: seq<nat>)
  {
    Shaped(code, ops, sites, labels) && Consistent(code, ops, sites, labels, pending) &&
    Tracking(ops, labels, pending) && LabelsAgree(ops, sites, labels) &&
    PatchesMatch(ops, sites, patches, pending) && Placed(labels, |code|)
  }

  /** `Assembled`, restated as a recursion on `n` that ends in it. The
      verifier unfolds a recursive predicate only a level at a time, so a
      method that only passes the relation on does not pay for the
      quantifiers inside it; `Unseal` equates the two. */
  predicate Sealed(n: nat, code: seq<byte>, ops: seq<Op>, sites: seq<nat>, labels: seq<Label>,
                   patches: seq<BackPatch>, pending: seq<nat>)
    decreases n
  {
    if n == 0 then Assembled(code, ops, sites, labels, patches, pending)
    else Sealed(n - 1, code, ops, sites, labels, patches, pending)
  }

  lemma {:induction false} Unseal(n: nat, code: seq<byte>, ops: seq<Op>, sites: seq<nat>, labels: seq<Label>,
                                  patches: seq<BackPatch>, pending: seq<nat>)
    decreases n
    ensures Sealed(n, code, ops, sites, labels, patches, pending) == Assembled(code, ops, sites, labels, patches, pending)
  {
    if n > 0 {
      Unseal(n - 1, code, ops, sites, labels, patches, pending);
    }
  }

  /** The patch list after appending `op` at offset `n`: `add_backpatch`
      records one for a branch to a label not yet bound. */
  function PatchesAfter(patches: seq<BackPatch>, n: nat, op: Op, labels: seq<Label>): seq<BackPatch>
    requires LabelsIn(op, |labels|)
  {
    if IsBranch(op) && !labels[Target(op)].isBound
    then patches + [BackPatch(Target(op), n, OpLen(op), 4, FieldStart(op))]
    else patches
  }

  lemma PatchesMatchAppend(ops: seq<Op>, sites: seq<nat>, labels: seq<Label>, patches: seq<BackPatch>,
                           pending: seq<nat>, op: Op, n: nat)
    requires PatchesMatch(ops, sites, patches, pending) && LabelsIn(op, |labels|)
    ensures PatchesMatch(ops + [op], sites + [n], PatchesAfter(patches, n, op, labels),
                         PendingAfter(pending, |ops|, op, labels))
  {
    var ops', sites' := ops + [op], sites + [n];
    var patches', pending' := PatchesAfter(patches, n, op, labels), PendingAfter(pending, |ops|, op, labels);
    forall j | 0 <= j < |patches'|
      ensures pending'[j] < |ops'| && IsBranch(ops'[pending'[j]]) && patches'[j] == PatchFor(ops', sites', pending'[j])
    {
      if j < |patches| {
        assert pending'[j] == pending[j] && patches'[j] == patches[j];
        assert ops'[pending[j]] == ops[pending[j]] && sites'[pending[j]] == sites[pending[j]];
      }
    }
  }

  lemma PatchesMatchGrow(ops: seq<Op>, sites: seq<nat>, patches: seq<BackPatch>, pending: seq<nat>, op: Op, n: nat)
    requires PatchesMatch(ops, sites, patches, pending)
    ensures PatchesMatch(ops + [op], sites + [n], patches, pending)
  {
    var ops', sites' := ops + [op], sites + [n];
    forall j | 0 <= j < |patches|
      ensures pending[j] < |ops'| && IsBranch(ops'[pending[j]]) && patches[j] == PatchFor(ops', sites', pending[j])
    {
      assert ops'[pending[j]] == ops[pending[j]] && sites'[pending[j]] == sites[pending[j]];
    }
  }

  /** An encoder appending the bytes of any operation but a bind keeps the relation. */
  lemma AppendAssembled(code: seq<byte>, ops: seq<Op>, sites: seq<nat>, labels: seq<Label>,
                        patches: seq<BackPatch>, pending: seq<nat>, op: Op)
    requires Assembled(code, ops, sites, labels, patches, pending)
    requires LabelsIn(op, |labels|) && !op.BindAt?
    ensures Assembled(code + OpBytes(op, |code|, labels), ops + [op], sites + [|code|], labels,
                      PatchesAfter(patches, |code|, op, labels), PendingAfter(pending, |ops|, op, labels))
  {
    AppendConsistent(code, ops, sites, labels, pending, op);
    AppendTracking(ops, labels, pending, op);
    AppendLabelsAgree(ops, sites, labels, op, |code|);
    PatchesMatchAppend(ops, sites, labels, patches, pending, op, |code|);
  }

  /** `AppendAssembled` on the sealed form, one level deeper for the longer stream. */
  lemma AppendSealed(code: seq<byte>, ops: seq<Op>, sites: seq<nat>, labels: seq<Label>,
                     patches: seq<BackPatch>, pending: seq<nat>, op: Op)
    requires Sealed(|ops| + 1, code, ops, sites, labels, patches, pending)
    requires LabelsIn(op, |labels|) && !op.BindAt?
    ensures Sealed(|ops| + 2, code + OpBytes(op, |code|, labels), ops + [op], sites + [|code|], labels,
                   PatchesAfter(patches, |code|, op, labels), PendingAfter(pending, |ops|, op, labels))
  {
    Unseal(|ops| + 1, code, ops, sites, labels, patches, pending);
    AppendAssembled(code, ops, sites, labels, patches, pending, op);
    Unseal(|ops| + 2, code + OpBytes(op, |code|, labels), ops + [op], sites + [|code|], labels,
           PatchesAfter(patches, |code|, op, labels), PendingAfter(pending, |ops|, op, labels));
  }

  /** Binding an unbound label at the end of the buffer keeps the relation. */
  lemma BindAssembled(code: seq<byte>, ops: seq<Op>, sites: seq<nat>, labels: seq<Label>,
                      patches: seq<BackPatch>, pending: seq<nat>, l: nat)
    requires Assembled(code, ops, sites, labels, patches, pending)
    requires l < |labels| && !labels[l].isBound
    ensures Assembled(code, ops + [BindAt(l)], sites + [|code|], labels[l := Bind(labels[l], |code|)], patches, pending)
  {
    BindConsistent(code, ops, sites, labels, pending, l);
    BindTracking(ops, labels, pending, l, |code|);
    BindLabelsAgree(ops, sites, labels, l, |code|);
    PatchesMatchGrow(ops, sites, patches, pending, BindAt(l), |code|);
  }

  /** A label added to the arena changes no operation's bytes. */
  lemma OpBytesExtend(op: Op, site: nat, labels: seq<Label>, l: Label)
    requires LabelsIn(op, |labels|)
    ensures LabelsIn(op, |labels + [l]|) && OpBytes(op, site, labels + [l]) == OpBytes(op, site, labels)
  {
    if IsBranch(op) {
      assert (labels + [l])[Target(op)] == labels[Target(op)];
    }
  }

  /** Adding a fresh label to the arena keeps the relation. */
  lemma AddLabelAssembled(code: seq<byte>, ops: seq<Op>, sites: seq<nat>, labels: seq<Label>,
                          patches: seq<BackPatch>, pending: seq<nat>)
    requires Assembled(code, ops, sites, labels, patches, pending)
    ensures Assembled(code, ops, sites, labels + [NewLabel()], patches, pending)
  {
    var labels' := labels + [NewLabel()];
    AddLabelShaped(code, ops, sites, labels, pending);
    forall i | 0 <= i < |ops| && IsBranch(ops[i]) ensures labels'[Target(ops[i])] == labels[Target(ops[i])] {
    }
    forall i | 0 <= i < |ops| && ops[i].BindAt? ensures labels'[ops[i].lbl] == labels[ops[i].lbl] {
    }
  }

  lemma AddLabelShaped(code: seq<byte>, ops: seq<Op>, sites: seq<nat>, labels: seq<Label>, pending: seq<nat>)
    requires Shaped(code, ops, sites, labels) && Consistent(code, ops, sites, labels, pending)
    ensures Shaped(code, ops, sites, labels + [NewLabel()]) && Consistent(code, ops, sites, labels + [NewLabel()], pending)
  {
    var labels' := labels + [NewLabel()];
    forall i | 0 <= i < |ops| ensures LabelsIn(ops[i], |labels'|) && OpBytes(ops[i], sites[i], labels') == OpBytes(ops[i], sites[i], labels) {
      OpBytesExtend(ops[i], sites[i], labels, NewLabel());
    }
    assert Named(ops, |labels'|);
    forall i | 0 <= i < |ops|
      ensures SameOutside(Chunk(code, ops, sites, i), OpBytes(ops[i], sites[i], labels'), FieldStart(ops[i]), FieldWidth(ops[i]))
      ensures Resolved(code, ops, sites, labels', i) == Resolved(code, ops, sites, labels, i)
    {
      OpBytesExtend(ops[i], sites[i], labels, NewLabel());
    }
  }

  /** One step of `backpatch()`: patching the first pending branch leaves the rest pending. */
  lemma ResolveStep(code: seq<byte>, ops: seq<Op>, sites: seq<nat>, labels: seq<Label>, i0: nat, rest: seq<nat>)
    requires Shaped(code, ops, sites, labels) && i0 < |ops| && IsBranch(ops[i0])
    requires Consistent(code, ops, sites, labels, [i0] + rest)
    ensures sites[i0] + FieldStart(ops[i0]) + 4 <= |code|
    ensures var c' := Overwrite(code, sites[i0] + FieldStart(ops[i0]), PatchBytes(PatchFor(ops, sites, i0), labels));
      Shaped(c', ops, sites, labels) && Consistent(c', ops, sites, labels, rest)
  {
    PatchOne(code, ops, sites, labels, i0);
  }
}
