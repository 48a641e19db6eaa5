/** The older draft's assembler (`Assembler` in `src/asm.h`): an encoder
    writing through an `Emitter`, whose labels each keep the list of fields
    still waiting for their address, and `finalize()`, which has every label
    fill in its own fields. */
module LegacyAsm {
  import opened Bytes
  import opened X86
  import opened Emit
  import Labels
  import CodeLayout
  import Landing

  /** `BackPatch`: a field of `size` bytes, `offset` bytes into the
      instruction of `insLen` bytes that starts at `rip`. */
  datatype BackPatch = BackPatch(rip: nat, size: nat, insLen: nat, offset: int)

  /** `Label`: its own list of patches, `m_bound` and `m_rip`. */
  datatype Label = Label(patches: seq<BackPatch>, bound: bool, rip: nat)

  /** A value-initialized label: no patches, unbound, at address 0. */
  function NewLabel(): (l: Label)
    ensures l.patches == [] && !l.bound && l.rip == 0
  {
    Label([], false, 0)
  }

  /** `bind(rip)`: bound at `rip`; the label keeps its patches. */
  function Bind(l: Label, rip: nat): (b: Label)
    ensures b.bound && b.rip == rip && b.patches == l.patches
  {
    l.(bound := true, rip := rip)
  }

  /** The label's address, as the current draft's label value. */
  function Address(l: Label): Labels.Label
  {
    Labels.Label(l.bound, l.rip)
  }

  /** `relative_to(rip, ins_len)`: `m_rip - rip - ins_len` in `size_t`,
      i.e. modulo 2^64; adding back the end of the instruction gives the
      label's address again. */
  function RelativeTo(l: Label, rip: nat, insLen: nat): (d: u64)
    ensures (d + rip + insLen) % TwoTo64 == l.rip % TwoTo64
  {
    Labels.RelativeTo(Address(l), rip, insLen)
  }

  /** `add_backpatch(emit, op_size, ins_len, offset)`: one more patch, for
      the instruction that starts at the emitter's `cursor`; neither the
      binding nor the earlier patches change. */
  function AddBackpatch(l: Label, cursor: nat, opSize: nat, insLen: nat, offset: int): (r: Label)
    ensures r.bound == l.bound && r.rip == l.rip
    ensures |r.patches| == |l.patches| + 1 && r.patches[..|l.patches|] == l.patches
    ensures r.patches[|l.patches|] == BackPatch(cursor, opSize, insLen, offset)
  {
    l.(patches := l.patches + [BackPatch(cursor, opSize, insLen, offset)])
  }

  /** One `emit_to`: `bytes` copied over the buffer from `at` on. */
  datatype Write = Write(at: nat, bytes: seq<byte>)

  predicate Inside(w: Write, n: nat)
  {
    w.at + |w.bytes| <= n
  }

  predicate AllInside(ws: seq<Write>, n: nat)
  {
    forall w :: w in ws ==> Inside(w, n)
  }

  predicate Covers(w: Write, k: int)
  {
    w.at <= k < w.at + |w.bytes|
  }

  predicate Disjoint(x: Write, y: Write)
  {
    x.at + |x.bytes| <= y.at || y.at + |y.bytes| <= x.at
  }

  /** The writes applied one after the other, a later one winning where
      two overlap. */
  function ApplyWrites(s: seq<byte>, ws: seq<Write>): (r: seq<byte>)
    requires AllInside(ws, |s|)
    ensures |r| == |s|
    decreases |ws|
  {
    if ws == [] then s
    else
      var w := ws[|ws| - 1];
      assert forall x :: x in ws[..|ws| - 1] ==> x in ws;
      assert w in ws;
      Overwrite(ApplyWrites(s, ws[..|ws| - 1]), w.at, w.bytes)
  }

  lemma ApplyWritesSnoc(s: seq<byte>, ws: seq<Write>, w: Write)
    requires AllInside(ws + [w], |s|)
    ensures AllInside(ws, |s|) && Inside(w, |s|)
    ensures ApplyWrites(s, ws + [w]) == Overwrite(ApplyWrites(s, ws), w.at, w.bytes)
  {
    assert w in ws + [w];
    assert (ws + [w])[..|ws|] == ws;
  }

  /** Applying two lists of writes is applying their concatenation. */
  lemma {:induction false} ApplyWritesAppend(s: seq<byte>, a: seq<Write>, b: seq<Write>)
    requires AllInside(a, |s|) && AllInside(b, |s|)
    ensures AllInside(a + b, |s|)
    ensures ApplyWrites(s, a + b) == ApplyWrites(ApplyWrites(s, a), b)
    decreases |b|
  {
    if b == [] {
      assert a + b == a;
    } else {
      var b', w := b[..|b| - 1], b[|b| - 1];
      assert b == b' + [w];
      assert a + b == (a + b') + [w];
      assert forall x :: x in b' ==> x in b;
      ApplyWritesAppend(s, a, b');
      ApplyWritesSnoc(s, a + b', w);
    }
  }

  /** A byte no write covers keeps its value. */
  lemma {:induction false} ApplyWritesOutside(s: seq<byte>, ws: seq<Write>, k: nat)
    requires AllInside(ws, |s|) && k < |s|
    requires forall w :: w in ws ==> !Covers(w, k)
    ensures ApplyWrites(s, ws)[k] == s[k]
    decreases |ws|
  {
    if ws != [] {
      var w := ws[|ws| - 1];
      assert w in ws;
      assert forall x :: x in ws[..|ws| - 1] ==> x in ws;
      ApplyWritesOutside(s, ws[..|ws| - 1], k);
      OverwriteAt(ApplyWrites(s, ws[..|ws| - 1]), w.at, w.bytes, k);
    }
  }

  /** A write that every other write misses is found intact in the result. */
  lemma {:induction false} ApplyWritesLands(s: seq<byte>, ws: seq<Write>, w: Write)
    requires AllInside(ws, |s|) && w in ws
    requires forall x :: x in ws ==> x == w || Disjoint(x, w)
    ensures Inside(w, |s|) && ApplyWrites(s, ws)[w.at..w.at + |w.bytes|] == w.bytes
    decreases |ws|
  {
    var pre, last := ws[..|ws| - 1], ws[|ws| - 1];
    assert ws == pre + [last];
    assert forall x :: x in pre ==> x in ws;
    assert last in ws;
    var before := ApplyWrites(s, pre);
    var after := Overwrite(before, last.at, last.bytes);
    if last == w {
      assert after[w.at..w.at + |w.bytes|] == w.bytes;
    } else {
      assert w in pre;
      ApplyWritesLands(s, pre, w);
      forall k | w.at <= k < w.at + |w.bytes|
        ensures after[k] == before[k]
      {
        OverwriteAt(before, last.at, last.bytes, k);
      }
      assert after[w.at..w.at + |w.bytes|] == before[w.at..w.at + |w.bytes|];
    }
  }

  /** `m_size` is one a field can have (1 or 4; anything else reaches
      `std::unreachable()`) and the field does not start before the buffer. */
  predicate Writable(p: BackPatch)
  {
    (p.size == 1 || p.size == 4) && p.rip + p.offset >= 0
  }

  /** What `resolve_backpatches` writes into the field of `p`:
      `relative_to(m_rip, m_ins_len)` converted to `int8_t` or `int32_t`. */
  function PatchBytes(p: BackPatch, l: Label): (b: seq<byte>)
    requires p.size == 1 || p.size == 4
    ensures |b| == p.size
  {
    ToBytes(Narrow(RelativeTo(l, p.rip, p.insLen), p.size), p.size)
  }

  /** The `emit_to` call for patch `p` of label `l`. */
  function PatchWrite(p: BackPatch, l: Label): Write
    requires Writable(p)
  {
    Write(p.rip + p.offset, PatchBytes(p, l))
  }

  predicate AllWritable(ps: seq<BackPatch>)
  {
    forall i :: 0 <= i < |ps| ==> Writable(ps[i])
  }

  /** The writes of the first `n` turns of the loop over `m_patches`, in
      order. */
  function PatchWrites(ps: seq<BackPatch>, l: Label, n: nat): (ws: seq<Write>)
    requires AllWritable(ps) && n <= |ps|
    ensures |ws| == n
  {
    if n == 0 then [] else PatchWrites(ps, l, n - 1) + [PatchWrite(ps[n - 1], l)]
  }

  /** The `i`-th write is that of the `i`-th patch. */
  lemma {:induction false} PatchWriteAt(ps: seq<BackPatch>, l: Label, n: nat, i: nat)
    requires AllWritable(ps) && i < n <= |ps|
    ensures PatchWrites(ps, l, n)[i] == PatchWrite(ps[i], l)
  {
    if i < n - 1 {
      PatchWriteAt(ps, l, n - 1, i);
    }
  }

  /** The writes `resolve_backpatches` makes: none when the label has no
      patches or is unbound, otherwise one per patch. */
  function LabelWrites(l: Label): (ws: seq<Write>)
    requires AllWritable(l.patches)
    ensures |ws| == if l.bound then |l.patches| else 0
  {
    if l.patches == [] || !l.bound then [] else PatchWrites(l.patches, l, |l.patches|)
  }

  /** The label after `resolve_backpatches`: the early return leaves it as
      it is, otherwise its list is cleared; the binding never changes. */
  function Resolved(l: Label): (r: Label)
    ensures r.bound == l.bound && r.rip == l.rip
    ensures l.bound ==> r.patches == []
    ensures !l.bound ==> r == l
  {
    if l.patches == [] || !l.bound then l else l.(patches := [])
  }

  predicate LabelsWritable(labels: seq<Label>)
  {
    forall m :: 0 <= m < |labels| ==> AllWritable(labels[m].patches)
  }

  /** The patches of the bound labels among `labels`. */
  function BoundPatches(labels: seq<Label>): nat
    decreases |labels|
  {
    if labels == [] then 0
    else
      var l := labels[|labels| - 1];
      BoundPatches(labels[..|labels| - 1]) + if l.bound then |l.patches| else 0
  }

  /** The writes of `finalize()`: each label's, in the order of `m_labels`,
      one per patch of a bound label. */
  function AllWrites(labels: seq<Label>): (ws: seq<Write>)
    requires LabelsWritable(labels)
    ensures |ws| == BoundPatches(labels)
    decreases |labels|
  {
    if labels == [] then []
    else AllWrites(labels[..|labels| - 1]) + LabelWrites(labels[|labels| - 1])
  }

  /** The field of `p` lies inside a buffer of `n` bytes, as the unchecked
      copy of `emit_to` needs. */
  predicate FieldFits(p: BackPatch, n: nat)
  {
    Writable(p) && p.rip + p.offset + p.size <= n
  }

  predicate LabelsFit(labels: seq<Label>, n: nat)
  {
    forall m, i :: 0 <= m < |labels| && 0 <= i < |labels[m].patches| ==> FieldFits(labels[m].patches[i], n)
  }

  /** Every write of `finalize()` is the write of a patch of a bound label. */
  lemma {:induction false} WriteOrigin(labels: seq<Label>, x: Write) returns (m: nat, i: nat)
    requires LabelsWritable(labels) && x in AllWrites(labels)
    ensures m < |labels| && i < |labels[m].patches| && labels[m].bound
    ensures x == PatchWrite(labels[m].patches[i], labels[m])
    decreases |labels|
  {
    var pre, last := labels[..|labels| - 1], labels[|labels| - 1];
    if x in AllWrites(pre) {
      m, i := WriteOrigin(pre, x);
    } else {
      assert x in LabelWrites(last);
      var ws := PatchWrites(last.patches, last, |last.patches|);
      var j :| 0 <= j < |ws| && ws[j] == x;
      PatchWriteAt(last.patches, last, |last.patches|, j);
      m, i := |labels| - 1, j;
    }
  }

  /** Every patch of a bound label is written by `finalize()`. */
  lemma {:induction false} WriteOfPatch(labels: seq<Label>, m: nat, i: nat)
    requires LabelsWritable(labels) && m < |labels| && i < |labels[m].patches| && labels[m].bound
    ensures PatchWrite(labels[m].patches[i], labels[m]) in AllWrites(labels)
    decreases |labels|
  {
    var pre, last := labels[..|labels| - 1], labels[|labels| - 1];
    if m < |pre| {
      assert pre[m] == labels[m];
      WriteOfPatch(pre, m, i);
    } else {
      PatchWriteAt(last.patches, last, |last.patches|, i);
      assert PatchWrites(last.patches, last, |last.patches|)[i] == PatchWrite(labels[m].patches[i], labels[m]);
    }
  }

  /** When every field fits, so does every write. */
  lemma AllWritesInside(labels: seq<Label>, n: nat)
    requires LabelsFit(labels, n)
    ensures LabelsWritable(labels) && AllInside(AllWrites(labels), n)
  {
    forall x | x in AllWrites(labels)
      ensures Inside(x, n)
    {
      var m, i := WriteOrigin(labels, x);
    }
  }

  /** A patch as the assembler records it: its field lies inside its
      instruction, which lies inside the `n` bytes emitted. */
  predicate Recorded(p: BackPatch, n: nat)
  {
    Writable(p) && 0 <= p.offset && p.offset + p.size <= p.insLen && p.rip + p.insLen <= n
  }

  predicate AllRecorded(labels: seq<Label>, n: nat)
  {
    forall m, i :: 0 <= m < |labels| && 0 <= i < |labels[m].patches| ==> Recorded(labels[m].patches[i], n)
  }

  /** The instructions of two patches do not overlap. */
  predicate InstrApart(p: BackPatch, q: BackPatch)
  {
    p.rip + p.insLen <= q.rip || q.rip + q.insLen <= p.rip
  }

  /** Two different patches, of the same label or of two, belong to
      different instructions. */
  predicate Apart(labels: seq<Label>)
  {
    forall m1, i1, m2, i2 ::
      0 <= m1 < |labels| && 0 <= i1 < |labels[m1].patches| &&
      0 <= m2 < |labels| && 0 <= i2 < |labels[m2].patches| && (m1 != m2 || i1 != i2) ==>
        InstrApart(labels[m1].patches[i1], labels[m2].patches[i2])
  }

  lemma RecordedFit(labels: seq<Label>, n: nat)
    requires AllRecorded(labels, n)
    ensures LabelsFit(labels, n) && LabelsWritable(labels) && AllInside(AllWrites(labels), n)
  {
    AllWritesInside(labels, n);
  }

  /** The fields of two patches in different instructions are disjoint. */
  lemma FieldsApart(labels: seq<Label>, n: nat, m1: nat, i1: nat, m2: nat, i2: nat)
    requires AllRecorded(labels, n) && Apart(labels)
    requires m1 < |labels| && i1 < |labels[m1].patches| && m2 < |labels| && i2 < |labels[m2].patches|
    requires m1 != m2 || i1 != i2
    ensures var p, q := labels[m1].patches[i1], labels[m2].patches[i2];
      p.rip + p.offset + p.size <= q.rip + q.offset || q.rip + q.offset + q.size <= p.rip + p.offset
  {
    assert Recorded(labels[m1].patches[i1], n) && Recorded(labels[m2].patches[i2], n);
    assert InstrApart(labels[m1].patches[i1], labels[m2].patches[i2]);
  }

  /** After `finalize()`, the field of each patch of a bound label holds the
      displacement from its instruction's end to the label. */
  lemma FieldResolved(s: seq<byte>, labels: seq<Label>, m: nat, i: nat)
    requires AllRecorded(labels, |s|) && Apart(labels)
    requires m < |labels| && i < |labels[m].patches| && labels[m].bound
    ensures LabelsWritable(labels) && AllInside(AllWrites(labels), |s|)
    ensures var p := labels[m].patches[i];
      p.rip + p.offset + p.size <= |s| &&
      ApplyWrites(s, AllWrites(labels))[p.rip + p.offset..p.rip + p.offset + p.size] == PatchBytes(p, labels[m])
  {
    RecordedFit(labels, |s|);
    var w := PatchWrite(labels[m].patches[i], labels[m]);
    WriteOfPatch(labels, m, i);
    forall x | x in AllWrites(labels)
      ensures x == w || Disjoint(x, w)
    {
      var m2, i2 := WriteOrigin(labels, x);
      if m2 != m || i2 != i {
        FieldsApart(labels, |s|, m2, i2, m, i);
      }
    }
    ApplyWritesLands(s, AllWrites(labels), w);
  }

  /** Byte `k` lies outside the field of every patch of every bound label. */
  predicate Untouched(labels: seq<Label>, k: int)
  {
    forall m, i :: 0 <= m < |labels| && 0 <= i < |labels[m].patches| && labels[m].bound ==>
      var p := labels[m].patches[i]; !(p.rip + p.offset <= k < p.rip + p.offset + p.size)
  }

  /** After `finalize()`, a byte outside the field of every patch of every
      bound label keeps its value. */
  lemma ByteKept(s: seq<byte>, labels: seq<Label>, k: nat)
    requires LabelsFit(labels, |s|) && k < |s| && Untouched(labels, k)
    ensures LabelsWritable(labels) && AllInside(AllWrites(labels), |s|)
    ensures ApplyWrites(s, AllWrites(labels))[k] == s[k]
  {
    AllWritesInside(labels, |s|);
    forall x | x in AllWrites(labels)
      ensures !Covers(x, k)
    {
      var m, i := WriteOrigin(labels, x);
    }
    ApplyWritesOutside(s, AllWrites(labels), k);
  }

  /** After `finalize()`, the field of a patch whose label was never bound
      still holds what was emitted there (the zero placeholder). */
  lemma UnboundKept(s: seq<byte>, labels: seq<Label>, m: nat, i: nat)
    requires AllRecorded(labels, |s|) && Apart(labels)
    requires m < |labels| && i < |labels[m].patches| && !labels[m].bound
    ensures LabelsWritable(labels) && AllInside(AllWrites(labels), |s|)
    ensures var p := labels[m].patches[i];
      p.rip + p.offset + p.size <= |s| &&
      ApplyWrites(s, AllWrites(labels))[p.rip + p.offset..p.rip + p.offset + p.size] == s[p.rip + p.offset..p.rip + p.offset + p.size]
  {
    RecordedFit(labels, |s|);
    var p := labels[m].patches[i];
    assert Recorded(p, |s|);
    var lo, hi := p.rip + p.offset, p.rip + p.offset + p.size;
    var r := ApplyWrites(s, AllWrites(labels));
    forall k | lo <= k < hi
      ensures r[k] == s[k]
    {
      UnboundByte(s, labels, m, i, k);
    }
    assert r[lo..hi] == s[lo..hi];
  }

  lemma UnboundByte(s: seq<byte>, labels: seq<Label>, m: nat, i: nat, k: nat)
    requires AllRecorded(labels, |s|) && Apart(labels)
    requires m < |labels| && i < |labels[m].patches| && !labels[m].bound
    requires var p := labels[m].patches[i]; p.rip + p.offset <= k < p.rip + p.offset + p.size
    ensures LabelsWritable(labels) && AllInside(AllWrites(labels), |s|)
    ensures k < |s| && ApplyWrites(s, AllWrites(labels))[k] == s[k]
  {
    RecordedFit(labels, |s|);
    assert Recorded(labels[m].patches[i], |s|);
    forall m2, i2 | 0 <= m2 < |labels| && 0 <= i2 < |labels[m2].patches| && labels[m2].bound
      ensures var q := labels[m2].patches[i2]; !(q.rip + q.offset <= k < q.rip + q.offset + q.size)
    {
      FieldsApart(labels, |s|, m2, i2, m, i);
    }
    ByteKept(s, labels, k);
  }

  /** The same for a run of untouched bytes. */
  lemma RangeKept(s: seq<byte>, labels: seq<Label>, i: nat, j: nat)
    requires LabelsFit(labels, |s|) && i <= j <= |s|
    requires forall x :: i <= x < j ==> Untouched(labels, x)
    ensures LabelsWritable(labels) && AllInside(AllWrites(labels), |s|)
    ensures forall x :: i <= x < j ==> ApplyWrites(s, AllWrites(labels))[x] == s[x]
  {
    AllWritesInside(labels, |s|);
    var r := ApplyWrites(s, AllWrites(labels));
    forall x | i <= x < j
      ensures r[x] == s[x]
    {
      ByteKept(s, labels, x);
    }
  }

  /** A resolved 4-byte field, read as a signed value and added to the end
      of its instruction, gives the label's address modulo 2^32, and exactly
      when both lie below 2^31. */
  lemma PatchLands(p: BackPatch, l: Label)
    requires p.size == 4
    ensures Landing.Wraps(PatchBytes(p, l), p.rip + p.insLen, l.rip)
    ensures l.rip < 0x8000_0000 && p.rip + p.insLen < 0x8000_0000 ==>
      Landing.Exact(PatchBytes(p, l), p.rip + p.insLen, l.rip)
  {
    Pow256Values();
    var r := CodeLayout.Rel32(Address(l), p.rip, p.insLen);
    assert PatchBytes(p, l) == ToBytes(r, 4);
    SignedToBytes(r, 4);
    Landing.Rel32Lands(Address(l), p.rip, p.insLen);
    if l.rip < 0x8000_0000 && p.rip + p.insLen < 0x8000_0000 {
      Landing.Rel32Exact(Address(l), p.rip, p.insLen);
    }
  }

  /** The assembler's state as a value: the bytes of its emitter and the
      labels it owns, a label pointer being a position in `labels`. */
  datatype Asm = Asm(data: seq<byte>, labels: seq<Label>)

  /** What the `emit_*` method for the non-branch instruction `i` leaves:
      its bytes after the old ones, the labels untouched. */
  function Put(a: Asm, i: Instr): (r: Asm)
    ensures |r.data| == |a.data| + Length(i) + LegacyWidening(i)
    ensures r.labels == a.labels && r.data[..|a.data|] == a.data
  {
    a.(data := a.data + LegacyEncode(i))
  }

  /** What `label()` leaves: one more label, fresh, after the old ones. */
  function PutLabel(a: Asm): (r: Asm)
    ensures r.data == a.data && |r.labels| == |a.labels| + 1
    ensures r.labels[..|a.labels|] == a.labels && r.labels[|a.labels|] == NewLabel()
  {
    a.(labels := a.labels + [NewLabel()])
  }

  /** What `bind(l)` leaves: `l` bound at the cursor with its patches
      still pending, every other label and the bytes as they were. */
  function PutBind(a: Asm, l: nat): (r: Asm)
    requires l < |a.labels|
    ensures r.data == a.data && |r.labels| == |a.labels|
    ensures r.labels[l].bound && r.labels[l].rip == |a.data| && r.labels[l].patches == a.labels[l].patches
    ensures forall m :: 0 <= m < |a.labels| && m != l ==> r.labels[m] == a.labels[m]
  {
    a.(labels := a.labels[l := Bind(a.labels[l], |a.data|)])
  }

  /** What `emit_jcc(cc, l)` leaves: for an unbound `l` a patch for the
      4-byte field 2 bytes into the 6-byte instruction and a zero rel32,
      for a bound one the displacement, converted to `int32_t`. */
  function PutJcc(a: Asm, cc: Condition, l: nat): (r: Asm)
    requires l < |a.labels|
    ensures |r.data| == |a.data| + 6 && r.data[..|a.data|] == a.data && |r.labels| == |a.labels|
    ensures a.labels[l].bound ==> r.labels == a.labels
    ensures !a.labels[l].bound ==> r.labels[l].patches == a.labels[l].patches + [BackPatch(|a.data|, 4, 6, 2)]
  {
    Pow256Values();
    var lbl := a.labels[l];
    if !lbl.bound then
      Asm(a.data + LegacyEncode(Jcc(cc, 0)), a.labels[l := AddBackpatch(lbl, |a.data|, 4, 6, 2)])
    else
      Asm(a.data + LegacyEncode(Jcc(cc, Narrow(RelativeTo(lbl, |a.data|, 6), 4))), a.labels)
  }

  /** What `emit_jmp(l)` leaves: the same with a 5-byte instruction whose
      field starts 1 byte in. */
  function PutJmp(a: Asm, l: nat): (r: Asm)
    requires l < |a.labels|
    ensures |r.data| == |a.data| + 5 && r.data[..|a.data|] == a.data && |r.labels| == |a.labels|
    ensures a.labels[l].bound ==> r.labels == a.labels
    ensures !a.labels[l].bound ==> r.labels[l].patches == a.labels[l].patches + [BackPatch(|a.data|, 4, 5, 1)]
  {
    Pow256Values();
    var lbl := a.labels[l];
    if !lbl.bound then
      Asm(a.data + LegacyEncode(Jmp(0)), a.labels[l := AddBackpatch(lbl, |a.data|, 4, 5, 1)])
    else
      Asm(a.data + LegacyEncode(Jmp(Narrow(RelativeTo(lbl, |a.data|, 5), 4))), a.labels)
  }

  /** The assembler's invariant: every patch is a field of an instruction
      already emitted, and no two patches share an instruction. */
  predicate WellRecorded(a: Asm)
  {
    AllRecorded(a.labels, |a.data|) && Apart(a.labels)
  }

  lemma RecordedGrow(labels: seq<Label>, n: nat, n': nat)
    requires AllRecorded(labels, n) && n <= n'
    ensures AllRecorded(labels, n')
  {
  }

  /** Appending an instruction keeps the invariant. */
  lemma PutKeeps(a: Asm, i: Instr)
    requires WellRecorded(a)
    ensures WellRecorded(Put(a, i)) && Put(a, i).labels == a.labels
    ensures |Put(a, i).data| >= |a.data| && Put(a, i).data[..|a.data|] == a.data
  {
    RecordedGrow(a.labels, |a.data|, |Put(a, i).data|);
  }

  /** So do creating and binding a label. */
  lemma PutLabelKeeps(a: Asm)
    requires WellRecorded(a)
    ensures WellRecorded(PutLabel(a)) && PutLabel(a).data == a.data
    ensures |PutLabel(a).labels| == |a.labels| + 1 && PutLabel(a).labels[..|a.labels|] == a.labels
  {
    assert PutLabel(a).labels[..|a.labels|] == a.labels;
  }

  lemma PutBindKeeps(a: Asm, l: nat)
    requires WellRecorded(a) && l < |a.labels|
    ensures WellRecorded(PutBind(a, l)) && PutBind(a, l).data == a.data
  {
  }

  /** A patch recorded at the cursor is apart from every earlier one. */
  lemma AddKeepsApart(labels: seq<Label>, l: nat, n: nat, size: nat, insLen: nat, offset: int)
    requires AllRecorded(labels, n) && Apart(labels) && l < |labels|
    ensures Apart(labels[l := AddBackpatch(labels[l], n, size, insLen, offset)])
  {
    var ls := labels[l := AddBackpatch(labels[l], n, size, insLen, offset)];
    var p := BackPatch(n, size, insLen, offset);
    assert forall m, i :: 0 <= m < |ls| && 0 <= i < |ls[m].patches| ==>
      (m == l && i == |labels[l].patches| && ls[m].patches[i] == p) ||
      (i < |labels[m].patches| && ls[m].patches[i] == labels[m].patches[i]);
  }

  /** A recorded patch whose instruction is emitted right after is recorded. */
  lemma AddKeepsRecorded(labels: seq<Label>, l: nat, n: nat, size: nat, insLen: nat, offset: int)
    requires AllRecorded(labels, n) && l < |labels|
    requires Recorded(BackPatch(n, size, insLen, offset), n + insLen)
    ensures AllRecorded(labels[l := AddBackpatch(labels[l], n, size, insLen, offset)], n + insLen)
  {
    var ls := labels[l := AddBackpatch(labels[l], n, size, insLen, offset)];
    assert forall m, i :: 0 <= m < |ls| && 0 <= i < |ls[m].patches| ==>
      (m == l && i == |labels[l].patches| && ls[m].patches[i] == BackPatch(n, size, insLen, offset)) ||
      (i < |labels[m].patches| && ls[m].patches[i] == labels[m].patches[i]);
  }

  /** The bytes of a `jcc` and of a `jmp`. */
  lemma JccEncoding(cc: Condition, rel: i32)
    ensures LegacyEncode(Jcc(cc, rel)) == [0x0F, 0x80 + CondCode(cc)] + ToBytes(rel, 4)
  {
  }

  lemma JmpEncoding(rel: i32)
    ensures LegacyEncode(Jmp(rel)) == [0xE9] + ToBytes(rel, 4)
  {
  }

  /** Where an instruction's opcode and field land once appended to `d`. */
  lemma AppendedBytes(d: seq<byte>, head: seq<byte>, field: seq<byte>)
    ensures var x := d + (head + field);
      |x| == |d| + |head| + |field| && x[..|d|] == d &&
      (forall k :: 0 <= k < |head| ==> x[|d| + k] == head[k]) && x[|d| + |head|..] == field
  {
    var x := d + (head + field);
    assert x[..|d|] == d;
    assert x[|d| + |head|..] == field;
  }

  /** `emit_jcc` keeps the invariant and appends a 6-byte `jcc`; for an
      unbound label the new last patch of `l` covers its rel32 field, for a
      bound one the field holds the displacement to it. */
  lemma PutJccKeeps(a: Asm, cc: Condition, l: nat)
    requires WellRecorded(a) && l < |a.labels|
    ensures var r := PutJcc(a, cc, l);
      WellRecorded(r) && |r.labels| == |a.labels| && |r.data| == |a.data| + 6 && r.data[..|a.data|] == a.data &&
      r.data[|a.data|] == 0x0F && r.data[|a.data| + 1] == 0x80 + CondCode(cc) &&
      (forall m :: 0 <= m < |a.labels| && m != l ==> r.labels[m] == a.labels[m]) &&
      (a.labels[l].bound ==> (r.labels == a.labels &&
         r.data[|a.data| + 2..] == PatchBytes(BackPatch(|a.data|, 4, 6, 2), a.labels[l]))) &&
      (!a.labels[l].bound ==> (r.labels[l] == AddBackpatch(a.labels[l], |a.data|, 4, 6, 2) &&
         r.data[|a.data| + 2..] == [0, 0, 0, 0]))
  {
    Pow256Values();
    var n, lbl := |a.data|, a.labels[l];
    var rel: i32 := if lbl.bound then Narrow(RelativeTo(lbl, n, 6), 4) else 0;
    JccEncoding(cc, rel);
    var r := PutJcc(a, cc, l);
    assert r.data == a.data + ([0x0F, 0x80 + CondCode(cc)] + ToBytes(rel, 4));
    AppendedBytes(a.data, [0x0F, 0x80 + CondCode(cc)], ToBytes(rel, 4));
    if !lbl.bound {
      AddKeepsRecorded(a.labels, l, n, 4, 6, 2);
      AddKeepsApart(a.labels, l, n, 4, 6, 2);
    } else {
      RecordedGrow(a.labels, n, |r.data|);
    }
  }

  /** `emit_jmp` likewise, with a 5-byte `jmp` whose field starts 1 byte in. */
  lemma PutJmpKeeps(a: Asm, l: nat)
    requires WellRecorded(a) && l < |a.labels|
    ensures var r := PutJmp(a, l);
      WellRecorded(r) && |r.labels| == |a.labels| && |r.data| == |a.data| + 5 && r.data[..|a.data|] == a.data &&
      r.data[|a.data|] == 0xE9 &&
      (forall m :: 0 <= m < |a.labels| && m != l ==> r.labels[m] == a.labels[m]) &&
      (a.labels[l].bound ==> (r.labels == a.labels &&
         r.data[|a.data| + 1..] == PatchBytes(BackPatch(|a.data|, 4, 5, 1), a.labels[l]))) &&
      (!a.labels[l].bound ==> (r.labels[l] == AddBackpatch(a.labels[l], |a.data|, 4, 5, 1) &&
         r.data[|a.data| + 1..] == [0, 0, 0, 0]))
  {
    Pow256Values();
    var n, lbl := |a.data|, a.labels[l];
    var rel: i32 := if lbl.bound then Narrow(RelativeTo(lbl, n, 5), 4) else 0;
    JmpEncoding(rel);
    var r := PutJmp(a, l);
    assert r.data == a.data + ([0xE9] + ToBytes(rel, 4));
    AppendedBytes(a.data, [0xE9], ToBytes(rel, 4));
    if !lbl.bound {
      AddKeepsRecorded(a.labels, l, n, 4, 5, 1);
      AddKeepsApart(a.labels, l, n, 4, 5, 1);
    } else {
      RecordedGrow(a.labels, n, |r.data|);
    }
  }

  /** The older draft's byte-memory operand: REX `49` exactly for r8 to r15,
      SIB `24` exactly for rsp and r12, so 2, 3 or 4 bytes, with the opcode
      and the ModR/M extension in place. That it decodes back to its base
      register is `X86RoundTrip.LegacyDecodeEncode`. */
  lemma LegacyMemOperand(opcode: byte, ext: byte, reg: Register)
    requires ext < 8 && !(0x40 <= opcode < 0x50)
    ensures var b := LegacyMemRm8(opcode, ext, reg); var at := if IsExtended(reg) then 1 else 0;
      |b| == 2 + at + (if reg == Rsp || reg == R12 then 1 else 0) &&
      (IsExtended(reg) <==> b[0] == 0x49) && b[at] == opcode && (b[at + 1] / 8) % 8 == ext &&
      ((reg == Rsp || reg == R12) <==> |b| == at + 3 && b[at + 2] == 0x24)
  {
    SibForStackPointer();
    assert MakeRex(true, false, false, true) == 0x49;
  }

  /** The three optional-or-fixed parts of a byte-memory operand, appended
      one after the other, make up `LegacyMemRm8`. */
  lemma LegacyMemSplit(d0: seq<byte>, d1: seq<byte>, d2: seq<byte>, d3: seq<byte>, opcode: byte, ext: byte, reg: Register)
    requires ext < 8
    requires d1 == d0 + (if IsExtended(reg) then [MakeRex(true, false, false, true)] else [])
    requires d2 == d1 + [opcode, MakeModRM(0, ext, RegToInt(reg))]
    requires d3 == d2 + (if reg == Rsp || reg == R12 then [MakeSib(0, 4, RegToInt(reg))] else [])
    ensures d3 == d0 + LegacyMemRm8(opcode, ext, reg)
  {
  }

  /** The writes of a label whose fields fit lie inside the buffer. */
  lemma ResolveInside(l: Label, n: nat)
    requires forall i :: 0 <= i < |l.patches| ==> FieldFits(l.patches[i], n)
    ensures AllWritable(l.patches) && AllInside(LabelWrites(l), n)
  {
    if l.patches != [] && l.bound {
      var ws := PatchWrites(l.patches, l, |l.patches|);
      forall w | w in ws
        ensures Inside(w, n)
      {
        var i :| 0 <= i < |ws| && ws[i] == w;
        PatchWriteAt(l.patches, l, |l.patches|, i);
      }
    }
  }

  /** One more turn of the loop in `resolve_backpatches`. */
  lemma PatchWritesStep(ps: seq<BackPatch>, l: Label, k: nat, s: seq<byte>)
    requires AllWritable(ps) && k < |ps| && FieldFits(ps[k], |s|)
    requires AllInside(PatchWrites(ps, l, k), |s|)
    ensures AllInside(PatchWrites(ps, l, k + 1), |s|)
    ensures ApplyWrites(s, PatchWrites(ps, l, k + 1))
      == Overwrite(ApplyWrites(s, PatchWrites(ps, l, k)), ps[k].rip + ps[k].offset, PatchBytes(ps[k], l))
  {
    OverwriteSnoc(s, PatchWrites(ps, l, k), PatchWrite(ps[k], l));
  }

  lemma OverwriteSnoc(s: seq<byte>, ws: seq<Write>, w: Write)
    requires AllInside(ws, |s|) && Inside(w, |s|)
    ensures AllInside(ws + [w], |s|)
    ensures ApplyWrites(s, ws + [w]) == Overwrite(ApplyWrites(s, ws), w.at, w.bytes)
  {
    InsideSnoc(ws, w, |s|);
    ApplyWritesSnoc(s, ws, w);
  }

  lemma InsideSnoc(ws: seq<Write>, w: Write, n: nat)
    requires AllInside(ws, n) && Inside(w, n)
    ensures AllInside(ws + [w], n)
  {
  }


  /** One more turn of the loop in `finalize()`. */
  lemma AllWritesStep(labels: seq<Label>, k: nat, s: seq<byte>, d: seq<byte>)
    requires LabelsFit(labels, |s|) && k < |labels|
    requires AllInside(AllWrites(labels[..k]), |s|) && d == ApplyWrites(s, AllWrites(labels[..k]))
    ensures AllInside(LabelWrites(labels[k]), |s|) && AllInside(AllWrites(labels[..k + 1]), |s|)
    ensures ApplyWrites(s, AllWrites(labels[..k + 1])) == ApplyWrites(d, LabelWrites(labels[k]))
  {
    assert labels[..k + 1][..k] == labels[..k];
    ResolveInside(labels[k], |s|);
    assert AllWrites(labels[..k + 1]) == AllWrites(labels[..k]) + LabelWrites(labels[k]);
    ApplyWritesAppend(s, AllWrites(labels[..k]), LabelWrites(labels[k]));
  }

  /** `Assembler`: the encoder, over an `Emitter` it holds by reference. */
  class Assembler {
    /** `m_emitter`. */
    const emitter: Emitter
    /** `m_labels`: the labels the assembler owns; a `Label*` handed out is
        a position in this sequence. */
    var labels: seq<Label>

    ghost function State(): Asm
      reads this, emitter
    {
      Asm(emitter.data, labels)
    }

    /** The class invariant: `WellRecorded`. */
    ghost predicate Valid()
      reads this, emitter
    {
      WellRecorded(State())
    }

    constructor (output: Emitter)
      ensures emitter == output && labels == [] && Valid()
    {
      emitter := output;
      labels := [];
    }

    /** `m_emitter.emit<uint8_t>(b)`. */
    method EmitU8(b: byte)
      modifies emitter
      ensures emitter.data == old(emitter.data) + [b]
    {
      emitter.Emit(b, 1);
      ToBytesByte(b);
    }

    /** `emit_real(disp)` inside `emit_jcc`: `0F`, `80+cc`, the rel32. */
    method EmitJccReal(cc: Condition, disp: i32)
      modifies emitter
      ensures emitter.data == old(emitter.data) + LegacyEncode(Jcc(cc, disp))
    {
      ConditionAtCode(cc);
      EmitU8(0x0F);
      EmitU8(0x80 + CondCode(cc));
      emitter.Emit(disp, 4);
      JccEncoding(cc, disp);
    }

    /** `emit_jcc(cc, label)`. */
    method EmitJcc(cc: Condition, l: nat)
      requires Valid() && l < |labels|
      modifies this, emitter
      ensures State() == PutJcc(old(State()), cc, l) && Valid()
    {
      ghost var a := State();
      Pow256Values();
      if !labels[l].bound {
        var c := emitter.Cursor();
        labels := labels[l := AddBackpatch(labels[l], c, 4, 6, 2)];
        EmitJccReal(cc, 0);
      } else {
        var c := emitter.Cursor();
        EmitJccReal(cc, Narrow(RelativeTo(labels[l], c, 6), 4));
      }
      PutJccKeeps(a, cc, l);
    }

    /** `emit_real(disp)` inside `emit_jmp`: `E9`, the rel32. */
    method EmitJmpReal(disp: i32)
      modifies emitter
      ensures emitter.data == old(emitter.data) + LegacyEncode(Jmp(disp))
    {
      EmitU8(0xE9);
      emitter.Emit(disp, 4);
      JmpEncoding(disp);
    }

    /** `emit_jmp(label)`. */
    method EmitJmp(l: nat)
      requires Valid() && l < |labels|
      modifies this, emitter
      ensures State() == PutJmp(old(State()), l) && Valid()
    {
      ghost var a := State();
      Pow256Values();
      if !labels[l].bound {
        var c := emitter.Cursor();
        labels := labels[l := AddBackpatch(labels[l], c, 4, 5, 1)];
        EmitJmpReal(0);
      } else {
        var c := emitter.Cursor();
        EmitJmpReal(Narrow(RelativeTo(labels[l], c, 5), 4));
      }
      PutJmpKeeps(a, l);
    }

    /** `emit_ret(imm)`: `C3`, or `C2 iw` for a nonzero `imm`. */
    method EmitRet(imm: i16)
      requires Valid()
      modifies emitter
      ensures State() == Put(old(State()), Ret(imm)) && Valid()
    {
      ghost var a := State();
      if imm == 0 {
        EmitU8(0xC3);
      } else {
        EmitU8(0xC2);
        emitter.Emit(imm, 2);
      }
      PutKeeps(a, Ret(imm));
    }

    /** `emit_push(reg)`: `50+r`. */
    method EmitPush(reg: Register)
      requires Valid()
      modifies emitter
      ensures State() == Put(old(State()), Push(reg)) && Valid()
    {
      ghost var a := State();
      EmitU8(0x50 + RegToInt(reg));
      PutKeeps(a, Push(reg));
    }

    /** `emit_pop(reg)`: `58+r`. */
    method EmitPop(reg: Register)
      requires Valid()
      modifies emitter
      ensures State() == Put(old(State()), Pop(reg)) && Valid()
    {
      ghost var a := State();
      EmitU8(0x58 + RegToInt(reg));
      PutKeeps(a, Pop(reg));
    }

    /** `emit_sub_ri32(reg, imm)`: `REX.W 81 /5 id`. */
    method EmitSubRI32(reg: Register, imm: i32)
      requires Valid()
      modifies emitter
      ensures State() == Put(old(State()), SubRI32(reg, imm)) && Valid()
    {
      ghost var a := State();
      var rex, modrm := MakeRex(true, false, false, IsExtended(reg)), MakeModRM(3, 5, RegToInt(reg));
      EmitU8(rex);
      EmitU8(0x81);
      EmitU8(modrm);
      emitter.Emit(imm, 4);
      assert emitter.data == a.data + ([rex, 0x81, modrm] + ToBytes(imm, 4));
      assert LegacyEncode(SubRI32(reg, imm)) == [rex, 0x81, modrm] + ToBytes(imm, 4);
      PutKeeps(a, SubRI32(reg, imm));
    }

    /** `emit_mov_ri32(reg, imm)`: `REX.W C7 /0 id`. */
    method EmitMovRI32(reg: Register, imm: i32)
      requires Valid()
      modifies emitter
      ensures State() == Put(old(State()), MovRI32(reg, imm)) && Valid()
    {
      ghost var a := State();
      var rex, modrm := MakeRex(true, false, false, IsExtended(reg)), MakeModRM(3, 0, RegToInt(reg));
      EmitU8(rex);
      EmitU8(0xC7);
      EmitU8(modrm);
      emitter.Emit(imm, 4);
      assert emitter.data == a.data + ([rex, 0xC7, modrm] + ToBytes(imm, 4));
      assert LegacyEncode(MovRI32(reg, imm)) == [rex, 0xC7, modrm] + ToBytes(imm, 4);
      PutKeeps(a, MovRI32(reg, imm));
    }

    /** `emit_mov_rr(dst, src)`: `REX.W 89 /r`. */
    method EmitMovRR(dst: Register, src: Register)
      requires Valid()
      modifies emitter
      ensures State() == Put(old(State()), MovRR(dst, src)) && Valid()
    {
      ghost var a := State();
      var rex, modrm := MakeRex(true, IsExtended(src), false, IsExtended(dst)), MakeModRM(3, RegToInt(src), RegToInt(dst));
      EmitU8(rex);
      EmitU8(0x89);
      EmitU8(modrm);
      assert emitter.data == a.data + [rex, 0x89, modrm];
      assert LegacyEncode(MovRR(dst, src)) == [rex, 0x89, modrm];
      PutKeeps(a, MovRR(dst, src));
    }

    /** `emit_xor_rr(dst, src)`: `REX.W 31 /r`. */
    method EmitXorRR(dst: Register, src: Register)
      requires Valid()
      modifies emitter
      ensures State() == Put(old(State()), XorRR(dst, src)) && Valid()
    {
      ghost var a := State();
      var rex, modrm := MakeRex(true, IsExtended(src), false, IsExtended(dst)), MakeModRM(3, RegToInt(src), RegToInt(dst));
      EmitU8(rex);
      EmitU8(0x31);
      EmitU8(modrm);
      assert emitter.data == a.data + [rex, 0x31, modrm];
      assert LegacyEncode(XorRR(dst, src)) == [rex, 0x31, modrm];
      PutKeeps(a, XorRR(dst, src));
    }

    /** `emit_dec_r(reg)`: `REX.W FF /1`. */
    method EmitDecR(reg: Register)
      requires Valid()
      modifies emitter
      ensures State() == Put(old(State()), DecR(reg)) && Valid()
    {
      ghost var a := State();
      var rex, modrm := MakeRex(true, false, false, IsExtended(reg)), MakeModRM(3, 1, RegToInt(reg));
      EmitU8(rex);
      EmitU8(0xFF);
      EmitU8(modrm);
      assert emitter.data == a.data + [rex, 0xFF, modrm];
      assert LegacyEncode(DecR(reg)) == [rex, 0xFF, modrm];
      PutKeeps(a, DecR(reg));
    }

    /** `emit_inc_r(reg)`: `REX.W FF /0`. */
    method EmitIncR(reg: Register)
      requires Valid()
      modifies emitter
      ensures State() == Put(old(State()), IncR(reg)) && Valid()
    {
      ghost var a := State();
      var rex, modrm := MakeRex(true, false, false, IsExtended(reg)), MakeModRM(3, 0, RegToInt(reg));
      EmitU8(rex);
      EmitU8(0xFF);
      EmitU8(modrm);
      assert emitter.data == a.data + [rex, 0xFF, modrm];
      assert LegacyEncode(IncR(reg)) == [rex, 0xFF, modrm];
      PutKeeps(a, IncR(reg));
    }

    /** `emit_dec_rm8(reg)`: `[REX 49] FE /1 [SIB 24]` with `[reg]`. */
    method EmitDecRM8(reg: Register)
      requires Valid()
      modifies emitter
      ensures State() == Put(old(State()), DecM8(reg)) && Valid()
    {
      ghost var a := State();
      EmitRexB(reg);
      ghost var d1 := emitter.data;
      EmitU8(0xFE);
      EmitU8(MakeModRM(0, 1, RegToInt(reg)));
      ghost var d2 := emitter.data;
      EmitSib(reg);
      LegacyMemSplit(a.data, d1, d2, emitter.data, 0xFE, 1, reg);
      LegacyMemBytes(reg, 0);
      PutKeeps(a, DecM8(reg));
    }

    /** `emit_inc_rm8(reg)`: `[REX 49] FE /0 [SIB 24]` with `[reg]`. */
    method EmitIncRM8(reg: Register)
      requires Valid()
      modifies emitter
      ensures State() == Put(old(State()), IncM8(reg)) && Valid()
    {
      ghost var a := State();
      EmitRexB(reg);
      ghost var d1 := emitter.data;
      EmitU8(0xFE);
      EmitU8(MakeModRM(0, 0, RegToInt(reg)));
      ghost var d2 := emitter.data;
      EmitSib(reg);
      LegacyMemSplit(a.data, d1, d2, emitter.data, 0xFE, 0, reg);
      LegacyMemBytes(reg, 0);
      PutKeeps(a, IncM8(reg));
    }

    /** `emit_cmp_mi8(reg, value)`: `[REX 49] 80 /7 [SIB 24] ib` with
        `[reg]`; the `int32_t` value is narrowed to the `int8_t` immediate. */
    method EmitCmpMI8(reg: Register, value: i32)
      requires Valid()
      modifies emitter
      ensures State() == Put(old(State()), CmpMI8(reg, Narrow(value, 1))) && Valid()
    {
      ghost var a := State();
      Pow256Values();
      EmitRexB(reg);
      ghost var d1 := emitter.data;
      EmitU8(0x80);
      EmitU8(MakeModRM(0, 7, RegToInt(reg)));
      ghost var d2 := emitter.data;
      EmitSib(reg);
      LegacyMemSplit(a.data, d1, d2, emitter.data, 0x80, 7, reg);
      ghost var d3 := emitter.data;
      emitter.Emit(Narrow(value, 1), 1);
      assert emitter.data == a.data + (LegacyMemRm8(0x80, 7, reg) + ToBytes(Narrow(value, 1), 1));
      LegacyMemBytes(reg, Narrow(value, 1));
      PutKeeps(a, CmpMI8(reg, Narrow(value, 1)));
    }

    /** The REX prefix of a byte-memory operand: `49` (W and B) for an
        extended base, nothing otherwise. */
    method EmitRexB(reg: Register)
      modifies emitter
      ensures emitter.data == old(emitter.data) + (if IsExtended(reg) then [MakeRex(true, false, false, true)] else [])
    {
      if IsExtended(reg) {
        EmitU8(MakeRex(true, false, false, true));
      }
    }

    /** The SIB byte of a byte-memory operand: `24` (no index, base rsp or
        r12) for a base whose low bits select one, nothing otherwise. */
    method EmitSib(reg: Register)
      modifies emitter
      ensures emitter.data == old(emitter.data) + (if reg == Rsp || reg == R12 then [MakeSib(0, 4, RegToInt(reg))] else [])
    {
      if reg == Rsp || reg == R12 {
        EmitU8(MakeSib(0, 4, RegToInt(reg)));
      }
    }

    /** `emit_stosb()`: `AA`. */
    method EmitStosb()
      requires Valid()
      modifies emitter
      ensures State() == Put(old(State()), Stosb) && Valid()
    {
      ghost var a := State();
      EmitU8(0xAA);
      PutKeeps(a, Stosb);
    }

    /** `emit_prefix(type)`: the prefix byte. */
    method EmitPrefix(prefix: Prefix)
      requires Valid()
      modifies emitter
      ensures State() == Put(old(State()), RawPrefix(prefix)) && Valid()
    {
      ghost var a := State();
      EmitU8(PrefixByte(prefix));
      PutKeeps(a, RawPrefix(prefix));
    }

    /** `emit_cld()`: `FC`. */
    method EmitCld()
      requires Valid()
      modifies emitter
      ensures State() == Put(old(State()), Cld) && Valid()
    {
      ghost var a := State();
      EmitU8(0xFC);
      PutKeeps(a, Cld);
    }

    /** `emit_int3()`: `CC`. */
    method EmitInt3()
      requires Valid()
      modifies emitter
      ensures State() == Put(old(State()), Int3) && Valid()
    {
      ghost var a := State();
      EmitU8(0xCC);
      PutKeeps(a, Int3);
    }

    /** `label()`: a new unbound label, owned by the assembler. */
    method CreateLabel() returns (l: nat)
      requires Valid()
      modifies this
      ensures l == |old(labels)| && State() == PutLabel(old(State())) && Valid()
    {
      ghost var a := State();
      l := |labels|;
      labels := labels + [NewLabel()];
      PutLabelKeeps(a);
    }

    /** `bind(label)`: `label` bound at the cursor. */
    method BindLabel(l: nat)
      requires Valid() && l < |labels|
      modifies this
      ensures State() == PutBind(old(State()), l) && Valid()
    {
      ghost var a := State();
      var c := emitter.Cursor();
      labels := labels[l := Bind(labels[l], c)];
      PutBindKeeps(a, l);
    }

    /** `labels[l]->resolve_backpatches(m_emitter)`: nothing when the label
        has no patches or is unbound; otherwise each field in turn gets the
        displacement, and the list is cleared. The copies are unchecked, so
        every field must lie inside the buffer. */
    method ResolveBackpatches(l: nat)
      requires l < |labels|
      requires forall i :: 0 <= i < |labels[l].patches| ==> FieldFits(labels[l].patches[i], |emitter.data|)
      modifies this, emitter
      ensures AllWritable(old(labels[l]).patches) && AllInside(LabelWrites(old(labels[l])), |old(emitter.data)|)
      ensures emitter.data == ApplyWrites(old(emitter.data), LabelWrites(old(labels[l])))
      ensures labels == old(labels)[l := Resolved(old(labels[l]))]
    {
      var lbl := labels[l];
      ResolveInside(lbl, |emitter.data|);
      if lbl.patches == [] || !lbl.bound {
        return;
      }
      WritePatches(lbl);
      labels := labels[l := lbl.(patches := [])];
    }

    /** The loop of `resolve_backpatches`: the patches of `lbl`, in order. */
    method WritePatches(lbl: Label)
      requires forall i :: 0 <= i < |lbl.patches| ==> FieldFits(lbl.patches[i], |emitter.data|)
      modifies emitter
      ensures AllWritable(lbl.patches) && AllInside(PatchWrites(lbl.patches, lbl, |lbl.patches|), |old(emitter.data)|)
      ensures emitter.data == ApplyWrites(old(emitter.data), PatchWrites(lbl.patches, lbl, |lbl.patches|))
    {
      ghost var s := emitter.data;
      var k := 0;
      while k < |lbl.patches|
        invariant k <= |lbl.patches| && |emitter.data| == |s|
        invariant AllInside(PatchWrites(lbl.patches, lbl, k), |s|)
        invariant emitter.data == ApplyWrites(s, PatchWrites(lbl.patches, lbl, k))
      {
        WriteNext(lbl, k, s);
        k := k + 1;
      }
    }

    /** Turn `k` of the loop: the data had the writes of the first `k`
        patches applied, and now has those of the first `k + 1`. */
    method WriteNext(lbl: Label, k: nat, ghost s: seq<byte>)
      requires k < |lbl.patches| && |emitter.data| == |s|
      requires forall i :: 0 <= i < |lbl.patches| ==> FieldFits(lbl.patches[i], |s|)
      requires AllWritable(lbl.patches) && AllInside(PatchWrites(lbl.patches, lbl, k), |s|)
      requires emitter.data == ApplyWrites(s, PatchWrites(lbl.patches, lbl, k))
      modifies emitter
      ensures |emitter.data| == |s| && AllInside(PatchWrites(lbl.patches, lbl, k + 1), |s|)
      ensures emitter.data == ApplyWrites(s, PatchWrites(lbl.patches, lbl, k + 1))
    {
      var p := lbl.patches[k];
      assert FieldFits(p, |s|);
      PatchWritesStep(lbl.patches, lbl, k, s);
      WritePatch(p, lbl);
    }

    /** One turn of the loop in `resolve_backpatches`: the displacement,
        converted to `int8_t` or `int32_t` by the field's size, copied over
        the field. */
    method WritePatch(p: BackPatch, lbl: Label)
      requires FieldFits(p, |emitter.data|)
      modifies emitter
      ensures emitter.data == Overwrite(old(emitter.data), p.rip + p.offset, PatchBytes(p, lbl))
    {
      var disp := RelativeTo(lbl, p.rip, p.insLen);
      if p.size == 1 {
        emitter.EmitTo(p.rip + p.offset, Narrow(disp, 1), 1);
      } else if p.size == 4 {
        emitter.EmitTo(p.rip + p.offset, Narrow(disp, 4), 4);
      } else {
        assert false;
      }
    }

    /** `finalize()`: every label resolves its patches, in order; the labels
        are then dropped and the whole contents returned. */
    method Finalize() returns (code: seq<byte>)
      requires LabelsFit(labels, |emitter.data|)
      modifies this, emitter
      ensures LabelsWritable(old(labels)) && AllInside(AllWrites(old(labels)), |old(emitter.data)|)
      ensures code == emitter.data && code == ApplyWrites(old(emitter.data), AllWrites(old(labels)))
      ensures labels == []
    {
      AllWritesInside(labels, |emitter.data|);
      var k := 0;
      while k < |labels|
        invariant k <= |labels| == |old(labels)| && |emitter.data| == |old(emitter.data)|
        invariant forall m :: k <= m < |labels| ==> labels[m] == old(labels)[m]
        invariant AllInside(AllWrites(old(labels)[..k]), |old(emitter.data)|)
        invariant emitter.data == ApplyWrites(old(emitter.data), AllWrites(old(labels)[..k]))
      {
        ghost var d := emitter.data;
        ResolveBackpatches(k);
        AllWritesStep(old(labels), k, old(emitter.data), d);
        k := k + 1;
      }
      assert old(labels)[..k] == old(labels);
      labels := [];
      code := emitter.AsView();
    }
  }
}
