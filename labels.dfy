/** Labels of the current draft (`Label` in the assembler base): a code
    address that starts unknown and is bound once the position is reached. */
module Labels {
  import opened Bytes

  /** `m_is_bound` and `m_rip`. */
  datatype Label = Label(isBound: bool, rip: nat)

  /** A default-constructed label. */
  function NewLabel(): (l: Label)
    ensures !l.isBound && l.rip == 0
  {
    Label(false, 0)
  }

  /** `bind(rip)`: the label becomes bound at `rip`. */
  function Bind(l: Label, rip: nat): (b: Label)
    ensures b.isBound && b.rip == rip
  {
    Label(true, rip)
  }

  /** `relative_to(rip, ins_len)`: `m_rip - rip - ins_len` in `size_t`
      arithmetic, i.e. modulo 2^64. Adding back the origin of the
      instruction's end gives the label's address again. */
  function RelativeTo(l: Label, rip: nat, insLen: nat): (d: u64)
    ensures (d + rip + insLen) % TwoTo64 == l.rip % TwoTo64
  {
    var x := l.rip - rip - insLen;
    ModAddMultiple(l.rip, -(x / TwoTo64), TwoTo64);
    x % TwoTo64
  }
}
