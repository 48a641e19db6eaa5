/** The older draft's code buffer (`Emitter`): the same append and
    overwrite-in-place vector as `DataBuffer`, under other names. */
module Emit {
  import opened Bytes

  class Emitter {
    /** `m_data`: every byte emitted so far. */
    var data: seq<byte>

    constructor ()
      ensures data == []
    {
      data := [];
    }

    /** `emit<T>(value)`: appends the `size` = `sizeof(T)` little-endian bytes of `value`. */
    method Emit(value: int, size: nat)
      modifies this
      ensures data == old(data) + ToBytes(value, size)
      ensures |data| == |old(data)| + size
    {
      data := data + ToBytes(value, size);
    }

    /** `emit_to<T>(offset, value)`: overwrites the `size` bytes at `offset`;
        unchecked in the source, so the range must lie inside the buffer. */
    method EmitTo(offset: nat, value: int, size: nat)
      requires offset + size <= |data|
      modifies this
      ensures data == Overwrite(old(data), offset, ToBytes(value, size))
      ensures |data| == |old(data)|
    {
      data := Overwrite(data, offset, ToBytes(value, size));
    }

    /** `as_view()`: the whole contents. */
    method AsView() returns (view: seq<byte>)
      ensures view == data
    {
      view := data;
    }

    /** `cursor()`: the number of bytes stored. */
    method Cursor() returns (c: nat)
      ensures c == |data|
    {
      c := |data|;
    }
  }
}
