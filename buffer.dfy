/** The current draft's code buffer (`DataBuffer`): a growable byte vector
    that is appended to and overwritten in place, never shrunk. */
module Buffer {
  import opened Bytes

  class DataBuffer {
    /** `m_storage`: every byte emitted so far. */
    var storage: seq<byte>

    constructor ()
      ensures storage == []
    {
      storage := [];
    }

    /** `emit<T>(value)`: appends the `size` = `sizeof(T)` little-endian bytes of `value`. */
    method Emit(value: int, size: nat)
      modifies this
      ensures storage == old(storage) + ToBytes(value, size)
      ensures |storage| == |old(storage)| + size
    {
      EmitRange(ToBytes(value, size));
    }

    /** `emit_range(bytes)`: appends `bytes` unchanged. */
    method EmitRange(bytes: seq<byte>)
      modifies this
      ensures storage == old(storage) + bytes
    {
      storage := storage + bytes;
    }

    /** `put<T>(offset, value)`: overwrites the `size` bytes at `offset` with the
        bytes of `value`. The source does no bounds check, so the range must
        already lie inside the buffer. */
    method Put(offset: nat, value: int, size: nat)
      requires offset + size <= |storage|
      modifies this
      ensures storage == Overwrite(old(storage), offset, ToBytes(value, size))
      ensures |storage| == |old(storage)|
    {
      storage := Overwrite(storage, offset, ToBytes(value, size));
    }

    /** `as_view()`: the whole contents. */
    method AsView() returns (view: seq<byte>)
      ensures view == storage
    {
      view := storage;
    }

    /** `cursor()`: the number of bytes stored, i.e. the offset of the next byte. */
    method Cursor() returns (c: nat)
      ensures c == |storage|
    {
      c := |storage|;
    }
  }
}
