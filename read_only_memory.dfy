/** ReadOnlyMemory<byte>: a read-only view of part of a byte array. Slicing makes
    a new view of the same array; no byte is copied. */
module ReadOnlyMemories {
  import opened CsvScan

  /** `length` bytes of `buffer` from `start`; the default memory has no buffer. */
  datatype ReadOnlyMemory = ReadOnlyMemory(buffer: array?<byte>, start: nat, length: nat) {

    predicate Valid() {
      if buffer == null then start == 0 && length == 0 else start + length <= buffer.Length
    }

    /** The bytes the view shows (`Memory.Span`). */
    function Span(): (s: seq<byte>)
      reads buffer
      requires Valid()
      ensures |s| == length
    {
      if buffer == null then [] else buffer[start..start + length]
    }

    /** `Slice(from, count)`: `count` bytes from index `from` of this view. */
    function Slice(from: nat, count: nat): (m: ReadOnlyMemory)
      reads buffer
      requires Valid() && from + count <= length
      ensures m.Valid() && m.buffer == buffer && m.length == count
      ensures m.Span() == Span()[from..from + count]
    {
      ReadOnlyMemory(buffer, start + from, count)
    }

    /** `Slice(from)`: the bytes from index `from` to the end of this view. */
    function SliceFrom(from: nat): (m: ReadOnlyMemory)
      reads buffer
      requires Valid() && from <= length
      ensures m.Valid() && m.buffer == buffer && m.length == length - from
      ensures m.Span() == Span()[from..]
    {
      ReadOnlyMemory(buffer, start + from, length - from)
    }
  }

  /** `default(ReadOnlyMemory<byte>)`. */
  const Default := ReadOnlyMemory(null, 0, 0)
}
