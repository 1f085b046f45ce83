/** ReadOnlySequence<byte> and SequenceReader<byte> by their effect on byte
    offsets: a sequence is a list of chunks (the segments' memories in Next
    order) with a start and an end position, and a position is an explicit
    (segment, index) pair. */
module ReadOnlySequences {
  import opened CsvScan

  datatype Option<T> = None | Some(value: T)

  /** A position: the `index`-th byte of segment number `segment`. */
  datatype SequencePosition = SequencePosition(segment: nat, index: nat)

  /** The bytes of all chunks, in order. */
  function Flatten(chunks: seq<seq<byte>>): seq<byte> {
    if chunks == [] then [] else Flatten(chunks[..|chunks| - 1]) + chunks[|chunks| - 1]
  }

  /** The RunningIndex of segment `k`: how many bytes the segments before it hold. */
  function RunningIndex(chunks: seq<seq<byte>>, k: nat): nat
    requires k <= |chunks|
  {
    if k == 0 then 0 else RunningIndex(chunks, k - 1) + |chunks[k - 1]|
  }

  /** Running indexes only look at the segments before them. */
  lemma {:induction false} RunningIndexPrefix(chunks: seq<seq<byte>>, n: nat, k: nat)
    requires k <= n <= |chunks|
    ensures RunningIndex(chunks[..n], k) == RunningIndex(chunks, k)
    decreases k
  {
    if k > 0 {
      RunningIndexPrefix(chunks, n, k - 1);
    }
  }

  /** The flattened bytes are as long as all segments together. */
  lemma {:induction false} FlattenLength(chunks: seq<seq<byte>>)
    ensures |Flatten(chunks)| == RunningIndex(chunks, |chunks|)
    decreases |chunks|
  {
    if chunks != [] {
      var n := |chunks| - 1;
      FlattenLength(chunks[..n]);
      RunningIndexPrefix(chunks, n, n);
    }
  }

  lemma {:induction false} FlattenSplit(chunks: seq<seq<byte>>, k: nat)
    requires k <= |chunks|
    ensures Flatten(chunks) == Flatten(chunks[..k]) + Flatten(chunks[k..])
    decreases |chunks|
  {
    if k == |chunks| {
      assert chunks[..k] == chunks;
      assert chunks[k..] == [];
    } else {
      var n := |chunks|;
      var init := chunks[..n - 1];
      FlattenSplit(init, k);
      assert init[..k] == chunks[..k];
      assert chunks[k..][..|chunks[k..]| - 1] == init[k..];
      assert chunks[k..][|chunks[k..]| - 1] == chunks[n - 1];
    }
  }

  /** Chunk `k` sits in the flattened bytes between its running index and the next. */
  lemma ChunkInFlatten(chunks: seq<seq<byte>>, k: nat)
    requires k < |chunks|
    ensures RunningIndex(chunks, k + 1) == RunningIndex(chunks, k) + |chunks[k]|
    ensures RunningIndex(chunks, k + 1) <= |Flatten(chunks)|
    ensures Flatten(chunks)[RunningIndex(chunks, k)..RunningIndex(chunks, k + 1)] == chunks[k]
  {
    var pre := chunks[..k + 1];
    assert pre[..k] == chunks[..k];
    assert pre[k] == chunks[k];
    FlattenSplit(chunks, k + 1);
    FlattenLength(chunks[..k]);
    RunningIndexPrefix(chunks, k, k);
    assert Flatten(pre) == Flatten(chunks[..k]) + chunks[k];
  }

  /** Running indexes grow with the segment number. */
  lemma {:induction false} RunningIndexMonotone(chunks: seq<seq<byte>>, j: nat, k: nat)
    requires j <= k <= |chunks|
    ensures RunningIndex(chunks, j) <= RunningIndex(chunks, k)
    decreases k - j
  {
    if j < k {
      ChunkInFlatten(chunks, k - 1);
      RunningIndexMonotone(chunks, j, k - 1);
    }
  }

  predicate ValidPosition(chunks: seq<seq<byte>>, p: SequencePosition) {
    p.segment < |chunks| && p.index <= |chunks[p.segment]|
  }

  /** The offset of a position from the start of the first segment. */
  function Offset(chunks: seq<seq<byte>>, p: SequencePosition): nat
    requires ValidPosition(chunks, p)
  {
    RunningIndex(chunks, p.segment) + p.index
  }

  lemma OffsetBound(chunks: seq<seq<byte>>, p: SequencePosition)
    requires ValidPosition(chunks, p)
    ensures Offset(chunks, p) <= |Flatten(chunks)|
  {
    ChunkInFlatten(chunks, p.segment);
  }

  /** Byte `i` of the part of a segment from position `p` is that byte of the
      flattened sequence. */
  lemma ByteAt(chunks: seq<seq<byte>>, p: SequencePosition, i: nat)
    requires ValidPosition(chunks, p) && p.index + i < |chunks[p.segment]|
    ensures Offset(chunks, p) + i < |Flatten(chunks)|
    ensures Flatten(chunks)[Offset(chunks, p) + i] == chunks[p.segment][p.index + i]
  {
    ChunkInFlatten(chunks, p.segment);
    var lo := RunningIndex(chunks, p.segment);
    assert Flatten(chunks)[lo..RunningIndex(chunks, p.segment + 1)][p.index + i]
        == Flatten(chunks)[lo + p.index + i];
  }

  /** The part of segment `p.segment` from `p` ends where the next segment
      starts, or at the end of the bytes after the last segment. */
  lemma SegmentEnd(chunks: seq<seq<byte>>, p: SequencePosition)
    requires ValidPosition(chunks, p)
    ensures Offset(chunks, p) + |chunks[p.segment][p.index..]| == RunningIndex(chunks, p.segment + 1)
    ensures RunningIndex(chunks, p.segment + 1) <= |Flatten(chunks)|
    ensures p.segment + 1 == |chunks| ==> RunningIndex(chunks, p.segment + 1) == |Flatten(chunks)|
    ensures p.segment + 1 < |chunks| ==>
      Offset(chunks, SequencePosition(p.segment + 1, 0)) == RunningIndex(chunks, p.segment + 1)
  {
    ChunkInFlatten(chunks, p.segment);
    if p.segment + 1 == |chunks| {
      FlattenLength(chunks);
    }
  }

  /** The position just past the last byte of the last segment. */
  function EndOf(chunks: seq<seq<byte>>): SequencePosition
    requires chunks != []
  {
    SequencePosition(|chunks| - 1, |chunks[|chunks| - 1]|)
  }

  lemma EndOfOffset(chunks: seq<seq<byte>>)
    requires chunks != []
    ensures ValidPosition(chunks, EndOf(chunks)) && Offset(chunks, EndOf(chunks)) == |Flatten(chunks)|
  {
    FlattenLength(chunks);
  }

  /** A position that is not at the end of its segment, unless it is the end of
      the last one: the form the library gives the positions it computes. */
  predicate Normalized(chunks: seq<seq<byte>>, p: SequencePosition)
    requires chunks != [] && ValidPosition(chunks, p)
  {
    p.index < |chunks[p.segment]| || p == EndOf(chunks)
  }

  /** The library's seek: `index` bytes on from the start of segment `segment`,
      moving into the following segment when it lands on a segment end that is
      not the last. */
  function Seek(chunks: seq<seq<byte>>, segment: nat, index: nat): (p: SequencePosition)
    requires segment < |chunks|
    requires RunningIndex(chunks, segment) + index <= |Flatten(chunks)|
    ensures ValidPosition(chunks, p) && Normalized(chunks, p)
    ensures Offset(chunks, p) == RunningIndex(chunks, segment) + index
    ensures segment <= p.segment
    decreases |chunks| - segment
  {
    ChunkInFlatten(chunks, segment);
    FlattenLength(chunks);
    if segment + 1 == |chunks| || index < |chunks[segment]| then
      SequencePosition(segment, index)
    else
      Seek(chunks, segment + 1, index - |chunks[segment]|)
  }

  /** Two normalized positions at the same byte offset are the same position. */
  lemma NormalizedUnique(chunks: seq<seq<byte>>, p: SequencePosition, q: SequencePosition)
    requires chunks != [] && ValidPosition(chunks, p) && ValidPosition(chunks, q)
    requires Normalized(chunks, p) && Normalized(chunks, q)
    requires Offset(chunks, p) == Offset(chunks, q)
    ensures p == q
  {
    if p.segment < q.segment {
      ChunkInFlatten(chunks, p.segment);
      RunningIndexMonotone(chunks, p.segment + 1, q.segment);
    } else if q.segment < p.segment {
      ChunkInFlatten(chunks, q.segment);
      RunningIndexMonotone(chunks, q.segment + 1, p.segment);
    }
  }

  /** The start of the segment after `segment`, or none after the last one. */
  function NextSegment(chunks: seq<seq<byte>>, segment: nat): Option<SequencePosition> {
    if segment + 1 < |chunks| then Some(SequencePosition(segment + 1, 0)) else None
  }

  /** A sequence: the bytes of `chunks` from `start` to `end`. */
  datatype ReadOnlySequence = ReadOnlySequence(chunks: seq<seq<byte>>, start: SequencePosition, end: SequencePosition) {

    /** Every segment holds bytes and the two positions are in order; the
        default sequence has no segments. */
    predicate Valid() {
      if chunks == [] then start == SequencePosition(0, 0) && end == SequencePosition(0, 0)
      else
        && (forall k :: 0 <= k < |chunks| ==> |chunks[k]| > 0)
        && ValidPosition(chunks, start) && ValidPosition(chunks, end)
        && Offset(chunks, start) <= Offset(chunks, end)
    }

    /** A window a lexer is handed: the default sequence, or a valid sequence
        that runs to the end of its last segment from a normalized start. */
    predicate IsWindow() {
      Valid() && (chunks != [] ==> end == EndOf(chunks) && Normalized(chunks, start))
    }

    /** The bytes between `start` and `end`. */
    function Contents(): seq<byte>
      requires Valid()
    {
      if chunks == [] then []
      else
        OffsetBound(chunks, end);
        Flatten(chunks)[Offset(chunks, start)..Offset(chunks, end)]
    }

    function Length(): nat
      requires Valid()
    {
      |Contents()|
    }

    /** `sequence.Start`; the default sequence's start refers to no segment. */
    function Start(): Option<SequencePosition> {
      if chunks == [] then None else Some(start)
    }

    /** `Slice(from, to)`: a view of the same segments between two positions. */
    function Slice(from: SequencePosition, to: SequencePosition): ReadOnlySequence {
      ReadOnlySequence(chunks, from, to)
    }

    /** `Slice(from)`: a view of the same segments from `from` to the end. */
    function SliceFrom(from: SequencePosition): ReadOnlySequence {
      ReadOnlySequence(chunks, from, end)
    }

    /** `GetPosition(offset, origin)`: the normalized position `offset` bytes
        after `origin`. */
    function GetPosition(offset: nat, origin: SequencePosition): (p: SequencePosition)
      requires chunks != [] && ValidPosition(chunks, origin)
      requires Offset(chunks, origin) + offset <= |Flatten(chunks)|
      ensures ValidPosition(chunks, p) && Normalized(chunks, p)
      ensures Offset(chunks, p) == Offset(chunks, origin) + offset
    {
      Seek(chunks, origin.segment, origin.index + offset)
    }

    /** `TryGet(ref position, out memory)`: the bytes from `position` to the end
        of its segment, and the start of the following segment (none after the
        last); nothing when the position refers to no segment. */
    function TryGet(position: Option<SequencePosition>): (r: Option<(seq<byte>, Option<SequencePosition>)>)
      requires IsWindow()
      requires position.Some? ==> ValidPosition(chunks, position.value)
      ensures r.Some? <==> position.Some?
      ensures r.Some? ==>
        var p := position.value;
        && r.value.0 == chunks[p.segment][p.index..]
        && r.value.1 == NextSegment(chunks, p.segment)
    {
      match position
      case None => None
      case Some(p) => Some((chunks[p.segment][p.index..], NextSegment(chunks, p.segment)))
    }
  }

  /** `default(ReadOnlySequence<byte>)`. */
  const Default := ReadOnlySequence([], SequencePosition(0, 0), SequencePosition(0, 0))

  /** A window's bytes run from its start to the end of the flattened segments. */
  lemma WindowLength(s: ReadOnlySequence)
    requires s.IsWindow() && s.chunks != []
    ensures Offset(s.chunks, s.start) + s.Length() == |Flatten(s.chunks)|
    ensures s.Contents() == Flatten(s.chunks)[Offset(s.chunks, s.start)..]
  {
    EndOfOffset(s.chunks);
  }

  /** A valid sequence's end is as many bytes past its start as it holds. */
  lemma ContentsSpan(s: ReadOnlySequence)
    requires s.Valid() && s.chunks != []
    ensures Offset(s.chunks, s.end) == Offset(s.chunks, s.start) + s.Length()
  {
    OffsetBound(s.chunks, s.end);
  }

  /** Slicing the bytes from `lo` and then from `a - lo` is slicing from `a`. */
  lemma SliceOfSlice(f: seq<byte>, lo: nat, a: nat, b: nat)
    requires lo <= a <= b <= |f|
    ensures f[lo..][a - lo..] == f[a..]
    ensures f[lo..][a - lo..b - lo] == f[a..b]
  {
  }

  /** A window sliced from a position at or after its start holds the window's
      bytes from that position's offset on. */
  lemma SliceFromContents(s: ReadOnlySequence, from: SequencePosition)
    requires s.IsWindow() && s.chunks != [] && ValidPosition(s.chunks, from)
    requires Offset(s.chunks, s.start) <= Offset(s.chunks, from)
    ensures Offset(s.chunks, from) - Offset(s.chunks, s.start) <= s.Length()
    ensures s.SliceFrom(from).Valid()
    ensures s.SliceFrom(from).Contents() == s.Contents()[Offset(s.chunks, from) - Offset(s.chunks, s.start)..]
  {
    var f := Flatten(s.chunks);
    var lo, a := Offset(s.chunks, s.start), Offset(s.chunks, from);
    EndOfOffset(s.chunks);
    OffsetBound(s.chunks, from);
    WindowLength(s);
    assert s.SliceFrom(from).Valid();
    assert s.Contents() == f[lo..];
    assert s.SliceFrom(from).Contents() == f[a..];
    SliceOfSlice(f, lo, a, |f|);
  }

  /** A window sliced between two positions in order, at or after its start,
      holds the window's bytes between their offsets. */
  lemma SliceBetweenContents(s: ReadOnlySequence, from: SequencePosition, to: SequencePosition)
    requires s.IsWindow() && s.chunks != []
    requires ValidPosition(s.chunks, from) && ValidPosition(s.chunks, to)
    requires Offset(s.chunks, s.start) <= Offset(s.chunks, from) <= Offset(s.chunks, to)
    ensures Offset(s.chunks, to) - Offset(s.chunks, s.start) <= s.Length()
    ensures s.Slice(from, to).Valid()
    ensures s.Slice(from, to).Contents()
         == s.Contents()[Offset(s.chunks, from) - Offset(s.chunks, s.start)..Offset(s.chunks, to) - Offset(s.chunks, s.start)]
  {
    var f := Flatten(s.chunks);
    var lo, a, b := Offset(s.chunks, s.start), Offset(s.chunks, from), Offset(s.chunks, to);
    EndOfOffset(s.chunks);
    OffsetBound(s.chunks, to);
    WindowLength(s);
    assert s.Slice(from, to).Valid();
    assert s.Contents() == f[lo..];
    assert s.Slice(from, to).Contents() == f[a..b];
    SliceOfSlice(f, lo, a, b);
  }

  /** A slice of a window between two positions at or after its start holds the
      window's bytes between the two offsets, and so does the slice from the
      first position to the window's end. */
  lemma SliceContents(s: ReadOnlySequence, from: SequencePosition, to: SequencePosition)
    requires s.IsWindow() && s.chunks != []
    requires ValidPosition(s.chunks, from) && ValidPosition(s.chunks, to)
    requires Offset(s.chunks, s.start) <= Offset(s.chunks, from) <= Offset(s.chunks, to)
    ensures s.SliceFrom(from).Valid() && s.Slice(from, to).Valid()
    ensures Offset(s.chunks, to) - Offset(s.chunks, s.start) <= s.Length()
    ensures s.SliceFrom(from).Contents() == s.Contents()[Offset(s.chunks, from) - Offset(s.chunks, s.start)..]
    ensures s.Slice(from, to).Contents()
         == s.Contents()[Offset(s.chunks, from) - Offset(s.chunks, s.start)..Offset(s.chunks, to) - Offset(s.chunks, s.start)]
  {
    WindowLength(s);
    SliceFromContents(s, from);
    SliceBetweenContents(s, from, to);
  }

  /** SequenceReader<byte>: a cursor over a sequence that counts the bytes it has
      consumed. */
  class SequenceReader {
    const sequence: ReadOnlySequence
    var consumed: nat

    ghost predicate Valid()
      reads this
    {
      sequence.IsWindow() && consumed <= sequence.Length()
    }

    constructor (sequence: ReadOnlySequence)
      requires sequence.IsWindow()
      ensures Valid() && this.sequence == sequence && consumed == 0
    {
      this.sequence := sequence;
      consumed := 0;
    }

    /** The bytes not yet consumed. */
    function Unread(): seq<byte>
      reads this
      requires Valid()
    {
      sequence.Contents()[consumed..]
    }

    function Remaining(): nat
      reads this
      requires Valid()
    {
      sequence.Length() - consumed
    }

    /** `reader.Position`: the normalized position of the next unread byte. */
    function Position(): (p: SequencePosition)
      reads this
      requires Valid()
      ensures sequence.chunks != [] ==>
        ValidPosition(sequence.chunks, p) && Normalized(sequence.chunks, p)
        && Offset(sequence.chunks, p) == Offset(sequence.chunks, sequence.start) + consumed
    {
      if sequence.chunks == [] then sequence.start
      else
        EndOfOffset(sequence.chunks);
        sequence.GetPosition(consumed, sequence.start)
    }

    /** `TryPeek(out value)`: the next byte, without consuming it. */
    method TryPeek() returns (found: bool, value: byte)
      requires Valid()
      ensures found <==> Remaining() > 0
      ensures found ==> value == Unread()[0]
    {
      found := consumed < sequence.Length();
      value := if found then sequence.Contents()[consumed] else 0;
    }

    /** `Advance(count)`. */
    method Advance(count: nat)
      requires Valid() && count <= Remaining()
      modifies this
      ensures Valid() && consumed == old(consumed) + count
    {
      consumed := consumed + count;
    }

    /** `TryRead(out value)`: the next byte, consuming it. */
    method TryRead() returns (found: bool, value: byte)
      requires Valid()
      modifies this
      ensures Valid()
      ensures found <==> old(Remaining()) > 0
      ensures found ==> value == old(Unread())[0] && consumed == old(consumed) + 1
      ensures !found ==> consumed == old(consumed)
    {
      found := consumed < sequence.Length();
      if found {
        value := sequence.Contents()[consumed];
        consumed := consumed + 1;
      } else {
        value := 0;
      }
    }

    /** `Rewind(count)`. */
    method Rewind(count: nat)
      requires Valid() && count <= consumed
      modifies this
      ensures Valid() && consumed == old(consumed) - count
    {
      consumed := consumed - count;
    }
  }
}
