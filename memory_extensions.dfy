/** MemoryExtensions.MakeStupid: cuts one contiguous buffer into a linked list of
    segments of at most `segmentLength` bytes each, every segment carrying the
    running offset of its first byte, and returns the sequence over them. */
module MemoryExtensions {
  import opened CsvScan
  import opened ReadOnlyMemories
  import opened ReadOnlySequences

  function Min(a: int, b: int): int {
    if a <= b then a else b
  }

  /** The chunks MakeStupid cuts `s` into: `segmentLength` bytes at a time from
      the front, the last chunk holding whatever is left. */
  function Chunk(s: seq<byte>, segmentLength: nat): seq<seq<byte>>
    requires segmentLength > 0
    decreases |s|
  {
    if s == [] then []
    else
      var n := Min(segmentLength, |s|);
      [s[..n]] + Chunk(s[n..], segmentLength)
  }

  lemma FlattenCons(c: seq<byte>, cs: seq<seq<byte>>)
    ensures Flatten([c] + cs) == c + Flatten(cs)
  {
    var all := [c] + cs;
    FlattenSplit(all, 1);
    assert all[..1] == [c];
    assert all[1..] == cs;
    assert Flatten([c]) == Flatten([]) + c;
  }

  /** Putting the chunks back together in order gives the buffer back. */
  lemma {:induction false} ChunkFlatten(s: seq<byte>, segmentLength: nat)
    requires segmentLength > 0
    ensures Flatten(Chunk(s, segmentLength)) == s
    decreases |s|
  {
    if s != [] {
      var n := Min(segmentLength, |s|);
      ChunkFlatten(s[n..], segmentLength);
      FlattenCons(s[..n], Chunk(s[n..], segmentLength));
      assert s == s[..n] + s[n..];
    }
  }

  /** Chunk `k` starts `k * segmentLength` bytes into the buffer and holds
      min(segmentLength, bytes remaining) bytes: every chunk but the last is
      full, and none is empty. */
  lemma {:induction false} ChunkLengths(s: seq<byte>, segmentLength: nat, k: nat)
    requires segmentLength > 0
    requires k < |Chunk(s, segmentLength)|
    ensures k * segmentLength < |s|
    ensures |Chunk(s, segmentLength)[k]| == Min(segmentLength, |s| - k * segmentLength)
    ensures 0 < |Chunk(s, segmentLength)[k]| <= segmentLength
    ensures k + 1 < |Chunk(s, segmentLength)| ==> |Chunk(s, segmentLength)[k]| == segmentLength
    decreases |s|
  {
    var n := Min(segmentLength, |s|);
    var tail := Chunk(s[n..], segmentLength);
    assert Chunk(s, segmentLength) == [s[..n]] + tail;
    if k > 0 {
      ChunkLengths(s[n..], segmentLength, k - 1);
      assert n == segmentLength;
      assert (k - 1) * segmentLength + segmentLength == k * segmentLength;
      if k + 1 < |Chunk(s, segmentLength)| {
        ChunkLengths(s[n..], segmentLength, k);
        assert k * segmentLength < |s[n..]|;
      }
    } else if 1 < |Chunk(s, segmentLength)| {
      assert tail != [];
      assert s[n..] != [];
    }
  }

  /** The running index of chunk `k` is `k * segmentLength`. */
  lemma {:induction false} ChunkRunningIndex(s: seq<byte>, segmentLength: nat, k: nat)
    requires segmentLength > 0
    requires k <= |Chunk(s, segmentLength)|
    ensures RunningIndex(Chunk(s, segmentLength), k) == Min(k * segmentLength, |s|)
    decreases k
  {
    var cs := Chunk(s, segmentLength);
    if k > 0 {
      ChunkRunningIndex(s, segmentLength, k - 1);
      ChunkLengths(s, segmentLength, k - 1);
      assert (k - 1) * segmentLength + segmentLength == k * segmentLength;
    }
  }

  /** The sequence over the chunks of a non-empty buffer, from offset 0 of the
      first chunk to the end of the last, is a window holding exactly the
      buffer's bytes. */
  lemma ChunkedWindow(s: seq<byte>, segmentLength: nat)
    requires segmentLength > 0 && s != []
    ensures Chunk(s, segmentLength) != []
    ensures var cs := Chunk(s, segmentLength);
      var r := ReadOnlySequence(cs, SequencePosition(0, 0), EndOf(cs));
      r.IsWindow() && r.Contents() == s
  {
    var cs := Chunk(s, segmentLength);
    ChunkFlatten(s, segmentLength);
    assert cs != [];
    forall k | 0 <= k < |cs| ensures |cs[k]| > 0 {
      ChunkLengths(s, segmentLength, k);
    }
    EndOfOffset(cs);
    assert Flatten(cs)[0..|Flatten(cs)|] == s;
  }

  /** A segment of the list: a view of part of the buffer, the offset of its
      first byte from the start of the whole list, and the segment after it. */
  class MySequenceSegment {
    const memory: ReadOnlyMemory
    const runningIndex: nat
    var next: MySequenceSegment?

    constructor (memory: ReadOnlyMemory, runningIndex: nat)
      ensures this.memory == memory && this.runningIndex == runningIndex && next == null
    {
      this.memory := memory;
      this.runningIndex := runningIndex;
      next := null;
    }

    method SetNext(next: MySequenceSegment)
      modifies this
      ensures this.next == next
    {
      this.next := next;
    }
  }

  /** `segments` is a list linked through `next` in order, ending in null. */
  ghost predicate Linked(segments: seq<MySequenceSegment>)
    reads segments
  {
    && (forall k {:trigger segments[k].next} :: 0 <= k < |segments| - 1 ==> segments[k].next == segments[k + 1])
    && (segments != [] ==> segments[|segments| - 1].next == null)
  }

  /** Hangs `part` after the last segment of a linked list, as the source's
      `last.SetNext(part)` does. */
  method Link(ghost segments: seq<MySequenceSegment>, last: MySequenceSegment, part: MySequenceSegment)
    requires segments != [] && Linked(segments) && last == segments[|segments| - 1]
    requires part.next == null && part !in segments
    modifies last
    ensures Linked(segments + [part])
  {
    forall k | 0 <= k < |segments| - 1
      ensures segments[k] != last
    {
      assert segments[k].next == segments[k + 1];
    }
    last.SetNext(part);
    var linked := segments + [part];
    forall k | 0 <= k < |linked| - 1
      ensures linked[k].next == linked[k + 1]
    {
      if k < |segments| - 1 {
        assert linked[k] == segments[k] && linked[k + 1] == segments[k + 1];
      }
    }
  }

  /** Segment `k` is the view of `memory` from the running index of chunk `k`,
      as long as that chunk, and records that running index. */
  ghost predicate Carries(segments: seq<MySequenceSegment>, chunks: seq<seq<byte>>, memory: ReadOnlyMemory) {
    && |segments| == |chunks|
    && forall k {:trigger segments[k]} :: 0 <= k < |segments| ==>
      && segments[k].runningIndex == RunningIndex(chunks, k)
      && segments[k].memory == ReadOnlyMemory(memory.buffer, memory.start + RunningIndex(chunks, k), |chunks[k]|)
  }

  /** Appending a chunk leaves the running indexes of the chunks before it as
      they were, and the new total is the old one plus the chunk's length. */
  lemma RunningIndexAppend(chunks: seq<seq<byte>>, c: seq<byte>, k: nat)
    requires k <= |chunks|
    ensures RunningIndex(chunks + [c], k) == RunningIndex(chunks, k)
    ensures RunningIndex(chunks + [c], |chunks| + 1) == RunningIndex(chunks, |chunks|) + |c|
  {
    assert (chunks + [c])[..|chunks|] == chunks;
    RunningIndexPrefix(chunks + [c], |chunks|, k);
    RunningIndexPrefix(chunks + [c], |chunks|, |chunks|);
  }

  /** Appending a segment for the next chunk keeps the segments carried. */
  lemma CarriesAppend(segments: seq<MySequenceSegment>, chunks: seq<seq<byte>>, memory: ReadOnlyMemory,
                      part: MySequenceSegment, c: seq<byte>)
    requires Carries(segments, chunks, memory)
    requires part.runningIndex == RunningIndex(chunks, |chunks|)
    requires part.memory == ReadOnlyMemory(memory.buffer, memory.start + part.runningIndex, |c|)
    ensures Carries(segments + [part], chunks + [c], memory)
    ensures RunningIndex(chunks + [c], |chunks| + 1) == part.runningIndex + |c|
  {
    var chunks' := chunks + [c];
    var segments' := segments + [part];
    RunningIndexAppend(chunks, c, 0);
    forall k | 0 <= k < |segments'|
      ensures && segments'[k].runningIndex == RunningIndex(chunks', k)
              && segments'[k].memory == ReadOnlyMemory(memory.buffer, memory.start + RunningIndex(chunks', k), |chunks'[k]|)
    {
      RunningIndexAppend(chunks, c, k);
      if k < |segments| {
        assert segments'[k] == segments[k] && chunks'[k] == chunks[k];
      }
    }
  }

  /** Chunk `k` is the part of the buffer from its running index on. */
  lemma ChunkAt(s: seq<byte>, segmentLength: nat, k: nat)
    requires segmentLength > 0 && k < |Chunk(s, segmentLength)|
    ensures RunningIndex(Chunk(s, segmentLength), k) + |Chunk(s, segmentLength)[k]| <= |s|
    ensures Chunk(s, segmentLength)[k]
         == s[RunningIndex(Chunk(s, segmentLength), k)..RunningIndex(Chunk(s, segmentLength), k) + |Chunk(s, segmentLength)[k]|]
  {
    var cs := Chunk(s, segmentLength);
    ChunkFlatten(s, segmentLength);
    ChunkInFlatten(cs, k);
    assert Flatten(cs) == s;
  }

  /** One step of the cut: the chunks of the bytes from `i` are the next
      min(segmentLength, remaining) bytes, then the chunks of what follows. */
  lemma ChunkStep(s: seq<byte>, segmentLength: nat, i: nat)
    requires segmentLength > 0 && i < |s|
    ensures i + Min(segmentLength, |s| - i) <= |s|
    ensures Chunk(s[i..], segmentLength)
         == [s[i..i + Min(segmentLength, |s| - i)]] + Chunk(s[i + Min(segmentLength, |s| - i)..], segmentLength)
  {
    var n := Min(segmentLength, |s| - i);
    assert s[i..][..n] == s[i..i + n];
    assert s[i..][n..] == s[i + n..];
  }

  /** The loop's bookkeeping: once `chunks` are cut from the bytes before `i`,
      cutting the next piece, which ends at `j`, extends them to the bytes
      before `j`. */
  lemma ChunkAppend(s: seq<byte>, segmentLength: nat, chunks: seq<seq<byte>>, i: nat, j: nat)
    requires segmentLength > 0 && i < |s| && j == i + Min(segmentLength, |s| - i)
    requires chunks + Chunk(s[i..], segmentLength) == Chunk(s, segmentLength)
    ensures j <= |s|
    ensures (chunks + [s[i..j]]) + Chunk(s[j..], segmentLength) == Chunk(s, segmentLength)
  {
    ChunkStep(s, segmentLength, i);
    assert (chunks + [s[i..j]]) + Chunk(s[j..], segmentLength) == chunks + ([s[i..j]] + Chunk(s[j..], segmentLength));
  }

  /** Once the whole buffer is cut, the chunks and their segments describe it:
      the sequence over them is a window holding the buffer, and each segment
      shows its chunk. */
  lemma CutComplete(bytes: seq<byte>, segmentLength: nat, memory: ReadOnlyMemory,
                    chunks: seq<seq<byte>>, segments: seq<MySequenceSegment>)
    requires segmentLength > 0 && memory.Valid() && bytes == memory.Span() && bytes != []
    requires chunks + Chunk(bytes[|bytes|..], segmentLength) == Chunk(bytes, segmentLength)
    requires Carries(segments, chunks, memory)
    ensures chunks == Chunk(bytes, segmentLength) && chunks != [] && segments != []
    ensures var r := ReadOnlySequence(chunks, SequencePosition(0, 0), EndOf(chunks));
      r.IsWindow() && r.Contents() == bytes
    ensures forall k :: 0 <= k < |segments| ==>
      segments[k].memory.Valid() && segments[k].memory.Span() == chunks[k]
    ensures segments[|segments| - 1].memory.length == |chunks[|chunks| - 1]|
  {
    assert bytes[|bytes|..] == [];
    assert chunks == Chunk(bytes, segmentLength);
    ChunkStep(bytes, segmentLength, 0);
    assert bytes[0..] == bytes;
    ChunkedWindow(bytes, segmentLength);
    forall k | 0 <= k < |segments|
      ensures segments[k].memory.Valid() && segments[k].memory.Span() == chunks[k]
    {
      SegmentSpan(bytes, segmentLength, memory, segments, k);
    }
  }

  /** One turn of MakeStupid's loop: cuts the next `min(segmentLength, rest.length)`
      bytes off the front of `rest` as a new segment at `runningIndex`, hangs it
      after `lastSeg` when there is one, and moves `rest` and `runningIndex` past it. */
  method CutNext(memory: ReadOnlyMemory, segmentLength: int, rest: ReadOnlyMemory, runningIndex: nat,
                 lastSeg: MySequenceSegment?, bytes: seq<byte>,
                 ghost segments: seq<MySequenceSegment>, chunks: seq<seq<byte>>)
    returns (part: MySequenceSegment, rest': ReadOnlyMemory, runningIndex': nat, chunks': seq<seq<byte>>)
    requires segmentLength > 0 && runningIndex < |bytes|
    requires rest == ReadOnlyMemory(memory.buffer, memory.start + runningIndex, |bytes| - runningIndex)
    requires chunks + Chunk(bytes[runningIndex..], segmentLength) == Chunk(bytes, segmentLength)
    requires segments == [] <==> lastSeg == null
    requires segments != [] ==> lastSeg == segments[|segments| - 1]
    requires Linked(segments)
    requires Carries(segments, chunks, memory)
    requires RunningIndex(chunks, |chunks|) == runningIndex
    modifies lastSeg
    ensures fresh(part)
    ensures runningIndex < runningIndex' <= |bytes|
    ensures rest' == ReadOnlyMemory(memory.buffer, memory.start + runningIndex', |bytes| - runningIndex')
    ensures chunks' + Chunk(bytes[runningIndex'..], segmentLength) == Chunk(bytes, segmentLength)
    ensures Linked(segments + [part])
    ensures Carries(segments + [part], chunks', memory)
    ensures RunningIndex(chunks', |chunks'|) == runningIndex'
  {
    var partLen := Min(segmentLength, rest.length);
    part := new MySequenceSegment(ReadOnlyMemory(rest.buffer, rest.start, partLen), runningIndex);
    var c := bytes[runningIndex..runningIndex + partLen];
    ChunkAppend(bytes, segmentLength, chunks, runningIndex, runningIndex + partLen);
    CarriesAppend(segments, chunks, memory, part, c);
    chunks' := chunks + [c];
    runningIndex' := runningIndex + partLen;
    rest' := ReadOnlyMemory(rest.buffer, rest.start + partLen, rest.length - partLen);
    if lastSeg != null {
      Link(segments, lastSeg, part);
    } else {
      assert Linked(segments + [part]) by {
        assert segments + [part] == [part];
      }
    }
  }

  /** MakeStupid's loop: cuts all of `memory` into segments, linked in the
      order they were made, and returns the first and the last of them with
      the chunks of bytes they show. */
  method CutAll(memory: ReadOnlyMemory, segmentLength: int, bytes: seq<byte>)
    returns (firstSeg: MySequenceSegment?, lastSeg: MySequenceSegment?, chunks: seq<seq<byte>>,
             ghost segments: seq<MySequenceSegment>)
    requires segmentLength > 0 && memory.length == |bytes|
    ensures chunks + Chunk(bytes[|bytes|..], segmentLength) == Chunk(bytes, segmentLength)
    ensures segments == [] <==> lastSeg == null
    ensures segments != [] ==> firstSeg == segments[0] && lastSeg == segments[|segments| - 1]
    ensures forall s :: s in segments ==> fresh(s)
    ensures Linked(segments)
    ensures Carries(segments, chunks, memory)
  {
    var rest := memory;
    var runningIndex: nat := 0;
    chunks := [];
    firstSeg, lastSeg := null, null;
    segments := [];

    while rest.length != 0
      invariant runningIndex <= |bytes|
      invariant rest == ReadOnlyMemory(memory.buffer, memory.start + runningIndex, |bytes| - runningIndex)
      invariant chunks + Chunk(bytes[runningIndex..], segmentLength) == Chunk(bytes, segmentLength)
      invariant segments == [] <==> lastSeg == null
      invariant segments != [] ==> firstSeg == segments[0] && lastSeg == segments[|segments| - 1]
      invariant forall s :: s in segments ==> fresh(s)
      invariant lastSeg != null ==> fresh(lastSeg)
      invariant Linked(segments)
      invariant Carries(segments, chunks, memory)
      invariant RunningIndex(chunks, |chunks|) == runningIndex
      decreases rest.length
    {
      var part;
      part, rest, runningIndex, chunks := CutNext(memory, segmentLength, rest, runningIndex, lastSeg, bytes, segments, chunks);
      if lastSeg == null {
        firstSeg := part;
      }
      lastSeg := part;
      segments := segments + [part];
    }
  }

  /** Cuts `memory` into segments of at most `segmentLength` bytes, links them in
      creation order from `first` to `last` and returns the sequence from offset
      0 of `first` to the end of `last`. The source loops forever when
      `segmentLength` is 0, throws from `Slice` when it is negative, and
      dereferences a null `last` when the buffer is empty, so a positive length
      and a non-empty buffer are required here. */
  method MakeStupid(memory: ReadOnlyMemory, segmentLength: int)
    returns (sequence: ReadOnlySequence, first: MySequenceSegment, last: MySequenceSegment,
             ghost segments: seq<MySequenceSegment>)
    requires memory.Valid() && memory.length > 0 && segmentLength > 0
    ensures sequence.chunks == Chunk(memory.Span(), segmentLength) && sequence.chunks != []
    ensures sequence == ReadOnlySequence(sequence.chunks, SequencePosition(0, 0), EndOf(sequence.chunks))
    ensures sequence.IsWindow() && sequence.Contents() == memory.Span()
    ensures |segments| > 0 && segments[0] == first && segments[|segments| - 1] == last
    ensures forall s :: s in segments ==> fresh(s)
    ensures Linked(segments)
    ensures Carries(segments, sequence.chunks, memory)
    ensures sequence.end == SequencePosition(|segments| - 1, last.memory.length)
  {
    var bytes := memory.Span();
    var firstSeg, lastSeg, chunks;
    firstSeg, lastSeg, chunks, segments := CutAll(memory, segmentLength, bytes);
    CutComplete(bytes, segmentLength, memory, chunks, segments);
    sequence := ReadOnlySequence(chunks, SequencePosition(0, 0), EndOf(chunks));
    first, last := firstSeg, lastSeg;
  }

  /** A carried segment shows the bytes of its chunk. */
  lemma SegmentSpan(bytes: seq<byte>, segmentLength: nat, memory: ReadOnlyMemory,
                    segments: seq<MySequenceSegment>, k: nat)
    requires segmentLength > 0 && memory.Valid() && bytes == memory.Span()
    requires Carries(segments, Chunk(bytes, segmentLength), memory) && k < |segments|
    ensures segments[k].memory.Valid() && segments[k].memory.Span() == Chunk(bytes, segmentLength)[k]
  {
    var chunks := Chunk(bytes, segmentLength);
    ChunkAt(bytes, segmentLength, k);
    var ri := RunningIndex(chunks, k);
    var m := memory.Slice(ri, |chunks[k]|);
    assert segments[k].memory == m;
  }
}
