/**
 The rolling PTY transcript: a bounded ring of bytes addressed by absolute offsets, and what a
 client that keeps asking for more reads out of it.
 */
module Transcript {
  import opened Wrappers
  import opened LittleEndian

  const CAPACITY: nat := 1024 * 1024

  /** The offset of the oldest byte still held after `total` bytes have been appended. */
  function OldestOffset(total: nat): nat {
    total - Min(total, CAPACITY)
  }

  /** A request for bytes that have already been evicted. */
  datatype SequenceGap = SequenceGap(requested: nat, oldest: nat, end: nat)

  /** Reading from the full history, as if nothing had ever been evicted except by report. */
  function RangeOf(history: seq<Byte>, start: nat, maxBytes: nat): (result: Result<seq<Byte>, SequenceGap>)
    ensures result.Err? <==> |history| > CAPACITY + start
    ensures result.Ok? ==> |result.value| <= maxBytes
    ensures result.Err? ==> result.error == SequenceGap(start, |history| - 1_048_576, |history|)
    ensures result.Ok? && start <= |history| ==>
      result.value <= history[start..] && (|result.value| == maxBytes || start + |result.value| == |history|)
    ensures result.Ok? && start > |history| ==> result.value == []
  {
    var total := |history|;
    if start < OldestOffset(total) then Err(SequenceGap(start, OldestOffset(total), total))
    else Ok(history[Min(start, total)..Min(Min(start, total) + maxBytes, total)])
  }

  datatype Snapshot = Snapshot(oldestOffset: nat, startOffset: nat, endOffset: nat, returnedEndOffset: nat,
                               truncated: bool, data: seq<Byte>)

  function SnapshotOf(history: seq<Byte>, after: Option<nat>, maxBytes: nat): Result<Snapshot, SequenceGap> {
    var total, oldest := |history|, OldestOffset(|history|);
    var start := match after
      case Some(offset) => offset
      case None => if total - Min(total, maxBytes) >= oldest then total - Min(total, maxBytes) else oldest;
    match RangeOf(history, start, maxBytes)
    case Err(gap) => Err(gap)
    case Ok(data) =>
      var returnedEnd := start + |data|;
      Ok(Snapshot(oldest, start, total, returnedEnd, start > oldest || returnedEnd < total, data))
  }

  /** Copying a slice run by run is copying the slice. */
  lemma JoinRuns(ring: seq<Byte>, frontLength: nat, from: nat, to: nat)
    requires frontLength <= |ring| && from <= to <= |ring|
    ensures (if from < frontLength then ring[..frontLength][from..Min(to, frontLength)] else [])
            + (if to > frontLength
               then ring[frontLength..][if from > frontLength then from - frontLength else 0..to - frontLength]
               else [])
            == ring[from..to]
  {
  }

  /** Positions in the ring are positions in the history, shifted by the oldest offset. */
  lemma RangeFound(history: seq<Byte>, bytes: seq<Byte>, start: nat, relative: nat, end: nat, maxBytes: nat)
    requires bytes == history[OldestOffset(|history|)..] && start >= OldestOffset(|history|)
    requires relative == Min(start - OldestOffset(|history|), |bytes|)
    requires end == Min(relative + maxBytes, |bytes|)
    ensures RangeOf(history, start, maxBytes) == Ok(bytes[relative..end])
  {
    var oldest := OldestOffset(|history|);
    SliceOfSlice(history, oldest, relative, end);
    assert oldest + relative == Min(start, |history|);
    assert oldest + end == Min(Min(start, |history|) + maxBytes, |history|);
  }

  lemma SliceOfSlice(s: seq<Byte>, oldest: nat, from: nat, to: nat)
    requires oldest <= |s| && from <= to <= |s| - oldest
    ensures s[oldest..][from..to] == s[oldest + from..oldest + to]
  {
  }

  /** What to keep of a ring and of a chunk behind it. */
  lemma AppendedRing(history: seq<Byte>, bytes: seq<Byte>, chunk: seq<Byte>)
    requires bytes == history[OldestOffset(|history|)..]
    ensures var more, overflow := history + chunk, |bytes| + |chunk| - CAPACITY;
      && |more| == |history| + |chunk| && more[|history|..] == chunk
      && |more[OldestOffset(|more|)..]| == Min(|more|, CAPACITY)
      && OldestOffset(|more|) == |more| - Min(|more|, CAPACITY)
      && (|chunk| >= CAPACITY ==> [] + chunk[|chunk| - CAPACITY..] == more[OldestOffset(|more|)..])
      && (|chunk| < CAPACITY && overflow <= 0 ==> bytes[0..] + chunk == more[OldestOffset(|more|)..])
      && (|chunk| < CAPACITY && overflow > 0 ==> bytes[overflow..] + chunk == more[OldestOffset(|more|)..])
  {
    var more := history + chunk;
    TailOfConcat(history, chunk, OldestOffset(|more|));
    if OldestOffset(|more|) <= |history| {
      var shift := OldestOffset(|more|) - OldestOffset(|history|);
      assert bytes[shift..] == history[OldestOffset(|more|)..];
    }
  }

  lemma TailOfConcat(a: seq<Byte>, b: seq<Byte>, k: nat)
    requires k <= |a| + |b|
    ensures (a + b)[k..] == if k <= |a| then a[k..] + b else b[k - |a|..]
  {
  }

  class Transcript {
    var bytes: seq<Byte>
    var oldestOffset: nat
    var endOffset: nat

    /** Every byte ever appended. */
    ghost var history: seq<Byte>

    /** The ring holds exactly the last bytes of the history, and the offsets say which. */
    ghost predicate Valid()
      reads this
    {
      && endOffset == |history|
      && oldestOffset == OldestOffset(|history|)
      && bytes == history[oldestOffset..]
    }

    constructor ()
      ensures Valid() && history == []
    {
      bytes, oldestOffset, endOffset := [], 0, 0;
      history := [];
    }

    method Append(chunk: seq<Byte>) returns (start: nat, end: nat)
      requires Valid()
      modifies this
      ensures Valid() && history == old(history) + chunk
      ensures start == |old(history)| && end == |history|
      ensures history[start..end] == chunk
      ensures |bytes| == Min(|history|, CAPACITY)
    {
      hide OldestOffset;
      AppendedRing(history, bytes, chunk);
      start := endOffset;
      endOffset := endOffset + |chunk|;
      if |chunk| >= CAPACITY {
        bytes := [];
        bytes := bytes + chunk[|chunk| - CAPACITY..];
      } else {
        var overflow := if |bytes| + |chunk| > CAPACITY then |bytes| + |chunk| - CAPACITY else 0;
        bytes := bytes[overflow..];
        bytes := bytes + chunk;
      }
      oldestOffset := endOffset - |bytes|;
      end := endOffset;
      history := history + chunk;
    }

    /** `frontLength` is where the ring's storage happens to wrap. */
    method Range(start: nat, maxBytes: nat, frontLength: nat) returns (result: Result<seq<Byte>, SequenceGap>)
      requires Valid() && frontLength <= |bytes|
      ensures result == RangeOf(history, start, maxBytes)
    {
      if start < oldestOffset {
        return Err(SequenceGap(start, oldestOffset, endOffset));
      }
      var relative := Min(start - oldestOffset, |bytes|);
      var end := Min(relative + maxBytes, |bytes|);
      var front, back := bytes[..frontLength], bytes[frontLength..];
      var data := [];
      if relative < |front| {
        data := data + front[relative..Min(end, |front|)];
      }
      if end > |front| {
        var from := if relative > |front| then relative - |front| else 0;
        data := data + back[from..end - |front|];
      }
      assert data == bytes[relative..end] by { JoinRuns(bytes, frontLength, relative, end); }
      RangeFound(history, bytes, start, relative, end, maxBytes);
      return Ok(data);
    }

    method TakeSnapshot(after: Option<nat>, maxBytes: nat, frontLength: nat)
      returns (result: Result<Snapshot, SequenceGap>)
      requires Valid() && frontLength <= |bytes|
      ensures result == SnapshotOf(history, after, maxBytes)
    {
      var start: nat;
      match after {
        case Some(offset) => start := offset;
        case None =>
          var newest := if endOffset > maxBytes then endOffset - maxBytes else 0;
          start := if newest >= oldestOffset then newest else oldestOffset;
      }
      var range := Range(start, maxBytes, frontLength);
      if range.Err? {
        return Err(range.error);
      }
      var data := range.value;
      var returnedEnd := start + |data|;
      return Ok(Snapshot(oldestOffset, start, endOffset, returnedEnd,
                         start > oldestOffset || returnedEnd < endOffset, data));
    }
  }

  // ---------------------------------------------------------------------------------------------
  // A client that keeps reading
  // ---------------------------------------------------------------------------------------------

  /** What happens to a transcript while a client follows it. */
  datatype Action = Append(chunk: seq<Byte>) | Poll(maxBytes: nat)

  /** What the client has learned: bytes at an offset, or that a range is gone. */
  datatype Piece = Read(start: nat, data: seq<Byte>) | Lost(from: nat, to: nat)

  /**
   A client asks for a snapshot after its position, moves to `returned_end_offset`, and when told
   of a gap notes it and resumes at the oldest offset the report names.
   */
  function Follow(history: seq<Byte>, position: nat, actions: seq<Action>): (seq<Byte>, nat, seq<Piece>)
    decreases |actions|
  {
    if actions == [] then (history, position, []) else
      match actions[0]
      case Append(chunk) => Follow(history + chunk, position, actions[1..])
      case Poll(maxBytes) =>
        var (piece, next) := match SnapshotOf(history, Some(position), maxBytes)
          case Ok(snapshot) => (Read(position, snapshot.data), snapshot.returnedEndOffset)
          case Err(gap) => (Lost(position, gap.oldest), gap.oldest);
        var (h, p, pieces) := Follow(history, next, actions[1..]);
        (h, p, [piece] + pieces)
  }

  /** The pieces lie end to end from one offset to another, and what was read is what was written. */
  predicate Tiles(pieces: seq<Piece>, from: nat, to: nat, history: seq<Byte>) {
    if pieces == [] then from == to else
      match pieces[0]
      case Read(start, data) =>
        && start == from
        && (data != [] ==> from + |data| <= |history| && history[from..from + |data|] == data)
        && Tiles(pieces[1..], from + |data|, to, history)
      case Lost(start, end) =>
        start == from < end <= OldestOffset(|history|) && Tiles(pieces[1..], end, to, history)
  }

  /** No byte is lost or repeated unless the client is told, whatever is appended in between. */
  lemma {:induction false} FollowTiles(history: seq<Byte>, position: nat, actions: seq<Action>)
    ensures var (end, stop, pieces) := Follow(history, position, actions);
      && history <= end
      && Tiles(pieces, position, stop, end)
    decreases |actions|
  {
    if actions != [] {
      var rest := actions[1..];
      match actions[0] {
        case Append(chunk) => FollowTiles(history + chunk, position, rest);
        case Poll(maxBytes) =>
          match SnapshotOf(history, Some(position), maxBytes) {
            case Ok(snapshot) => FollowTiles(history, snapshot.returnedEndOffset, rest);
            case Err(gap) => FollowTiles(history, gap.oldest, rest);
          }
      }
    }
  }

  /** The bytes of the pieces, in order. */
  function Gathered(pieces: seq<Piece>): seq<Byte> {
    if pieces == [] then [] else
      (if pieces[0].Read? then pieces[0].data else []) + Gathered(pieces[1..])
  }

  lemma SliceSplit(s: seq<Byte>, from: nat, middle: nat, to: nat)
    requires from <= middle <= to <= |s|
    ensures s[from..to] == s[from..middle] + s[middle..to]
  {
  }

  /** A client that starts inside the history and is never told of a gap has read one slice of it. */
  lemma {:induction false} UninterruptedIsSlice(pieces: seq<Piece>, from: nat, to: nat, history: seq<Byte>)
    requires from <= |history| && Tiles(pieces, from, to, history)
    requires forall piece | piece in pieces :: piece.Read?
    ensures from <= to <= |history| && Gathered(pieces) == history[from..to]
    decreases |pieces|
  {
    hide OldestOffset;
    if pieces != [] {
      assert pieces[0] in pieces;
      var data, rest := pieces[0].data, pieces[1..];
      assert from + |data| <= |history| && data == history[from..from + |data|];
      assert forall piece | piece in rest :: piece in pieces;
      UninterruptedIsSlice(rest, from + |data|, to, history);
      SliceSplit(history, from, from + |data|, to);
    }
  }

  /** What a snapshot after an offset reports, and what one without reports: the newest bytes. */
  lemma SnapshotExactly(history: seq<Byte>, offset: nat, maxBytes: nat)
    ensures match SnapshotOf(history, Some(offset), maxBytes)
            case Err(gap) =>
              offset + 1_048_576 < |history|
              && gap == SequenceGap(offset, |history| - 1_048_576, |history|)
            case Ok(s) =>
              && offset + 1_048_576 >= |history| && s.startOffset == offset && s.endOffset == |history|
              && RangeOf(history, offset, maxBytes) == Ok(s.data) && s.returnedEndOffset == offset + |s.data|
              && s.oldestOffset == (if |history| > 1_048_576 then |history| - 1_048_576 else 0)
              && (s.truncated <==> s.oldestOffset < offset || s.returnedEndOffset < |history|)
    ensures var newest := SnapshotOf(history, None, maxBytes);
      && newest.Ok? && newest.value.returnedEndOffset == newest.value.endOffset == |history|
      && newest.value.data == history[newest.value.startOffset..]
      && newest.value.oldestOffset == (if |history| > 1_048_576 then |history| - 1_048_576 else 0)
      && |newest.value.data| <= maxBytes
      && (|newest.value.data| == maxBytes || newest.value.startOffset == newest.value.oldestOffset)
      && (newest.value.truncated <==> newest.value.startOffset > newest.value.oldestOffset)
  {
  }
}
