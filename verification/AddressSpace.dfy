/** The fixed-origin byte address space both growing streams keep: a vector of segments laid end to end, plus the
    running totals. `K` is what identifies a segment: file name and sequence for the live buffer, a URL for a
    recording. */
module AddressSpace {
  import opened Basics

  datatype Segment<K> = Segment(key: K, byteOffset: int, byteSize: int, timeOffsetMs: int) {
    function End(): int { byteOffset + byteSize }

    predicate Contains(position: int) { byteOffset <= position < End() }
  }

  datatype Space<K> = Space(segments: seq<Segment<K>>, totalBytes: int, totalDurationMs: int) {
    /** Where segment `i` starts, or where the known stream ends. */
    function Boundary(i: nat): int
      requires i <= |segments|
    {
      if i < |segments| then segments[i].byteOffset else totalBytes
    }

    function TimeBoundary(i: nat): int
      requires i <= |segments|
    {
      if i < |segments| then segments[i].timeOffsetMs else totalDurationMs
    }

    function Duration(i: nat): int
      requires i < |segments|
    {
      TimeBoundary(i + 1) - TimeBoundary(i)
    }

    /** Segment `i` holds at least one byte and ends where its successor starts. */
    predicate Linked(i: nat)
      requires i < |segments|
    {
      segments[i].byteSize > 0 && segments[i].End() == Boundary(i + 1)
    }

    /** Appends one segment at the current end. */
    function Push(key: K, byteSize: int, durationMs: int): Space<K> {
      Space(segments + [Segment(key, totalBytes, byteSize, totalDurationMs)],
            totalBytes + byteSize, totalDurationMs + durationMs)
    }

    /** The space without its first `drop` segments, moved so that the oldest kept one starts at 0. */
    function Rebase(drop: nat): Space<K>
      requires drop <= |segments|
    {
      Space(ShiftAll(segments[drop..], Boundary(drop), TimeBoundary(drop)),
            totalBytes - Boundary(drop), totalDurationMs - TimeBoundary(drop))
    }
  }

  function Shift<K>(s: Segment<K>, byteBase: int, timeBase: int): Segment<K> {
    s.(byteOffset := s.byteOffset - byteBase, timeOffsetMs := s.timeOffsetMs - timeBase)
  }

  function ShiftAll<K>(segments: seq<Segment<K>>, byteBase: int, timeBase: int): (r: seq<Segment<K>>)
    ensures |r| == |segments|
    ensures forall i :: 0 <= i < |r| ==> r[i] == Shift(segments[i], byteBase, timeBase)
  {
    if segments == [] then []
    else
      var init, last := segments[..|segments| - 1], segments[|segments| - 1];
      ShiftAll(init, byteBase, timeBase) + [Shift(last, byteBase, timeBase)]
  }

  function Empty<K>(): Space<K> {
    Space([], 0, 0)
  }

  /** The segments lie end to end from 0 to the total. */
  ghost predicate Chained<K(!new)>(sp: Space<K>) {
    && sp.Boundary(0) == 0
    && sp.TimeBoundary(0) == 0
    && forall i :: 0 <= i < |sp.segments| ==> sp.Linked(i)
  }

  function SizesBefore<K>(segments: seq<Segment<K>>): int {
    if segments == [] then 0
    else SizesBefore(segments[..|segments| - 1]) + segments[|segments| - 1].byteSize
  }

  /** Chained says exactly: sizes are positive, offsets are prefix sums of the sizes, the total is their sum. */
  lemma {:induction false} OffsetsArePrefixSums<K(!new)>(sp: Space<K>, i: nat)
    requires Chained(sp) && i <= |sp.segments|
    ensures sp.Boundary(i) == SizesBefore(sp.segments[..i])
  {
    if i > 0 {
      OffsetsArePrefixSums(sp, i - 1);
      assert sp.segments[..i][..i - 1] == sp.segments[..i - 1];
      assert sp.Linked(i - 1);
    }
  }

  lemma {:induction false} BoundariesAscend<K(!new)>(sp: Space<K>, i: nat, j: nat)
    requires Chained(sp) && i <= j <= |sp.segments|
    ensures sp.Boundary(i) + (j - i) <= sp.Boundary(j)
    decreases j
  {
    if i < j {
      BoundariesAscend(sp, i, j - 1);
      assert sp.Linked(j - 1);
    }
  }

  lemma PushKeepsChained<K(!new)>(sp: Space<K>, key: K, byteSize: int, durationMs: int)
    requires Chained(sp) && byteSize > 0
    ensures Chained(sp.Push(key, byteSize, durationMs))
    ensures sp.segments <= sp.Push(key, byteSize, durationMs).segments
  {
    var after := sp.Push(key, byteSize, durationMs);
    forall i | 0 <= i < |after.segments|
      ensures after.Linked(i)
    {
      if i < |sp.segments| {
        assert sp.Linked(i);
      }
    }
  }

  lemma RebaseKeepsChained<K(!new)>(sp: Space<K>, drop: nat)
    requires Chained(sp) && drop <= |sp.segments|
    ensures Chained(sp.Rebase(drop))
  {
    var after := sp.Rebase(drop);
    forall i | 0 <= i < |after.segments|
      ensures after.Linked(i)
    {
      assert sp.Linked(drop + i);
    }
  }

  /** Dropping and rebasing does not interfere with appending. */
  lemma RebaseCommutesWithPush<K>(sp: Space<K>, drop: nat, key: K, byteSize: int, durationMs: int)
    requires drop < |sp.segments|
    ensures sp.Rebase(drop).Push(key, byteSize, durationMs) == sp.Push(key, byteSize, durationMs).Rebase(drop)
  {
    var a, b := sp.Rebase(drop).Push(key, byteSize, durationMs), sp.Push(key, byteSize, durationMs).Rebase(drop);
    assert |a.segments| == |b.segments|;
    forall i | 0 <= i < |a.segments|
      ensures a.segments[i] == b.segments[i]
    {
      if i < |sp.segments| - drop {
        assert a.segments[i] == sp.Rebase(drop).segments[i];
      }
    }
  }

  // ----- Looking a position up -----

  /** The linear search both readers run: the first segment, from index `i` on, that holds `position`. */
  function Locate<K>(segments: seq<Segment<K>>, position: int, i: nat): (r: Option<nat>)
    requires i <= |segments|
    ensures r.Some? ==> i <= r.value < |segments| && segments[r.value].Contains(position)
    ensures r.None? ==> forall j :: i <= j < |segments| ==> !segments[j].Contains(position)
    decreases |segments| - i
  {
    if i == |segments| then None
    else if segments[i].Contains(position) then Some(i)
    else Locate(segments, position, i + 1)
  }

  method FindSegment<K>(segments: seq<Segment<K>>, position: int) returns (r: Option<nat>)
    ensures r == Locate(segments, position, 0)
  {
    for i := 0 to |segments|
      invariant Locate(segments, position, 0) == Locate(segments, position, i)
    {
      if segments[i].Contains(position) {
        return Some(i);
      }
    }
    return None;
  }

  lemma LocatedContains<K>(sp: Space<K>, position: int)
    ensures var r := Locate(sp.segments, position, 0);
      r.Some? ==> r.value < |sp.segments| && sp.segments[r.value].Contains(position)
  {
  }

  lemma SegmentsAreDisjoint<K(!new)>(sp: Space<K>, i: nat, j: nat, position: int)
    requires Chained(sp) && i < |sp.segments| && j < |sp.segments|
    requires sp.segments[i].Contains(position) && sp.segments[j].Contains(position)
    ensures i == j && 0 <= position < sp.totalBytes
  {
    assert sp.Linked(i) && sp.Linked(j);
    if i < j {
      BoundariesAscend(sp, i + 1, j);
    } else if j < i {
      BoundariesAscend(sp, j + 1, i);
    }
    BoundariesAscend(sp, 0, i);
    BoundariesAscend(sp, i + 1, |sp.segments|);
  }

  lemma {:induction false} SomeSegmentContains<K(!new)>(sp: Space<K>, n: nat, position: int)
    requires Chained(sp) && n <= |sp.segments| && 0 <= position < sp.Boundary(n)
    ensures exists i :: 0 <= i < n && sp.segments[i].Contains(position)
  {
    if n > 0 {
      assert sp.Linked(n - 1);
      if position < sp.Boundary(n - 1) {
        SomeSegmentContains(sp, n - 1, position);
      } else {
        assert sp.segments[n - 1].Contains(position);
      }
    }
  }

  /** No gap: the search finds a segment exactly for the positions below the total. */
  lemma NoGap<K(!new)>(sp: Space<K>, position: int)
    requires Chained(sp)
    ensures 0 <= position < sp.totalBytes <==> Locate(sp.segments, position, 0).Some?
  {
    if 0 <= position < sp.totalBytes {
      SomeSegmentContains(sp, |sp.segments|, position);
    }
    var r := Locate(sp.segments, position, 0);
    if r.Some? {
      SegmentsAreDisjoint(sp, r.value, r.value, position);
    }
  }

  // ----- What the positions denote -----

  /** The concatenation of the segments' true contents. */
  ghost function Joined<K(!new)>(segments: seq<Segment<K>>, body: K -> Bytes): Bytes {
    if segments == [] then []
    else Joined(segments[..|segments| - 1], body) + body(segments[|segments| - 1].key)
  }

  /** The recorded sizes are the true ones. */
  ghost predicate Sized<K(!new)>(segments: seq<Segment<K>>, body: K -> Bytes) {
    forall i :: 0 <= i < |segments| ==> |body(segments[i].key)| == segments[i].byteSize
  }

  lemma {:induction false} JoinedIsPrefix<K(!new)>(segments: seq<Segment<K>>, i: nat, body: K -> Bytes)
    requires i <= |segments|
    ensures Joined(segments[..i], body) <= Joined(segments, body)
    decreases |segments|
  {
    var n := |segments|;
    if i < n {
      JoinedIsPrefix(segments[..n - 1], i, body);
      assert segments[..n - 1][..i] == segments[..i];
    } else {
      assert segments[..i] == segments;
    }
  }

  lemma {:induction false} JoinedLength<K(!new)>(sp: Space<K>, i: nat, body: K -> Bytes)
    requires Chained(sp) && Sized(sp.segments, body) && i <= |sp.segments|
    ensures |Joined(sp.segments[..i], body)| == sp.Boundary(i)
  {
    if i > 0 {
      JoinedLength(sp, i - 1, body);
      assert sp.segments[..i][..i - 1] == sp.segments[..i - 1];
      assert sp.Linked(i - 1);
    }
  }

  lemma SliceOfPrefix(prefix: Bytes, all: Bytes, from: nat, to: nat)
    requires prefix <= all && from <= to <= |prefix|
    ensures all[from..to] == prefix[from..to]
  {
  }

  lemma SliceBehind(before: Bytes, own: Bytes, from: nat, to: nat)
    requires from <= to <= |own|
    ensures (before + own)[|before| + from..|before| + to] == own[from..to]
  {
  }

  /** The stream's bytes from `position` on are segment `i`'s own bytes from the matching offset on. */
  lemma SliceInSegment<K(!new)>(sp: Space<K>, i: nat, position: int, n: nat, body: K -> Bytes)
    requires Chained(sp) && Sized(sp.segments, body)
    requires i < |sp.segments| && sp.segments[i].Contains(position) && position + n <= sp.segments[i].End()
    ensures 0 <= position && position + n <= |Joined(sp.segments, body)|
    ensures var s := sp.segments[i];
      Joined(sp.segments, body)[position..position + n]
      == body(s.key)[position - s.byteOffset..position - s.byteOffset + n]
  {
    var s, all, before := sp.segments[i], Joined(sp.segments, body), Joined(sp.segments[..i], body);
    var upTo := Joined(sp.segments[..i + 1], body);
    assert sp.Linked(i);
    JoinedLength(sp, i, body);
    JoinedLength(sp, i + 1, body);
    BoundariesAscend(sp, 0, i);
    JoinedIsPrefix(sp.segments, i + 1, body);
    assert upTo == before + body(s.key) by {
      assert sp.segments[..i + 1][..i] == sp.segments[..i];
    }
    hide Joined, Chained;
    var from := position - s.byteOffset;
    SliceOfPrefix(upTo, all, position, position + n);
    SliceBehind(before, body(s.key), from, from + n);
  }

  /** Joined looks at the contents of the listed segments only. */
  lemma {:induction false} JoinedSame<K(!new)>(segments: seq<Segment<K>>, f: K -> Bytes, g: K -> Bytes)
    requires forall i :: 0 <= i < |segments| ==> f(segments[i].key) == g(segments[i].key)
    ensures Joined(segments, f) == Joined(segments, g)
  {
    if segments != [] {
      JoinedSame(segments[..|segments| - 1], f, g);
    }
  }

  /** What a read returned, and where. */
  datatype Delivery = Delivery(position: int, bytes: Bytes)

  ghost predicate IsSliceAt(stream: Bytes, d: Delivery) {
    0 <= d.position && d.position + |d.bytes| <= |stream| && stream[d.position..d.position + |d.bytes|] == d.bytes
  }

  /** What was a slice of a stream is one of every longer stream. */
  lemma SlicesSurvive(log: seq<Delivery>, before: Bytes, after: Bytes)
    requires before <= after && forall d <- log :: IsSliceAt(before, d)
    ensures forall d <- log :: IsSliceAt(after, d)
  {
    forall d <- log
      ensures IsSliceAt(after, d)
    {
      assert IsSliceAt(before, d);
      assert after[..|before|] == before;
    }
  }

  // ----- Where a seek may land -----

  function SizesFrom<K>(segments: seq<Segment<K>>, from: nat): int
    requires from <= |segments|
    decreases |segments| - from
  {
    if from == |segments| then 0 else segments[from].byteSize + SizesFrom(segments, from + 1)
  }

  /** The furthest a seek may land: short of the end by the last `backoff` segments. */
  function TailTarget<K>(sp: Space<K>, backoff: nat): int {
    Max(0, sp.totalBytes - SizesFrom(sp.segments, |sp.segments| - Min(backoff, |sp.segments|)))
  }

  lemma {:induction false} TailTargetIsBoundary<K(!new)>(sp: Space<K>, from: nat)
    requires Chained(sp) && from <= |sp.segments|
    ensures sp.totalBytes - SizesFrom(sp.segments, from) == sp.Boundary(from)
    decreases |sp.segments| - from
  {
    if from < |sp.segments| {
      TailTargetIsBoundary(sp, from + 1);
      assert sp.Linked(from);
    }
  }

  /** The tail target is the start of a segment, and every position up to it is inside one. */
  lemma TailTargetIsReadable<K(!new)>(sp: Space<K>, backoff: nat)
    requires Chained(sp) && sp.segments != [] && backoff > 0
    ensures var first := |sp.segments| - Min(backoff, |sp.segments|);
      TailTarget(sp, backoff) == sp.segments[first].byteOffset && 0 <= sp.segments[first].byteOffset < sp.totalBytes
  {
    var first := |sp.segments| - Min(backoff, |sp.segments|);
    TailTargetIsBoundary(sp, first);
    BoundariesAscend(sp, 0, first);
    BoundariesAscend(sp, first, |sp.segments|);
  }
}
