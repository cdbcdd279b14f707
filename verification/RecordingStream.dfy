/** Reads and seeks on a recording that is still being written. The server sends whole segments only, so the reader
    keeps the one segment body it is in. */
module RecordingStream {
  import opened Basics
  import opened AddressSpace
  import opened TailWait
  import opened InProgressRecording

  /** `known` is the segment list, the finished flag and the recording's entry in the cache across openings; the body
      in `cachedBytes` belongs to the segment that starts at `cachedOffset`, -1 when there is none. */
  datatype RecState = RecState(open: bool, known: Known, position: int, cachedOffset: int, cachedBytes: Bytes,
                               lastShortGiveUp: int, lastSeek: Option<int>)

  datatype BodyReply = NoBody | Body(bytes: Bytes)

  datatype Whence = SeekSet | SeekCur | SeekEnd | Unsupported

  /** The refreshes of a read at the tail: until there is more, the recording is over, or attempts run out. */
  function CatchUp(baseDir: string, k: Known, position: int, i: nat, attempts: nat, replies: nat -> Reply): Known
    decreases attempts - i
  {
    if i >= attempts || position < k.space.totalBytes then k
    else
      var next := Refresh(baseDir, k, replies(i));
      if next.finished then next else CatchUp(baseDir, next, position, i + 1, attempts, replies)
  }

  function AfterCatchUp(baseDir: string, st: RecState, now: int, replies: nat -> Reply): RecState {
    var probe := LikelySeekProbe(st.position, st.lastShortGiveUp, st.lastSeek, now);
    var attempts := ComputeCatchUpAttempts(probe, EstimateSegmentDurationMs(st.known.space));
    var known := CatchUp(baseDir, st.known, st.position, 0, attempts, replies);
    st.(known := known, lastShortGiveUp := ShortGiveUp(probe, st.position < known.space.totalBytes, st.position))
  }

  /** Serving from the segment the position is in, fetching its body first unless it is the cached one. */
  function Serve(st: RecState, size: nat, bodies: string -> BodyReply): (RecState, int, Bytes) {
    match Locate(st.known.space.segments, st.position, 0)
    case None => (st, 0, [])
    case Some(i) =>
      var s := st.known.space.segments[i];
      if st.cachedOffset != s.byteOffset && bodies(s.key).NoBody? then (st, -1, [])
      else
        var held := if st.cachedOffset == s.byteOffset then st
                    else st.(cachedOffset := s.byteOffset, cachedBytes := bodies(s.key).bytes);
        var offset := st.position - s.byteOffset;
        if offset >= |held.cachedBytes| then (held, 0, [])
        else
          var n := Min(size, |held.cachedBytes| - offset);
          (held.(position := st.position + n), n, held.cachedBytes[offset..offset + n])
  }

  function Read(baseDir: string, st: RecState, size: nat, now: int, replies: nat -> Reply, bodies: string -> BodyReply)
    : (RecState, int, Bytes)
  {
    if !st.open || size == 0 then (st, 0, [])
    else if st.position < st.known.space.totalBytes then Serve(st, size, bodies)
    else if st.known.finished then (st, 0, [])
    else
      var waited := AfterCatchUp(baseDir, st, now, replies);
      if waited.position < waited.known.space.totalBytes then Serve(waited, size, bodies) else (waited, 0, [])
  }

  function SeekTo(st: RecState, offset: int, whence: Whence): (RecState, int) {
    var requested :=
      match whence
      case SeekSet => offset
      case SeekCur => st.position + offset
      case SeekEnd => st.known.space.totalBytes + offset
      case Unsupported => -1;
    if requested < 0 then (st, -1)
    else
      var target := Min(requested, TailTarget(st.known.space, 1));
      (st.(position := target), target)
  }

  function Seek(baseDir: string, st: RecState, offset: int, whence: Whence, now: int, reply: Reply): (RecState, int) {
    if !st.open then (st, -1)
    else
      var sought := st.(lastSeek := Some(now));
      SeekTo(if whence.SeekEnd? then sought.(known := Refresh(baseDir, st.known, reply)) else sought, offset, whence)
  }

  // ----- How long a tail read waits -----

  function FirstReplies(replies: nat -> Reply, k: nat): seq<Reply> {
    if k == 0 then [] else FirstReplies(replies, k - 1) + [replies(k - 1)]
  }

  lemma OneMoreReply(baseDir: string, k: Known, replies: nat -> Reply, n: nat)
    ensures RefreshAll(baseDir, k, FirstReplies(replies, n + 1))
            == Refresh(baseDir, RefreshAll(baseDir, k, FirstReplies(replies, n)), replies(n))
  {
    hide Refresh;
    FirstRepliesLength(replies, n);
    FirstRepliesLength(replies, n + 1);
    assert FirstReplies(replies, n + 1)[..n] == FirstReplies(replies, n);
  }

  lemma EmptyRun(baseDir: string, k: Known, replies: nat -> Reply)
    ensures RefreshAll(baseDir, k, FirstReplies(replies, 0)) == k
  {
  }

  lemma {:induction false} FirstRepliesLength(replies: nat -> Reply, k: nat)
    ensures |FirstReplies(replies, k)| == k
  {
    if k > 0 {
      FirstRepliesLength(replies, k - 1);
    }
  }

  /** What is known after the first so many replies. */
  function KnownAfter(baseDir: string, k: Known, replies: nat -> Reply, n: nat): Known {
    RefreshAll(baseDir, k, FirstReplies(replies, n))
  }

  ghost predicate NothingYet(baseDir: string, k: Known, position: int, replies: nat -> Reply, j: nat) {
    position >= KnownAfter(baseDir, k, replies, j).space.totalBytes && !KnownAfter(baseDir, k, replies, j).finished
  }

  /** The wait ended after `n` replies: the first time there was something at the position or the recording was over, or
      when the attempts were used up. */
  ghost predicate WaitEndsAt(baseDir: string, k: Known, position: int, n: nat, attempts: nat, replies: nat -> Reply,
                             known: Known)
  {
    && n <= attempts && known == KnownAfter(baseDir, k, replies, n)
    && (forall j: nat :: j < n ==> NothingYet(baseDir, k, position, replies, j))
    && (n == attempts || !NothingYet(baseDir, k, position, replies, n))
  }

  lemma {:induction false} WaitEndsFrom(baseDir: string, k: Known, position: int, i: nat, attempts: nat,
                                        replies: nat -> Reply)
    returns (n: nat)
    requires i <= attempts && forall j: nat :: j < i ==> NothingYet(baseDir, k, position, replies, j)
    requires !KnownAfter(baseDir, k, replies, i).finished
    ensures WaitEndsAt(baseDir, k, position, n, attempts, replies,
                       CatchUp(baseDir, KnownAfter(baseDir, k, replies, i), position, i, attempts, replies))
    decreases attempts - i
  {
    hide Refresh, RefreshAll, FirstReplies;
    var now := KnownAfter(baseDir, k, replies, i);
    if i < attempts && position >= now.space.totalBytes {
      OneMoreReply(baseDir, k, replies, i);
      assert NothingYet(baseDir, k, position, replies, i);
      if KnownAfter(baseDir, k, replies, i + 1).finished {
        n := i + 1;
      } else {
        n := WaitEndsFrom(baseDir, k, position, i + 1, attempts, replies);
      }
    } else {
      n := i;
    }
  }

  /** A read at the tail of a running recording takes the replies one by one and waits no longer than until the first
      that helps or ends the recording, and no shorter unless its whole budget is used. */
  lemma TailReadWaitsExactly(baseDir: string, st: RecState, size: nat, now: int, replies: nat -> Reply,
                             bodies: string -> BodyReply)
    requires st.open && size > 0 && st.position >= st.known.space.totalBytes && !st.known.finished
    ensures var (after, r, _) := Read(baseDir, st, size, now, replies, bodies);
      var probe := LikelySeekProbe(st.position, st.lastShortGiveUp, st.lastSeek, now);
      var attempts := ComputeCatchUpAttempts(probe, EstimateSegmentDurationMs(st.known.space));
      && (exists n: nat :: WaitEndsAt(baseDir, st.known, st.position, n, attempts, replies, after.known))
      && (st.position >= after.known.space.totalBytes ==>
            r == 0 && after == st.(known := after.known, lastShortGiveUp := if probe then st.position else -1))
      && (st.position < after.known.space.totalBytes ==> after.lastShortGiveUp == -1)
  {
    hide Refresh, RefreshAll, FirstReplies, Serve, CatchUp;
    var probe := LikelySeekProbe(st.position, st.lastShortGiveUp, st.lastSeek, now);
    var attempts := ComputeCatchUpAttempts(probe, EstimateSegmentDurationMs(st.known.space));
    EmptyRun(baseDir, st.known, replies);
    var n := WaitEndsFrom(baseDir, st.known, st.position, 0, attempts, replies);
    ServeKeepsRest(AfterCatchUp(baseDir, st, now, replies), size, bodies);
    assert WaitEndsAt(baseDir, st.known, st.position, n, attempts, replies,
                      Read(baseDir, st, size, now, replies, bodies).0.known);
  }

  /** At the end of what is known of a recording that is still being written. */
  ghost predicate AtTail(st: RecState) {
    st.open && !st.known.finished && st.position >= st.known.space.totalBytes
  }

  /** How often a wait sleeps: between attempts, never after the last nor once there is something at the position. */
  function Sleeps(baseDir: string, k: Known, position: int, i: nat, attempts: nat, replies: nat -> Reply): nat
    decreases attempts - i
  {
    if i >= attempts || position < k.space.totalBytes then 0
    else
      var next := Refresh(baseDir, k, replies(i));
      if position < next.space.totalBytes || next.finished || i + 1 == attempts then 0
      else 1 + Sleeps(baseDir, next, position, i + 1, attempts, replies)
  }

  lemma {:induction false} SleepsBetween(baseDir: string, k: Known, position: int, i: nat, attempts: nat,
                                         replies: nat -> Reply)
    requires i < attempts
    ensures var known := CatchUp(baseDir, k, position, i, attempts, replies);
      && Sleeps(baseDir, k, position, i, attempts, replies) <= attempts - 1 - i
      && (!known.finished && position >= known.space.totalBytes ==>
            Sleeps(baseDir, k, position, i, attempts, replies) == attempts - 1 - i)
    decreases attempts - i
  {
    hide Refresh;
    if position >= k.space.totalBytes && i + 1 < attempts {
      SleepsBetween(baseDir, Refresh(baseDir, k, replies(i)), position, i + 1, attempts, replies);
    }
  }

  function SleptMs(baseDir: string, st: RecState, now: int, replies: nat -> Reply): int {
    var probe := LikelySeekProbe(st.position, st.lastShortGiveUp, st.lastSeek, now);
    var attempts := ComputeCatchUpAttempts(probe, EstimateSegmentDurationMs(st.known.space));
    Sleeps(baseDir, st.known, st.position, 0, attempts, replies) * CATCH_UP_SLEEP_MS
  }

  /** A read at the tail never sleeps longer than three estimated segments. With the full budget it sleeps that long,
      less at most one sleep, before it comes away empty from a recording still running; taken for a seek probe it
      does not sleep at all. */
  lemma WaitBudget(baseDir: string, st: RecState, now: int, replies: nat -> Reply)
    requires AtTail(st)
    ensures var probe := LikelySeekProbe(st.position, st.lastShortGiveUp, st.lastSeek, now);
      var estimate := EstimateSegmentDurationMs(st.known.space);
      var after := AfterCatchUp(baseDir, st, now, replies);
      var slept := SleptMs(baseDir, st, now, replies);
      && 0 <= slept <= 3 * estimate
      && (probe ==> slept == 0)
      && (!probe && AtTail(after) ==> 3 * estimate - 250 < slept && slept % 250 == 0)
  {
    hide Refresh, EstimateSegmentDurationMs;
    var probe := LikelySeekProbe(st.position, st.lastShortGiveUp, st.lastSeek, now);
    EstimateIsRecentMean(st.known.space);
    AttemptsTaken(EstimateSegmentDurationMs(st.known.space));
    SleepsBetween(baseDir, st.known, st.position, 0,
                  ComputeCatchUpAttempts(probe, EstimateSegmentDurationMs(st.known.space)), replies);
  }

  /** The budget of a tail read: one attempt within 800 milliseconds of the last seek, unless a short wait has just been
      given up at this position; else as many as there are quarter seconds in three estimated segments, and one. */
  lemma BudgetExactly(st: RecState, now: int)
    ensures var probe := LikelySeekProbe(st.position, st.lastShortGiveUp, st.lastSeek, now);
      var e := EstimateSegmentDurationMs(st.known.space);
      var recent := st.lastSeek.Some? && now < st.lastSeek.value + 800;
      ComputeCatchUpAttempts(probe, e) == if recent && st.position != st.lastShortGiveUp then 1 else 3 * e / 250 + 1
  {
    hide EstimateSegmentDurationMs;
  }

  /** A seek of an open stream is remembered, whether it succeeds or not: a tail read at once has one attempt, one 800
      milliseconds later the full budget. */
  lemma SeekSetsTheBudget(baseDir: string, st: RecState, offset: int, whence: Whence, then': int, reply: Reply,
                          size: nat, now: int, replies: nat -> Reply, bodies: string -> BodyReply)
    requires st.open && size > 0 && AtTail(Seek(baseDir, st, offset, whence, then', reply).0)
    ensures var sought := Seek(baseDir, st, offset, whence, then', reply).0;
      var full := 3 * EstimateSegmentDurationMs(sought.known.space) / 250 + 1;
      var attempts := if now < then' + 800 && sought.position != sought.lastShortGiveUp then 1 else full;
      exists n: nat :: WaitEndsAt(baseDir, sought.known, sought.position, n, attempts, replies,
                                  Read(baseDir, sought, size, now, replies, bodies).0.known)
  {
    hide Refresh, EstimateSegmentDurationMs, TailTarget, WaitEndsAt, Read;
    var sought := Seek(baseDir, st, offset, whence, then', reply).0;
    assert sought.lastSeek == Some(then');
    BudgetExactly(sought, now);
    TailReadWaitsExactly(baseDir, sought, size, now, replies, bodies);
  }

  datatype SeekCall = SeekCall(offset: int, whence: Whence, now: int, reply: Reply)

  function AfterSeeks(baseDir: string, st: RecState, seeks: seq<SeekCall>): RecState {
    if seeks == [] then st
    else
      var c := seeks[|seeks| - 1];
      Seek(baseDir, AfterSeeks(baseDir, st, seeks[..|seeks| - 1]), c.offset, c.whence, c.now, c.reply).0
  }

  lemma RefreshKeepsTotal(baseDir: string, k: Known, r: Reply)
    requires Chained(k.space)
    ensures Chained(Refresh(baseDir, k, r).space) && k.space.totalBytes <= Refresh(baseDir, k, r).space.totalBytes
  {
    assert [r][..0] == [];
    assert RefreshAll(baseDir, k, [r]) == Refresh(baseDir, k, r);
    RefreshesKeepChained(baseDir, k, [r]);
    var after := Refresh(baseDir, k, r).space;
    var n := |k.space.segments|;
    if n > 0 {
      assert k.space.Linked(n - 1) && after.Linked(n - 1) && after.segments[n - 1] == k.space.segments[n - 1];
      BoundariesAscend(after, n, |after.segments|);
    } else {
      BoundariesAscend(after, 0, |after.segments|);
    }
  }

  lemma {:induction false} SeeksRemember(baseDir: string, st: RecState, seeks: seq<SeekCall>)
    requires Chained(st.known.space)
    ensures var after := AfterSeeks(baseDir, st, seeks);
      && Chained(after.known.space) && st.known.space.totalBytes <= after.known.space.totalBytes
      && after.open == st.open && after.lastShortGiveUp == st.lastShortGiveUp
  {
    hide Refresh, TailTarget;
    if seeks != [] {
      var c := seeks[|seeks| - 1];
      SeeksRemember(baseDir, st, seeks[..|seeks| - 1]);
      RefreshKeepsTotal(baseDir, AfterSeeks(baseDir, st, seeks[..|seeks| - 1]).known, c.reply);
    }
  }

  lemma {:induction false} CatchUpKeepsTotal(baseDir: string, k: Known, position: int, i: nat, attempts: nat,
                                             replies: nat -> Reply)
    requires Chained(k.space)
    ensures Chained(CatchUp(baseDir, k, position, i, attempts, replies).space)
    ensures k.space.totalBytes <= CatchUp(baseDir, k, position, i, attempts, replies).space.totalBytes
    decreases attempts - i
  {
    hide Refresh, Chained;
    if i < attempts && position >= k.space.totalBytes {
      RefreshKeepsTotal(baseDir, k, replies(i));
      CatchUpKeepsTotal(baseDir, Refresh(baseDir, k, replies(i)), position, i + 1, attempts, replies);
    }
  }

  /** A tail read that got the short budget of a seek probe and returned 0 is not followed by another such read:
      whatever seeks come between, the next read that finds itself at the tail at the same position has the full
      budget. */
  lemma ShortWaitNeverRepeats(baseDir: string, first: RecState, size: nat, now: int, replies: nat -> Reply,
                              bodies: string -> BodyReply, seeks: seq<SeekCall>, size': nat, now': int,
                              replies': nat -> Reply, bodies': string -> BodyReply)
    requires Chained(first.known.space) && AtTail(first) && size > 0 && size' > 0
    requires LikelySeekProbe(first.position, first.lastShortGiveUp, first.lastSeek, now)
    requires Read(baseDir, first, size, now, replies, bodies).1 == 0
    requires var second := AfterSeeks(baseDir, Read(baseDir, first, size, now, replies, bodies).0, seeks);
      AtTail(second) && second.position == first.position
    ensures var second := AfterSeeks(baseDir, Read(baseDir, first, size, now, replies, bodies).0, seeks);
      var attempts := ComputeCatchUpAttempts(false, EstimateSegmentDurationMs(second.known.space));
      exists n: nat :: WaitEndsAt(baseDir, second.known, second.position, n, attempts, replies',
                                  Read(baseDir, second, size', now', replies', bodies').0.known)
  {
    hide Refresh, Serve, Seek, Chained, CatchUp;
    var after := Read(baseDir, first, size, now, replies, bodies).0;
    var second := AfterSeeks(baseDir, after, seeks);
    var attempts := ComputeCatchUpAttempts(true, EstimateSegmentDurationMs(first.known.space));
    CatchUpKeepsTotal(baseDir, first.known, first.position, 0, attempts, replies);
    ServeKeepsRest(AfterCatchUp(baseDir, first, now, replies), size, bodies);
    SeeksRemember(baseDir, after, seeks);
    assert second.lastShortGiveUp == second.position;
    TailReadWaitsExactly(baseDir, second, size', now', replies', bodies');
  }

  lemma ServeKeepsRest(st: RecState, size: nat, bodies: string -> BodyReply)
    ensures var after := Serve(st, size, bodies).0;
      after.known == st.known && after.lastShortGiveUp == st.lastShortGiveUp && after.open == st.open
  {
  }

  // ----- Reads are slices of the joined bodies -----

  /** The body held, if any, is that of the segment it is held for. */
  ghost predicate HoldsTrueBody(st: RecState, body: string -> Bytes) {
    st.cachedOffset == -1 || exists i :: HeldFor(st, i, body)
  }

  ghost predicate HeldFor(st: RecState, i: int, body: string -> Bytes) {
    && 0 <= i < |st.known.space.segments| && st.known.space.segments[i].byteOffset == st.cachedOffset
    && st.cachedBytes == body(st.known.space.segments[i].key)
  }

  /** Every listed segment has the size it was probed at, and the held body is true. */
  ghost predicate Sound(st: RecState, body: string -> Bytes) {
    && Chained(st.known.space) && Sized(st.known.space.segments, body)
    && 0 <= st.position && HoldsTrueBody(st, body)
  }

  /** A probe that succeeds tells the size the body has. */
  ghost predicate TrueProbes(r: Reply, body: string -> Bytes) {
    r.Fetched? ==> forall url :: r.probe(url) > 0 ==> r.probe(url) == |body(url)|
  }

  ghost predicate TrueBodies(bodies: string -> BodyReply, body: string -> Bytes) {
    forall url :: bodies(url).Body? ==> bodies(url).bytes == body(url)
  }

  lemma OffsetsDiffer(sp: RecSpace, i: nat, j: nat)
    requires Chained(sp) && i < |sp.segments| && j < |sp.segments|
    requires sp.segments[i].byteOffset == sp.segments[j].byteOffset
    ensures i == j
  {
    if i < j {
      BoundariesAscend(sp, i, j);
    } else {
      BoundariesAscend(sp, j, i);
    }
  }

  /** A read in the known range returns the next bytes of the joined bodies, as many as asked for up to the end of the
      segment and at least one, or fails without moving when a body could not be fetched. */
  lemma ServesSlice(st: RecState, size: nat, bodies: string -> BodyReply, body: string -> Bytes)
    requires Sound(st, body) && TrueBodies(bodies, body) && size > 0 && st.position < st.known.space.totalBytes
    ensures var (after, n, bytes) := Serve(st, size, bodies);
      var stream, p := Joined(st.known.space.segments, body), st.position;
      && Sound(after, body) && after.known == st.known
      && Locate(st.known.space.segments, p, 0).Some?
      && (n == -1 ==> after == st)
      && (n != -1 ==>
            && n == Min(size, st.known.space.segments[Locate(st.known.space.segments, p, 0).value].End() - p) > 0
            && after.position == p + n <= |stream| == st.known.space.totalBytes && bytes == stream[p..p + n])
      && ((forall url :: bodies(url).Body?) ==> n != -1)
  {
    hide Locate, Joined;
    var sp, p := st.known.space, st.position;
    NoGap(sp, p);
    LocatedContains(sp, p);
    var i := Locate(sp.segments, p, 0).value;
    var s := sp.segments[i];
    assert |body(s.key)| == s.byteSize;
    SliceInSegment(sp, i, p, Min(size, s.End() - p), body);
    JoinedLength(sp, |sp.segments|, body);
    assert sp.segments[..|sp.segments|] == sp.segments;
    var after := Serve(st, size, bodies).0;
    if st.cachedOffset == s.byteOffset {
      BoundariesAscend(sp, 0, i);
      var j :| HeldFor(st, j, body);
      OffsetsDiffer(sp, i, j);
      assert HeldFor(after, j, body);
    } else if bodies(s.key).Body? {
      assert HeldFor(after, i, body);
    }
  }

  /** The one segment body: a read fails exactly when the body is not the one held and could not be fetched, and leaves
      the body of the segment it read from held; what is held needs no fetching. */
  lemma HeldBodyExactly(st: RecState, size: nat, bodies: string -> BodyReply, body: string -> Bytes)
    requires Sound(st, body) && TrueBodies(bodies, body) && size > 0 && st.position < st.known.space.totalBytes
    ensures var (after, n, _) := Serve(st, size, bodies);
      var r := Locate(st.known.space.segments, st.position, 0);
      && r.Some?
      && var s := st.known.space.segments[r.value];
         && (n == -1 <==> st.cachedOffset != s.byteOffset && bodies(s.key).NoBody?)
         && (n != -1 ==> after.cachedOffset == s.byteOffset && after.cachedBytes == body(s.key))
  {
    hide Joined;
    var sp, p := st.known.space, st.position;
    NoGap(sp, p);
    LocatedContains(sp, p);
    hide Locate;
    ServesSlice(st, size, bodies, body);
    var i := Locate(sp.segments, p, 0).value;
    BoundariesAscend(sp, 0, i);
    if st.cachedOffset == sp.segments[i].byteOffset {
      var j :| HeldFor(st, j, body);
      OffsetsDiffer(sp, i, j);
    }
  }

  /** A closed stream gives nothing, asking for nothing gives nothing, and at the end of a finished recording there is
      no waiting. */
  lemma ReadGuards(baseDir: string, st: RecState, size: nat, now: int, replies: nat -> Reply,
                   bodies: string -> BodyReply)
    ensures !st.open || size == 0 ==> Read(baseDir, st, size, now, replies, bodies) == (st, 0, [])
    ensures st.known.finished && st.position >= st.known.space.totalBytes ==>
              Read(baseDir, st, size, now, replies, bodies) == (st, 0, [])
  {
  }

  /** A series of reads in the known range, every body fetch succeeding. */
  function ReadMany(st: RecState, sizes: seq<nat>, body: string -> Bytes): (RecState, Bytes) {
    if sizes == [] then (st, [])
    else
      var (mid, out) := ReadMany(st, sizes[..|sizes| - 1], body);
      if mid.position >= mid.known.space.totalBytes then (mid, out)
      else
        var (after, _, bytes) := Serve(mid, sizes[|sizes| - 1], url => Body(body(url)));
        (after, out + bytes)
  }

  /** Read-size independence: whatever positive sizes the reads have, what they return joins up to one slice of the
      joined bodies, from the starting position on; every read makes progress, and reads that reach the end have
      returned everything. */
  lemma {:induction false} ReadSizesDoNotMatter(st: RecState, sizes: seq<nat>, body: string -> Bytes)
    requires Sound(st, body) && st.position <= st.known.space.totalBytes && forall size <- sizes :: size > 0
    ensures var (after, out) := ReadMany(st, sizes, body);
      var stream, p := Joined(st.known.space.segments, body), st.position;
      && Sound(after, body) && after.known == st.known
      && Min(p + |sizes|, |stream|) <= after.position <= |stream| == st.known.space.totalBytes
      && p <= after.position && out == stream[p..after.position]
  {
    hide Serve, Joined, Locate;
    JoinedLength(st.known.space, |st.known.space.segments|, body);
    assert st.known.space.segments[..|st.known.space.segments|] == st.known.space.segments;
    if sizes != [] {
      var n := |sizes| - 1;
      assert sizes[n] in sizes && forall size <- sizes[..n] :: size in sizes;
      ReadSizesDoNotMatter(st, sizes[..n], body);
      var mid := ReadMany(st, sizes[..n], body).0;
      if mid.position < mid.known.space.totalBytes {
        ServesSlice(mid, sizes[n], url => Body(body(url)), body);
      }
    }
  }

  /** Why the body must have the probed size: reads from a freshly fetched body all make progress and stay inside the
      segment exactly when it has. A shorter body leaves positions that never move on; a longer one runs into the
      next segment's addresses. */
  lemma BodySizeExactly(st: RecState, i: nat, b: Bytes)
    requires Chained(st.known.space) && i < |st.known.space.segments| && st.cachedOffset == -1
    ensures (forall p: int, size: nat :: size > 0 && st.known.space.segments[i].Contains(p) ==>
               ServesInside(st, i, b, p, size))
            <==> |b| == st.known.space.segments[i].byteSize
  {
    hide Locate;
    var sp := st.known.space;
    var s := sp.segments[i];
    assert sp.Linked(i);
    BoundariesAscend(sp, 0, i);
    forall p | s.Contains(p)
      ensures Locate(sp.segments, p, 0) == Some(i)
    {
      NoGap(sp, p);
      SegmentsAreDisjoint(sp, i, i, p);
      LocatedContains(sp, p);
      SegmentsAreDisjoint(sp, i, Locate(sp.segments, p, 0).value, p);
    }
    if |b| < s.byteSize {
      assert s.Contains(s.byteOffset + |b|) && !ServesInside(st, i, b, s.byteOffset + |b|, 1);
    } else if |b| > s.byteSize {
      assert s.Contains(s.byteOffset) && !ServesInside(st, i, b, s.byteOffset, |b|);
    }
  }

  ghost predicate ServesInside(st: RecState, i: nat, b: Bytes, p: int, size: nat)
    requires i < |st.known.space.segments|
  {
    var n := Serve(st.(position := p), size, url => Body(b)).1;
    0 < n && p + n <= st.known.space.segments[i].End()
  }

  lemma OneRefresh(baseDir: string, k: Known, r: Reply)
    ensures RefreshAll(baseDir, k, [r]) == Refresh(baseDir, k, r)
  {
    assert [r][..0] == [] && RefreshAll(baseDir, k, []) == k;
  }

  lemma {:induction false} AppendKeepsSized(sp: RecSpace, pending: seq<Item>, n: nat, probe: string -> int,
                                            body: string -> Bytes)
    requires n <= |pending| && Sized(sp.segments, body)
    requires forall url :: probe(url) > 0 ==> probe(url) == |body(url)|
    ensures Sized(AppendProbed(sp, pending, n, probe).segments, body)
  {
    if n > 0 {
      AppendKeepsSized(sp, pending, n - 1, probe, body);
    }
  }

  /** A refresh keeps a stream sound: what is held stays what it was held for. */
  lemma RefreshKeepsSound(baseDir: string, st: RecState, r: Reply, body: string -> Bytes)
    requires Sound(st, body) && TrueProbes(r, body)
    ensures Sound(st.(known := Refresh(baseDir, st.known, r)), body)
    ensures st.known.space.segments <= Refresh(baseDir, st.known, r).space.segments
  {
    hide AppendProbed, Items, UpdatedEntry;
    if r.Fetched? {
      var pending := Pending(Items(baseDir, r.lines), |st.known.space.segments|);
      AppendKeepsChained(st.known.space, pending, |pending|, r.probe);
      AppendKeepsSized(st.known.space, pending, |pending|, r.probe, body);
      var after := st.(known := Refresh(baseDir, st.known, r));
      if st.cachedOffset != -1 {
        var i :| HeldFor(st, i, body);
        assert after.known.space.segments[i] == st.known.space.segments[i] && HeldFor(after, i, body);
      }
    }
  }

  lemma {:induction false} CatchUpKeepsSound(baseDir: string, st: RecState, i: nat, attempts: nat,
                                             replies: nat -> Reply, body: string -> Bytes)
    requires Sound(st, body) && forall j: nat :: TrueProbes(replies(j), body)
    ensures var known := CatchUp(baseDir, st.known, st.position, i, attempts, replies);
      Sound(st.(known := known), body) && st.known.space.segments <= known.space.segments
    decreases attempts - i
  {
    hide Sound, Refresh;
    if i < attempts && st.position >= st.known.space.totalBytes {
      var next := st.(known := Refresh(baseDir, st.known, replies(i)));
      assert TrueProbes(replies(i), body);
      RefreshKeepsSound(baseDir, st, replies(i), body);
      if !next.known.finished {
        CatchUpKeepsSound(baseDir, next, i + 1, attempts, replies, body);
      }
    } else {
      assert st.(known := st.known) == st;
    }
  }

  lemma SoundIgnoresWaits(st: RecState, lastShortGiveUp: int, body: string -> Bytes)
    requires Sound(st, body)
    ensures Sound(st.(lastShortGiveUp := lastShortGiveUp), body)
  {
    if st.cachedOffset != -1 {
      var i :| HeldFor(st, i, body);
      assert HeldFor(st.(lastShortGiveUp := lastShortGiveUp), i, body);
    }
  }

  /** Every read, waiting or not, with true probes and bodies: what it returns is the slice of the joined bodies at the
      position; a zero is only returned at the end of what is known, so once the recording is over it means the true
      end; the list only grows, so positions keep denoting the same bytes. */
  lemma ReadReturnsSlice(baseDir: string, st: RecState, size: nat, now: int, replies: nat -> Reply,
                         bodies: string -> BodyReply, body: string -> Bytes)
    requires st.open && size > 0 && Sound(st, body)
    requires TrueBodies(bodies, body) && forall j: nat :: TrueProbes(replies(j), body)
    ensures var (after, n, bytes) := Read(baseDir, st, size, now, replies, bodies);
      && Sound(after, body) && st.known.space.segments <= after.known.space.segments
      && -1 <= n <= size
      && (n == -1 ==> after.position == st.position < after.known.space.totalBytes)
      && (n == 0 ==> after.position == st.position >= after.known.space.totalBytes)
      && (n > 0 ==>
            && after.position == st.position + n <= |Joined(after.known.space.segments, body)|
            && bytes == Joined(after.known.space.segments, body)[st.position..st.position + n])
  {
    hide Serve, Joined, Sound, TrueProbes, TrueBodies;
    var probe := LikelySeekProbe(st.position, st.lastShortGiveUp, st.lastSeek, now);
    var attempts := ComputeCatchUpAttempts(probe, EstimateSegmentDurationMs(st.known.space));
    if st.position < st.known.space.totalBytes {
      ServesSlice(st, size, bodies, body);
    } else if !st.known.finished {
      CatchUpKeepsSound(baseDir, st, 0, attempts, replies, body);
      var waited := AfterCatchUp(baseDir, st, now, replies);
      SoundIgnoresWaits(st.(known := waited.known), waited.lastShortGiveUp, body);
      if waited.position < waited.known.space.totalBytes {
        ServesSlice(waited, size, bodies, body);
      }
    }
  }

  /** The start of the last segment. */
  function LatestSeekTarget(sp: RecSpace): int {
    if sp.segments == [] then 0 else sp.segments[|sp.segments| - 1].byteOffset
  }

  /** A seek lands exactly where it was asked to, but never behind the start of the last segment, and fails without
      moving for anything before the start. After it the next read needs no wait. */
  lemma SeekThenReadNeedsNoWait(baseDir: string, st: RecState, offset: int, whence: Whence, now: int, reply: Reply)
    requires Chained(st.known.space)
    ensures var (after, target) := Seek(baseDir, st, offset, whence, now, reply);
      var sp := after.known.space;
      var from := match whence
        case SeekCur => st.position
        case SeekEnd => sp.totalBytes
        case _ => 0;
      && Chained(sp) && st.known.space.segments <= sp.segments
      && (target == -1 ==> after.position == st.position)
      && (target != -1 <==> st.open && !whence.Unsupported? && from + offset >= 0)
      && (target != -1 ==>
            && after.position == target == Min(from + offset, LatestSeekTarget(sp))
            && (sp.segments != [] ==> target < sp.totalBytes && Locate(sp.segments, target, 0).Some?))
  {
    hide Refresh, Locate;
    OneRefresh(baseDir, st.known, reply);
    RefreshesKeepChained(baseDir, st.known, [reply]);
    var (after, target) := Seek(baseDir, st, offset, whence, now, reply);
    if after.known.space.segments != [] {
      TailTargetIsReadable(after.known.space, 1);
      NoGap(after.known.space, target);
    }
  }

  // ----- The imperative code -----

  const COLD_START_MAX_ATTEMPTS: nat := 90

  /** A stream just opened: seeded from the cache, refreshed with the first so many replies, at its beginning. */
  function OpenedAfter(baseDir: string, entry: Option<RecSpace>, replies: nat -> Reply, k: nat): RecState {
    RecState(true, RefreshAll(baseDir, Known(Seed(entry), false, entry), FirstReplies(replies, k)), 0, -1, [], -1, None)
  }

  /** Opening ends well after `k` requests: all were answered, and only the last left a segment listed or the recording
      over. */
  ghost predicate OpensAt(baseDir: string, entry: Option<RecSpace>, replies: nat -> Reply, k: nat) {
    && 1 <= k <= COLD_START_MAX_ATTEMPTS && (forall j: nat :: j < k ==> replies(j).Fetched?)
    && HasSomething(OpenedAfter(baseDir, entry, replies, k).known)
    && forall j: nat :: 1 <= j < k ==> !HasSomething(OpenedAfter(baseDir, entry, replies, j).known)
  }

  predicate HasSomething(k: Known) {
    k.space.segments != [] || k.finished
  }

  /** The first moment with something may come with the ninetieth answer, and no later one. */
  lemma NinetyAttempts(baseDir: string, entry: Option<RecSpace>, replies: nat -> Reply, k: nat)
    ensures OpensAt(baseDir, entry, replies, k) <==>
      && 1 <= k <= 90 && (forall j: nat :: j < k ==> replies(j).Fetched?)
      && (forall j: nat :: 1 <= j < k ==>
            OpenedAfter(baseDir, entry, replies, j).known.space.segments == [] &&
            !OpenedAfter(baseDir, entry, replies, j).known.finished)
      && var known := OpenedAfter(baseDir, entry, replies, k).known;
         known.space.segments != [] || known.finished
  {
    hide OpenedAfter;
  }

  lemma OneMoreToOpen(baseDir: string, entry: Option<RecSpace>, replies: nat -> Reply, k: nat)
    ensures OpenedAfter(baseDir, entry, replies, k + 1)
            == var st := OpenedAfter(baseDir, entry, replies, k);
               st.(known := Refresh(baseDir, st.known, replies(k)))
  {
    hide Refresh, RefreshAll, FirstReplies;
    OneMoreReply(baseDir, Known(Seed(entry), false, entry), replies, k);
  }

  class RecordingPlayer {
    var open: bool
    var recordingId: int
    var segments: seq<Segment<string>>
    var totalBytes: int
    var totalDurationMs: int
    var position: int
    var finished: bool
    var cachedOffset: int
    var cachedBytes: Bytes
    var lastShortGiveUp: int
    var lastSeek: Option<int>
    var segmentCache: map<int, RecSpace>

    function Entry(): Option<RecSpace>
      reads this
    {
      if recordingId in segmentCache then Some(segmentCache[recordingId]) else None
    }

    function CurrentSpace(): RecSpace
      reads this
    {
      Space(segments, totalBytes, totalDurationMs)
    }

    ghost function State(): RecState
      reads this
    {
      RecState(open, Known(CurrentSpace(), finished, Entry()), position, cachedOffset, cachedBytes, lastShortGiveUp,
          lastSeek)
    }

    constructor ()
      ensures !open && segmentCache == map[]
    {
      open, recordingId, segments, totalBytes, totalDurationMs := false, -1, [], 0, 0;
      position, finished, cachedOffset, cachedBytes := 0, false, -1, [];
      lastShortGiveUp, lastSeek, segmentCache := -1, None, map[];
    }

    /** The merge of one refresh, after the probes are in. */
    method MergeProbed(pending: seq<Item>, probedSizes: array<int>, ghost probe: string -> int)
      requires probedSizes[..] == seq(|pending|, i requires 0 <= i < |pending| => probe(pending[i].url))
      modifies this
      ensures State() == old(State()).(known := old(State()).known.(space :=
                           AppendProbed(old(CurrentSpace()), pending, |pending|, probe)))
      ensures recordingId == old(recordingId) && segmentCache == old(segmentCache)
    {
      ghost var start, sizes := State(), probedSizes[..];
      for i := 0 to |pending|
        invariant probedSizes[..] == sizes
        invariant State() == start.(known := start.known.(space := AppendProbed(start.known.space, pending, i, probe)))
        invariant recordingId == old(recordingId) && segmentCache == old(segmentCache)
      {
        assert probedSizes[i] == sizes[i];
        var segSize := probedSizes[i];
        if segSize > 0 {
          var info := Segment(pending[i].url, totalBytes, segSize, totalDurationMs);
          totalBytes := totalBytes + segSize;
          totalDurationMs := totalDurationMs + pending[i].durationMs;
          segments := segments + [info];
        }
      }
    }

    method RefreshManifest(baseDir: string, reply: Reply) returns (ok: bool)
      modifies this
      ensures ok == reply.Fetched?
      ensures State() == old(State()).(known := Refresh(baseDir, old(State()).known, reply))
      ensures recordingId == old(recordingId) && segmentCache - {recordingId} == old(segmentCache) - {recordingId}
    {
      match reply
      case Unreachable => return false;
      case Fetched(lines, probe, stillInProgress) =>
        var pending := ParsePending(baseDir, lines, |segments|);
        var probedSizes, _ := ProbeSizes(pending, probe);
        ghost var start := State();
        var alreadyKnown := |segments|;
        MergeProbed(pending, probedSizes, probe);
        assert CurrentSpace() == Listed(baseDir, start.known.space, reply);
        finished := !stillInProgress;
        if |segments| > alreadyKnown || finished {
          if finished {
            segmentCache := segmentCache - {recordingId};
          } else {
            var before := if recordingId in segmentCache then segmentCache[recordingId].segments else [];
            segmentCache := segmentCache[recordingId :=
                Space(before + segments[alreadyKnown..], totalBytes, totalDurationMs)];
          }
        }
        return true;
    }

    /** A fresh stream, seeded with what an earlier opening sized. */
    method StartFromCache(id: int)
      modifies this
      ensures recordingId == id && segmentCache == old(segmentCache)
      ensures State() == RecState(true, Known(Seed(Entry()), false, Entry()), 0, -1, [], -1, None)
    {
      CloseInProgressRecording();
      open, recordingId := true, id;
      if id in segmentCache {
        segments := segmentCache[id].segments;
        totalBytes, totalDurationMs := segmentCache[id].totalBytes, segmentCache[id].totalDurationMs;
      }
    }

    method CloseInProgressRecording()
      modifies this
      ensures recordingId == old(recordingId) && segmentCache == old(segmentCache)
      ensures State() == RecState(false, Known(Empty(), false, Entry()), 0, -1, [], -1, None)
    {
      open, segments, totalBytes, totalDurationMs := false, [], 0, 0;
      position, finished, cachedOffset, cachedBytes, lastShortGiveUp, lastSeek := 0, false, -1, [], -1, None;
    }

    /** Opening: refresh until there is a segment or the recording is over. */
    method OpenInProgressRecording(baseDir: string, id: int, replies: nat -> Reply) returns (ok: bool)
      modifies this
      ensures var entry := if id in old(segmentCache) then Some(old(segmentCache)[id]) else None;
        if ok then
          && recordingId == id
          && exists k: nat :: OpensAt(baseDir, entry, replies, k) && State() == OpenedAfter(baseDir, entry, replies, k)
        else
          !open && segments == [] && forall k: nat :: !OpensAt(baseDir, entry, replies, k)
      ensures segmentCache - {id} == old(segmentCache) - {id}
    {
      hide Refresh, RefreshAll, FirstReplies;
      StartFromCache(id);
      ghost var entry := Entry();
      EmptyRun(baseDir, Known(Seed(entry), false, entry), replies);
      var attempt := 0;
      while attempt < COLD_START_MAX_ATTEMPTS
        invariant attempt <= COLD_START_MAX_ATTEMPTS && recordingId == id
        invariant segmentCache - {id} == old(segmentCache) - {id}
        invariant State() == OpenedAfter(baseDir, entry, replies, attempt)
        invariant forall j: nat :: j < attempt ==> replies(j).Fetched?
        invariant forall j: nat :: 1 <= j <= attempt ==> !HasSomething(OpenedAfter(baseDir, entry, replies, j).known)
      {
        OneMoreToOpen(baseDir, entry, replies, attempt);
        var refreshed := RefreshManifest(baseDir, replies(attempt));
        if !refreshed {
          CloseInProgressRecording();
          return false;
        }
        attempt := attempt + 1;
        if segments != [] || finished {
          assert OpensAt(baseDir, entry, replies, attempt);
          return true;
        }
      }
      CloseInProgressRecording();
      return false;
    }

    method CatchUpToTail(baseDir: string, now: int, replies: nat -> Reply) returns (sleptMs: nat)
      modifies this
      ensures State() == AfterCatchUp(baseDir, old(State()), now, replies)
      ensures sleptMs == SleptMs(baseDir, old(State()), now, replies)
    {
      var probe := LikelySeekProbe(position, lastShortGiveUp, lastSeek, now);
      var catchUpAttempts := ComputeCatchUpAttempts(probe, EstimateSegmentDurationMs(CurrentSpace()));
      var attempt := 0;
      ghost var start := State();
      sleptMs := 0;
      while attempt < catchUpAttempts && position >= totalBytes
        invariant State() == start.(known := State().known)
        invariant CatchUp(baseDir, start.known, start.position, 0, catchUpAttempts, replies)
                  == CatchUp(baseDir, State().known, start.position, attempt, catchUpAttempts, replies)
        invariant SleptMs(baseDir, start, now, replies) == sleptMs +
                  Sleeps(baseDir, State().known, start.position, attempt, catchUpAttempts, replies) * CATCH_UP_SLEEP_MS
      {
        var _ := RefreshManifest(baseDir, replies(attempt));
        if position < totalBytes || finished {
          break;
        }
        if attempt + 1 < catchUpAttempts {
          sleptMs := sleptMs + CATCH_UP_SLEEP_MS;
        }
        attempt := attempt + 1;
      }
      lastShortGiveUp := ShortGiveUp(probe, position < totalBytes, position);
    }

    method ServeFromSegment(buffer: array<Byte>, size: nat, bodies: string -> BodyReply) returns (n: int)
      requires size <= buffer.Length
      modifies this, buffer
      ensures (State(), n) == (Serve(old(State()), size, bodies).0, Serve(old(State()), size, bodies).1)
      ensures n > 0 ==> buffer[..n] == Serve(old(State()), size, bodies).2
      ensures forall i :: Max(n, 0) <= i < buffer.Length ==> buffer[i] == old(buffer[i])
    {
      var found := FindSegment(segments, position);
      if found.None? {
        return 0;
      }
      var s := segments[found.value];
      if cachedOffset != s.byteOffset {
        match bodies(s.key)
        case NoBody => return -1;
        case Body(bytes) => cachedBytes, cachedOffset := bytes, s.byteOffset;
      }
      var offsetInSegment := position - s.byteOffset;
      if offsetInSegment >= |cachedBytes| {
        return 0;
      }
      n := Min(size, |cachedBytes| - offsetInSegment);
      forall i | 0 <= i < n {
        buffer[i] := cachedBytes[offsetInSegment + i];
      }
      position := position + n;
    }

    method ReadInProgressRecording(baseDir: string, buffer: array<Byte>, size: nat, now: int, replies: nat -> Reply,
                                   bodies: string -> BodyReply) returns (n: int)
      requires size <= buffer.Length
      modifies this, buffer
      ensures var r := Read(baseDir, old(State()), size, now, replies, bodies);
        State() == r.0 && n == r.1 && (n > 0 ==> buffer[..n] == r.2)
      ensures forall i :: Max(n, 0) <= i < buffer.Length ==> buffer[i] == old(buffer[i])
    {
      hide AfterCatchUp, Serve;
      if !open || size == 0 {
        return 0;
      }
      if position >= totalBytes {
        if finished {
          return 0;
        }
        var _ := CatchUpToTail(baseDir, now, replies);
        if position >= totalBytes {
          return 0;
        }
      }
      n := ServeFromSegment(buffer, size, bodies);
    }

    method MoveTo(offset: int, whence: Whence) returns (r: int)
      modifies this`position
      ensures (State(), r) == SeekTo(old(State()), offset, whence)
    {
      var newPos;
      match whence {
        case SeekSet => newPos := offset;
        case SeekCur => newPos := position + offset;
        case SeekEnd => newPos := totalBytes + offset;
        case Unsupported => return -1;
      }
      if newPos < 0 {
        return -1;
      }
      var liveBackoffBytes := if segments == [] then 0 else segments[|segments| - 1].byteSize;
      assert liveBackoffBytes == SizesFrom(segments, |segments| - Min(1, |segments|));
      var tailTarget := Max(0, totalBytes - liveBackoffBytes);
      if newPos > tailTarget {
        newPos := tailTarget;
      }
      position := newPos;
      return newPos;
    }

    method SeekInProgressRecording(baseDir: string, offset: int, whence: Whence, now: int, reply: Reply)
      returns (r: int)
      modifies this
      ensures (State(), r) == Seek(baseDir, old(State()), offset, whence, now, reply)
    {
      hide Refresh, SeekTo;
      if !open {
        return -1;
      }
      lastSeek := Some(now);
      if whence.SeekEnd? {
        var _ := RefreshManifest(baseDir, reply);
      }
      r := MoveTo(offset, whence);
    }
  }
}
