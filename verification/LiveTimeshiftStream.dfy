/** The client's side of the live buffer: merge repeated manifest windows into one fixed-origin address space, trim
    it when the stream is opened, and serve reads and seeks from it. */
module LiveTimeshiftStream {
  import opened Basics
  import opened AddressSpace
  import opened TailWait
  import opened TimeshiftManifest

  datatype LiveKey = LiveKey(filename: string, sequence: int)

  type LiveSpace = Space<LiveKey>

  /** How a manifest request ends: a failure, which may be final, or the listed segments. */
  datatype RefreshReply = Failed(fatal: bool) | Listing(window: seq<ManifestSegment>)

  function ReplyOf(r: Reply): RefreshReply {
    match r
    case Fatal => Failed(true)
    case Manifest(_, segments, _, _) => Listing(segments)
    case _ => Failed(false)
  }

  /** To the client a manifest is its listing, only the dead encoder's answer is final, and any other is to be
      retried. */
  lemma ReplyExactly(r: Reply)
    ensures r.Manifest? ==> ReplyOf(r) == Listing(r.segments)
    ensures r == Fatal ==> ReplyOf(r) == Failed(true)
    ensures r == NotReady || r == NoSegments ==> ReplyOf(r) == Failed(false)
  {
  }

  // ----- Merging -----

  function LastKnown(sp: LiveSpace): int {
    if sp.segments == [] then -1 else sp.segments[|sp.segments| - 1].key.sequence
  }

  predicate Accepted(w: ManifestSegment, last: int) {
    w.sequence >= 0 && w.sequence > last && w.filename != "" && w.byteSize > 0
  }

  function Merge(sp: LiveSpace, window: seq<ManifestSegment>, last: int): LiveSpace {
    if window == [] then sp
    else
      var before, w := Merge(sp, window[..|window| - 1], last), window[|window| - 1];
      if Accepted(w, last) then before.Push(LiveKey(w.filename, w.sequence), w.byteSize, w.durationMs) else before
  }

  function Refresh(sp: LiveSpace, window: seq<ManifestSegment>): LiveSpace {
    Merge(sp, window, LastKnown(sp))
  }

  function RefreshAll(sp: LiveSpace, windows: seq<seq<ManifestSegment>>): LiveSpace {
    if windows == [] then sp else Refresh(RefreshAll(sp, windows[..|windows| - 1]), windows[|windows| - 1])
  }

  /** The entries of a window a merge takes. */
  function Fresh(window: seq<ManifestSegment>, last: int): (r: seq<ManifestSegment>)
    ensures forall w <- r :: w in window && Accepted(w, last)
  {
    if window == [] then []
    else
      var before, w := Fresh(window[..|window| - 1], last), window[|window| - 1];
      if Accepted(w, last) then before + [w] else before
  }

  ghost predicate StrictWindow(window: seq<ManifestSegment>) {
    forall i, j :: 0 <= i < j < |window| ==> window[i].sequence < window[j].sequence
  }

  ghost predicate Strict(sp: LiveSpace) {
    && (forall s <- sp.segments :: s.key.sequence >= 0)
    && forall i, j :: 0 <= i < j < |sp.segments| ==> sp.segments[i].key.sequence < sp.segments[j].key.sequence
  }

  /** Position stability: a merge only ever appends, so every position handed out keeps its segment. */
  lemma {:induction false} MergeExtends(sp: LiveSpace, window: seq<ManifestSegment>, last: int)
    requires Chained(sp)
    ensures Chained(Merge(sp, window, last)) && sp.segments <= Merge(sp, window, last).segments
    ensures sp.totalBytes <= Merge(sp, window, last).totalBytes
  {
    if window != [] {
      MergeExtends(sp, window[..|window| - 1], last);
      var before, w := Merge(sp, window[..|window| - 1], last), window[|window| - 1];
      if Accepted(w, last) {
        PushKeepsChained(before, LiveKey(w.filename, w.sequence), w.byteSize, w.durationMs);
      }
    }
  }

  /** What is appended are the accepted entries, in the window's order, with their own names and sizes. */
  lemma {:induction false} MergeAppendsFresh(sp: LiveSpace, window: seq<ManifestSegment>, last: int)
    ensures var n, r, taken := |sp.segments|, Merge(sp, window, last).segments, Fresh(window, last);
      && |r| == n + |taken| && r[..n] == sp.segments
      && forall i :: 0 <= i < |taken| ==>
           r[n + i].key == LiveKey(taken[i].filename, taken[i].sequence) && r[n + i].byteSize == taken[i].byteSize
  {
    if window != [] {
      MergeAppendsFresh(sp, window[..|window| - 1], last);
    }
  }

  /** What is taken are exactly the window's entries with a name and a size, above the last known sequence. */
  lemma {:induction false} FreshExactly(window: seq<ManifestSegment>, last: int, w: ManifestSegment)
    ensures w in Fresh(window, last) <==>
      w in window && w.sequence >= 0 && w.sequence > last && w.filename != "" && w.byteSize > 0
  {
    if window != [] {
      var init := window[..|window| - 1];
      FreshExactly(init, last, w);
      assert window == init + [window[|window| - 1]];
    }
  }

  /** The appended segments last as long as the response says, and the old ones as long as before. */
  lemma {:induction false} MergeDurations(sp: LiveSpace, window: seq<ManifestSegment>, last: int, i: nat)
    requires i < |Merge(sp, window, last).segments| && |sp.segments| <= |Merge(sp, window, last).segments|
    ensures var n, taken := |sp.segments|, Fresh(window, last);
      Merge(sp, window, last).Duration(i) ==
      if i < n then sp.Duration(i) else if i - n < |taken| then taken[i - n].durationMs else 0
    ensures |Merge(sp, window, last).segments| == |sp.segments| + |Fresh(window, last)|
  {
    if window != [] {
      var init, w := window[..|window| - 1], window[|window| - 1];
      var before := Merge(sp, init, last);
      MergeAppendsFresh(sp, init, last);
      if i < |before.segments| {
        MergeDurations(sp, init, last, i);
      } else {
        assert Accepted(w, last) && i == |before.segments|;
      }
    }
  }

  lemma StrictMergeTookStrict(sp: LiveSpace, window: seq<ManifestSegment>)
    requires Strict(Refresh(sp, window))
    ensures StrictWindow(Fresh(window, LastKnown(sp)))
  {
    hide Merge, Fresh, LastKnown, Accepted;
    var n, r, taken := |sp.segments|, Refresh(sp, window).segments, Fresh(window, LastKnown(sp));
    MergeAppendsFresh(sp, window, LastKnown(sp));
    forall i, j | 0 <= i < j < |taken|
      ensures taken[i].sequence < taken[j].sequence
    {
      assert r[n + i].key.sequence < r[n + j].key.sequence;
    }
  }

  /** Old segments lie at or below the last known sequence, new ones above it. */
  lemma MergedSequences(sp: LiveSpace, window: seq<ManifestSegment>, i: nat)
    requires Strict(sp) && i < |Refresh(sp, window).segments|
    ensures var n, g := |sp.segments|, Refresh(sp, window).segments[i];
      && g.key.sequence >= 0
      && if i < n then g == sp.segments[i] && g.key.sequence <= LastKnown(sp)
         else
           var taken := Fresh(window, LastKnown(sp));
           i - n < |taken| && g.key.sequence == taken[i - n].sequence > LastKnown(sp)
  {
    hide Merge, Fresh;
    var n, r, taken := |sp.segments|, Refresh(sp, window).segments, Fresh(window, LastKnown(sp));
    MergeAppendsFresh(sp, window, LastKnown(sp));
    if i < n {
      assert r[..n][i] == sp.segments[i] && sp.segments[i] in sp.segments;
    } else {
      assert r[n + (i - n)] == r[i] && taken[i - n] in taken;
    }
  }

  lemma StrictTakenStaysStrict(sp: LiveSpace, window: seq<ManifestSegment>)
    requires Strict(sp) && StrictWindow(Fresh(window, LastKnown(sp)))
    ensures Strict(Refresh(sp, window))
  {
    hide Refresh, Fresh, LastKnown;
    var r := Refresh(sp, window).segments;
    forall s <- r
      ensures s.key.sequence >= 0
    {
      var i :| 0 <= i < |r| && r[i] == s;
      MergedSequences(sp, window, i);
    }
    forall i, j | 0 <= i < j < |r|
      ensures r[i].key.sequence < r[j].key.sequence
    {
      MergedSequences(sp, window, i);
      MergedSequences(sp, window, j);
    }
  }

  /** The list stays strictly increasing in sequence exactly when the accepted part of the response is. */
  lemma MergeStrictness(sp: LiveSpace, window: seq<ManifestSegment>)
    requires Strict(sp)
    ensures Strict(Refresh(sp, window)) <==> StrictWindow(Fresh(window, LastKnown(sp)))
  {
    hide Strict, StrictWindow;
    if Strict(Refresh(sp, window)) {
      StrictMergeTookStrict(sp, window);
    }
    if StrictWindow(Fresh(window, LastKnown(sp))) {
      StrictTakenStaysStrict(sp, window);
    }
  }

  lemma {:induction false} FreshOfStrict(window: seq<ManifestSegment>, last: int)
    requires StrictWindow(window)
    ensures StrictWindow(Fresh(window, last))
  {
    if window != [] {
      var init := window[..|window| - 1];
      FreshOfStrict(init, last);
      forall w <- Fresh(init, last)
        ensures w.sequence < window[|window| - 1].sequence
      {
        assert w in init;
      }
    }
  }

  /** Merging a window twice is merging it once. */
  lemma RefreshIdempotent(sp: LiveSpace, window: seq<ManifestSegment>)
    requires StrictWindow(window)
    ensures Refresh(Refresh(sp, window), window) == Refresh(sp, window)
  {
    var last := LastKnown(sp);
    var once := Refresh(sp, window);
    var taken := Fresh(window, last);
    MergeAppendsFresh(sp, window, last);
    forall w <- window
      ensures !Accepted(w, LastKnown(once))
    {
      if Accepted(w, last) {
        FreshHasAccepted(window, last, w);
        FreshOfStrict(window, last);
        assert once.segments[|sp.segments| + (|taken| - 1)].key.sequence == taken[|taken| - 1].sequence;
      } else if taken != [] {
        assert taken[|taken| - 1] in taken;
        assert once.segments[|sp.segments| + (|taken| - 1)].key.sequence == taken[|taken| - 1].sequence;
      }
    }
    MergeNothing(once, window, LastKnown(once));
  }

  lemma {:induction false} FreshHasAccepted(window: seq<ManifestSegment>, last: int, w: ManifestSegment)
    requires w in window && Accepted(w, last)
    ensures w in Fresh(window, last)
  {
    if w in window[..|window| - 1] {
      FreshHasAccepted(window[..|window| - 1], last, w);
    }
  }

  lemma {:induction false} MergeNothing(sp: LiveSpace, window: seq<ManifestSegment>, last: int)
    requires forall w <- window :: !Accepted(w, last)
    ensures Merge(sp, window, last) == sp
  {
    if window != [] {
      assert window[|window| - 1] in window;
      MergeNothing(sp, window[..|window| - 1], last);
    }
  }

  // ----- Trimming -----

  const LIVE_EDGE_SEGMENTS: nat := 3

  /** What opening keeps of the first response: the last three segments, starting at byte 0. */
  function Trim(sp: LiveSpace): LiveSpace {
    if |sp.segments| > LIVE_EDGE_SEGMENTS then sp.Rebase(|sp.segments| - LIVE_EDGE_SEGMENTS) else sp
  }

  lemma {:induction false} RebaseCommutesWithMerge(sp: LiveSpace, drop: nat, window: seq<ManifestSegment>, last: int)
    requires drop < |sp.segments| && Chained(sp)
    ensures drop < |Merge(sp, window, last).segments|
    ensures Merge(sp.Rebase(drop), window, last) == Merge(sp, window, last).Rebase(drop)
  {
    MergeExtends(sp, window, last);
    if window != [] {
      RebaseCommutesWithMerge(sp, drop, window[..|window| - 1], last);
      var before, w := Merge(sp, window[..|window| - 1], last), window[|window| - 1];
      if Accepted(w, last) {
        RebaseCommutesWithPush(before, drop, LiveKey(w.filename, w.sequence), w.byteSize, w.durationMs);
      }
    }
  }

  lemma {:induction false} RebaseCommutesWithRefreshAll(sp: LiveSpace, drop: nat, windows: seq<seq<ManifestSegment>>)
    requires drop < |sp.segments| && Chained(sp)
    ensures Chained(RefreshAll(sp, windows)) && sp.segments <= RefreshAll(sp, windows).segments
    ensures RefreshAll(sp.Rebase(drop), windows) == RefreshAll(sp, windows).Rebase(drop)
  {
    if windows != [] {
      var init, last := windows[..|windows| - 1], windows[|windows| - 1];
      RebaseCommutesWithRefreshAll(sp, drop, init);
      var before := RefreshAll(sp, init);
      MergeExtends(before, last, LastKnown(before));
      RebaseCommutesWithMerge(before, drop, last, LastKnown(before));
    }
  }

  /** Trimming first and merging later windows gives what merging everything and dropping the same segments gives. */
  lemma TrimCommutesWithMerge(sp: LiveSpace, windows: seq<seq<ManifestSegment>>)
    requires Chained(sp)
    ensures var drop := Max(0, |sp.segments| - LIVE_EDGE_SEGMENTS);
      && drop <= |RefreshAll(sp, windows).segments|
      && RefreshAll(Trim(sp), windows) == RefreshAll(sp, windows).Rebase(drop)
  {
    var drop := Max(0, |sp.segments| - LIVE_EDGE_SEGMENTS);
    if drop > 0 {
      RebaseCommutesWithRefreshAll(sp, drop, windows);
    } else {
      RefreshAllExtends(sp, windows);
      var all := RefreshAll(sp, windows);
      assert all.segments[0..] == all.segments;
      assert all.Rebase(0).segments == all.segments;
    }
  }

  lemma {:induction false} RefreshAllExtends(sp: LiveSpace, windows: seq<seq<ManifestSegment>>)
    requires Chained(sp)
    ensures Chained(RefreshAll(sp, windows)) && sp.segments <= RefreshAll(sp, windows).segments
  {
    if windows != [] {
      RefreshAllExtends(sp, windows[..|windows| - 1]);
      var before := RefreshAll(sp, windows[..|windows| - 1]);
      MergeExtends(before, windows[|windows| - 1], LastKnown(before));
    }
  }

  lemma TrimKeepsTail(sp: LiveSpace)
    requires Chained(sp)
    ensures Chained(Trim(sp)) && LastKnown(Trim(sp)) == LastKnown(sp)
    ensures Strict(sp) ==> Strict(Trim(sp))
  {
    var n, trimmed := |sp.segments|, Trim(sp);
    if n > LIVE_EDGE_SEGMENTS {
      RebaseKeepsChained(sp, n - LIVE_EDGE_SEGMENTS);
      forall k | 0 <= k < LIVE_EDGE_SEGMENTS
        ensures trimmed.segments[k].key == sp.segments[n - LIVE_EDGE_SEGMENTS + k].key
      {
      }
    }
  }

  /** Opening keeps the last three segments, or all if there are fewer. */
  lemma TrimKeepsThree(sp: LiveSpace, i: nat)
    requires i < |Trim(sp).segments|
    ensures |Trim(sp).segments| == Min(3, |sp.segments|)
    ensures Trim(sp).segments[i].key == sp.segments[|sp.segments| - |Trim(sp).segments| + i].key
    ensures Trim(sp).segments[i].byteSize == sp.segments[|sp.segments| - |Trim(sp).segments| + i].byteSize
  {
  }

  lemma LaterIsNewer(sp: LiveSpace, all: LiveSpace, i: nat)
    requires Strict(all) && sp.segments <= all.segments && |sp.segments| <= i < |all.segments|
    ensures LastKnown(sp) < all.segments[i].key.sequence
  {
    var n := |sp.segments|;
    if n > 0 {
      assert all.segments[n - 1] == sp.segments[n - 1];
    } else {
      assert all.segments[i] in all.segments;
    }
  }

  /** A dropped segment never comes back: whatever later windows list, they add only sequences newer than every one
      the space had before it was trimmed. */
  lemma DroppedStayDropped(sp: LiveSpace, windows: seq<seq<ManifestSegment>>, i: nat)
    requires Chained(sp) && Strict(sp) && forall w <- windows :: StrictWindow(w)
    requires |Trim(sp).segments| <= i < |RefreshAll(Trim(sp), windows).segments|
    ensures forall s <- sp.segments :: s.key.sequence < RefreshAll(Trim(sp), windows).segments[i].key.sequence
  {
    TrimKeepsTail(sp);
    RefreshAllStrict(Trim(sp), windows);
    RefreshAllExtends(Trim(sp), windows);
    LaterIsNewer(Trim(sp), RefreshAll(Trim(sp), windows), i);
  }

  lemma {:induction false} RefreshAllStrict(sp: LiveSpace, windows: seq<seq<ManifestSegment>>)
    requires Strict(sp) && forall w <- windows :: StrictWindow(w)
    ensures Strict(RefreshAll(sp, windows))
  {
    if windows != [] {
      var init, w := windows[..|windows| - 1], windows[|windows| - 1];
      RefreshAllStrict(sp, init);
      assert w in windows;
      FreshOfStrict(w, LastKnown(RefreshAll(sp, init)));
      MergeStrictness(RefreshAll(sp, init), w);
    }
  }

  // ----- The stream -----

  datatype LiveState =
    LiveState(open: bool, fatal: bool, space: LiveSpace, position: int, lastShortGiveUp: int, lastSeek: Option<int>)

  datatype Whence = SeekSet | SeekCur | SeekEnd | Unsupported

  /** A ranged GET of one segment: no answer, or a status, the body as it came in, and the total of its
      Content-Range header (-1 without one). */
  datatype HttpReply = NoAnswer | Response(status: int, chunks: seq<Bytes>, total: int)

  /** The refreshes a read at the tail makes: until something new is there, the buffer is dead, or attempts run out. */
  function CatchUp(sp: LiveSpace, position: int, k: nat, attempts: nat, replies: nat -> RefreshReply): (LiveSpace, bool)
    decreases attempts - k
  {
    if k >= attempts || position < sp.totalBytes then (sp, false)
    else match replies(k)
      case Failed(true) => (sp, true)
      case Failed(false) => CatchUp(sp, position, k + 1, attempts, replies)
      case Listing(window) => CatchUp(Refresh(sp, window), position, k + 1, attempts, replies)
  }

  function AfterCatchUp(st: LiveState, now: int, replies: nat -> RefreshReply): LiveState {
    var probe := LikelySeekProbe(st.position, st.lastShortGiveUp, st.lastSeek, now);
    var attempts := ComputeCatchUpAttempts(probe, EstimateSegmentDurationMs(st.space));
    var (space, fatal) := CatchUp(st.space, st.position, 0, attempts, replies);
    if fatal then st.(space := space, fatal := true)
    else st.(space := space, lastShortGiveUp := ShortGiveUp(probe, st.position < space.totalBytes, st.position))
  }

  /** Serving one read from the segment that holds the position. */
  function Fetch(st: LiveState, size: nat, http: HttpReply): (LiveState, int, Bytes) {
    match Locate(st.space.segments, st.position, 0)
    case None => (st, 0, [])
    case Some(i) =>
      var s := st.space.segments[i];
      match http
      case NoAnswer => (st, -1, [])
      case Response(status, chunks, total) =>
        if status == 404 then (st, 0, [])
        else if status != 200 && status != 206 then (st, -1, [])
        else if total >= 0 && total != s.byteSize then (st.(fatal := true), -1, [])
        else
          var body, want := Flatten(chunks), Min(size, s.End() - st.position);
          var got := body[..Min(want, |body|)];
          (st.(position := st.position + |got|), |got|, got)
  }

  function Read(st: LiveState, size: nat, now: int, replies: nat -> RefreshReply, http: HttpReply)
    : (LiveState, int, Bytes)
  {
    if !st.open || size == 0 then (st, 0, [])
    else if st.fatal then (st, -1, [])
    else
      var ready := if st.position >= st.space.totalBytes then AfterCatchUp(st, now, replies) else st;
      if ready.fatal then (ready, -1, [])
      else if ready.position >= ready.space.totalBytes then (ready, 0, [])
      else Fetch(ready, size, http)
  }

  /** A closed stream gives nothing, a dead one fails, and asking for nothing gives nothing. */
  lemma ReadGuards(st: LiveState, size: nat, now: int, replies: nat -> RefreshReply, http: HttpReply)
    ensures !st.open || size == 0 ==> Read(st, size, now, replies, http) == (st, 0, [])
    ensures st.open && size > 0 && st.fatal ==> Read(st, size, now, replies, http) == (st, -1, [])
  {
  }

  /** What a read makes of the answer to its request, at a position that the segment at index `i` is the first to hold.
      No answer, or a status that is neither success nor "not found", fails and changes nothing; "not found" gives
      nothing and changes nothing; success with a total that is not the listed size ends the stream; any other success
      hands out the leading bytes of the body, as many as were asked for up to the end of the segment. */
  lemma ReadAnswersExactly(st: LiveState, size: nat, now: int, replies: nat -> RefreshReply, http: HttpReply, i: nat)
    requires st.open && !st.fatal && size > 0 && st.position < st.space.totalBytes
    requires i < |st.space.segments| && st.space.segments[i].Contains(st.position)
    requires forall j :: 0 <= j < i ==> !st.space.segments[j].Contains(st.position)
    ensures var (after, n, bytes) := Read(st, size, now, replies, http);
      var s := st.space.segments[i];
      && (http.NoAnswer? ==> (after, n, bytes) == (st, -1, []))
      && (http.Response? && http.status == 404 ==> (after, n, bytes) == (st, 0, []))
      && (http.Response? && http.status != 404 && http.status != 200 && http.status != 206 ==>
            (after, n, bytes) == (st, -1, []))
      && (http.Response? && (http.status == 200 || http.status == 206) ==>
            var body := Flatten(http.chunks);
            if http.total >= 0 && http.total != s.byteSize then (after, n, bytes) == (st.(fatal := true), -1, [])
            else
              && n == Min(|body|, Min(size, s.byteOffset + s.byteSize - st.position)) && bytes == body[..n]
              && after == st.(position := st.position + n))
  {
    FirstIsLocated(st.space.segments, st.position, 0, i);
  }

  lemma {:induction false} FirstIsLocated(segments: seq<Segment<LiveKey>>, position: int, from: nat, i: nat)
    requires from <= i < |segments| && segments[i].Contains(position)
    requires forall j :: from <= j < i ==> !segments[j].Contains(position)
    ensures Locate(segments, position, from) == Some(i)
    decreases i - from
  {
    if from < i {
      FirstIsLocated(segments, position, from + 1, i);
    }
  }

  /** A read whose wait has brought something reads on like one that found it there. */
  lemma ReadAfterWait(st: LiveState, size: nat, now: int, replies: nat -> RefreshReply, http: HttpReply)
    requires st.open && !st.fatal && size > 0 && st.position >= st.space.totalBytes
    requires var waited := AfterCatchUp(st, now, replies); !waited.fatal && waited.position < waited.space.totalBytes
    ensures var waited := AfterCatchUp(st, now, replies);
      && Read(st, size, now, replies, http) == Read(waited, size, now, replies, http)
      && waited == st.(space := waited.space, lastShortGiveUp := -1)
  {
    hide CatchUp, Fetch;
  }

  function SeekTo(st: LiveState, offset: int, whence: Whence): (LiveState, int) {
    var requested :=
      match whence
      case SeekSet => offset
      case SeekCur => st.position + offset
      case SeekEnd => st.space.totalBytes + offset
      case Unsupported => -1;
    if requested < 0 then (st, -1)
    else
      var target := Min(requested, TailTarget(st.space, LIVE_EDGE_SEGMENTS));
      (st.(position := target), target)
  }

  function Seek(st: LiveState, offset: int, whence: Whence, now: int, reply: RefreshReply): (LiveState, int) {
    if !st.open || st.fatal then (st, -1)
    else
      var sought := st.(lastSeek := Some(now));
      var known :=
        if whence.SeekEnd? && reply.Listing? then sought.(space := Refresh(sought.space, reply.window)) else sought;
      SeekTo(known, offset, whence)
  }

  /** The start of the third last segment, or of the oldest if there are fewer. */
  function LatestSeekTarget(sp: LiveSpace): int {
    if sp.segments == [] then 0 else sp.segments[Max(0, |sp.segments| - LIVE_EDGE_SEGMENTS)].byteOffset
  }

  /** A seek lands exactly where it was asked to, but never behind the start of the third last segment, and fails
      without moving for anything before the start. After it the next read finds a segment without waiting. */
  lemma SeekThenReadNeedsNoWait(st: LiveState, offset: int, whence: Whence, now: int, reply: RefreshReply)
    requires Chained(st.space)
    ensures var (after, target) := Seek(st, offset, whence, now, reply);
      var from := match whence
        case SeekCur => st.position
        case SeekEnd => after.space.totalBytes
        case _ => 0;
      && Chained(after.space) && st.space.segments <= after.space.segments
      && (target == -1 ==> after.position == st.position)
      && (target != -1 <==> st.open && !st.fatal && !whence.Unsupported? && from + offset >= 0)
      && (target != -1 ==>
            && after.position == target == Min(from + offset, LatestSeekTarget(after.space))
            && (after.space.segments != [] ==>
                  target < after.space.totalBytes && Locate(after.space.segments, target, 0).Some?))
  {
    if reply.Listing? {
      MergeExtends(st.space, reply.window, LastKnown(st.space));
    }
    var (after, target) := Seek(st, offset, whence, now, reply);
    if after.space.segments != [] {
      TailTargetIsReadable(after.space, LIVE_EDGE_SEGMENTS);
      NoGap(after.space, target);
    }
  }

  /** A tail read is a run of refreshes followed by at most one fetch: waiting never moves the position and only
      extends the list. */
  lemma {:induction false} CatchUpExtends(sp: LiveSpace, position: int, k: nat, attempts: nat,
                                          replies: nat -> RefreshReply)
    requires Chained(sp)
    ensures Chained(CatchUp(sp, position, k, attempts, replies).0)
    ensures sp.segments <= CatchUp(sp, position, k, attempts, replies).0.segments
    decreases attempts - k
  {
    if k < attempts && position >= sp.totalBytes {
      match replies(k)
      case Failed(_) =>
        if replies(k) == Failed(false) {
          CatchUpExtends(sp, position, k + 1, attempts, replies);
        }
      case Listing(window) =>
        MergeExtends(sp, window, LastKnown(sp));
        CatchUpExtends(Refresh(sp, window), position, k + 1, attempts, replies);
    }
  }

  /** The list after the first so many replies. */
  function Gathered(sp: LiveSpace, k: nat, replies: nat -> RefreshReply): LiveSpace {
    if k == 0 then sp
    else
      var before := Gathered(sp, k - 1, replies);
      if replies(k - 1).Listing? then Refresh(before, replies(k - 1).window) else before
  }

  /** After the first `j` replies there was still nothing at the position, and the next one was no final failure. */
  ghost predicate StillWaits(sp: LiveSpace, position: int, j: nat, replies: nat -> RefreshReply) {
    position >= Gathered(sp, j, replies).totalBytes && replies(j) != Failed(true)
  }

  /** The wait ended after `k` replies: the first time there was something at the position, the buffer was found dead,
      or the attempts were used up. */
  ghost predicate WaitEndsAt(sp: LiveSpace, position: int, k: nat, attempts: nat, replies: nat -> RefreshReply,
                             space: LiveSpace, fatal: bool)
  {
    && k <= attempts && (forall j: nat :: j < k ==> StillWaits(sp, position, j, replies))
    && space == Gathered(sp, k, replies)
    && (fatal <==> k < attempts && position >= space.totalBytes && replies(k) == Failed(true))
    && (!fatal ==> k == attempts || position < space.totalBytes)
  }

  lemma {:induction false} WaitEndsFrom(sp: LiveSpace, position: int, i: nat, attempts: nat,
                                        replies: nat -> RefreshReply)
    returns (k: nat)
    requires i <= attempts && forall j: nat :: j < i ==> StillWaits(sp, position, j, replies)
    ensures var r := CatchUp(Gathered(sp, i, replies), position, i, attempts, replies);
      WaitEndsAt(sp, position, k, attempts, replies, r.0, r.1)
    decreases attempts - i
  {
    hide Refresh;
    var now := Gathered(sp, i, replies);
    if i < attempts && position >= now.totalBytes && replies(i) != Failed(true) {
      assert StillWaits(sp, position, i, replies);
      assert CatchUp(now, position, i, attempts, replies)
          == CatchUp(Gathered(sp, i + 1, replies), position, i + 1, attempts, replies);
      k := WaitEndsFrom(sp, position, i + 1, attempts, replies);
    } else {
      k := i;
    }
  }

  /** A read at the tail takes the replies one by one, merging every listing, and comes away empty only when its whole
      budget is used; it is the first reply that helps, or the first final failure, that ends it earlier. */
  lemma TailReadWaitsExactly(st: LiveState, size: nat, now: int, replies: nat -> RefreshReply, http: HttpReply)
    requires st.open && !st.fatal && size > 0 && st.position >= st.space.totalBytes
    ensures var (after, n, _) := Read(st, size, now, replies, http);
      var probe := LikelySeekProbe(st.position, st.lastShortGiveUp, st.lastSeek, now);
      var attempts := ComputeCatchUpAttempts(probe, EstimateSegmentDurationMs(st.space));
      exists k: nat, died: bool ::
        && WaitEndsAt(st.space, st.position, k, attempts, replies, after.space, died)
        && (died ==> n == -1 && after == st.(space := after.space, fatal := true))
        && (!died && k == attempts && st.position >= after.space.totalBytes ==>
              n == 0 && after == st.(space := after.space, lastShortGiveUp := if probe then st.position else -1))
  {
    hide Refresh, Fetch;
    var probe := LikelySeekProbe(st.position, st.lastShortGiveUp, st.lastSeek, now);
    var attempts := ComputeCatchUpAttempts(probe, EstimateSegmentDurationMs(st.space));
    var (space, fatal) := CatchUp(st.space, st.position, 0, attempts, replies);
    var k := WaitEndsFrom(st.space, st.position, 0, attempts, replies);
    FetchKeepsSpace(AfterCatchUp(st, now, replies), size, http);
    assert WaitEndsAt(st.space, st.position, k, attempts, replies, Read(st, size, now, replies, http).0.space, fatal);
  }

  // ----- How long a tail read waits -----

  ghost predicate AtTail(st: LiveState) {
    st.open && !st.fatal && st.position >= st.space.totalBytes
  }

  /** How often a wait sleeps: between attempts, never after the last nor once there is something at the position. */
  function Sleeps(sp: LiveSpace, position: int, k: nat, attempts: nat, replies: nat -> RefreshReply): nat
    decreases attempts - k
  {
    if k >= attempts || position < sp.totalBytes || replies(k) == Failed(true) then 0
    else
      var next := if replies(k).Listing? then Refresh(sp, replies(k).window) else sp;
      if position < next.totalBytes || k + 1 == attempts then 0
      else 1 + Sleeps(next, position, k + 1, attempts, replies)
  }

  lemma {:induction false} SleepsBetween(sp: LiveSpace, position: int, k: nat, attempts: nat,
                                         replies: nat -> RefreshReply)
    requires k < attempts
    ensures var (space, fatal) := CatchUp(sp, position, k, attempts, replies);
      && Sleeps(sp, position, k, attempts, replies) <= attempts - 1 - k
      && (!fatal && position >= space.totalBytes ==> Sleeps(sp, position, k, attempts, replies) == attempts - 1 - k)
    decreases attempts - k
  {
    hide Refresh;
    if position >= sp.totalBytes && replies(k) != Failed(true) && k + 1 < attempts {
      var next := if replies(k).Listing? then Refresh(sp, replies(k).window) else sp;
      SleepsBetween(next, position, k + 1, attempts, replies);
    }
  }

  /** A read at the tail never sleeps longer than three estimated segments. With the full budget it sleeps that long,
      less at most one sleep, before it comes away empty; taken for a seek probe it does not sleep at all. */
  lemma WaitBudget(st: LiveState, now: int, replies: nat -> RefreshReply)
    requires AtTail(st)
    ensures var probe := LikelySeekProbe(st.position, st.lastShortGiveUp, st.lastSeek, now);
      var estimate := EstimateSegmentDurationMs(st.space);
      var after := AfterCatchUp(st, now, replies);
      var slept := SleptMs(st, now, replies);
      && 0 <= slept <= 3 * estimate
      && (probe ==> slept == 0)
      && (!probe && AtTail(after) ==> 3 * estimate - 250 < slept && slept % 250 == 0)
  {
    hide Refresh, EstimateSegmentDurationMs;
    var probe := LikelySeekProbe(st.position, st.lastShortGiveUp, st.lastSeek, now);
    EstimateIsRecentMean(st.space);
    AttemptsTaken(EstimateSegmentDurationMs(st.space));
    var attempts := ComputeCatchUpAttempts(probe, EstimateSegmentDurationMs(st.space));
    SleepsBetween(st.space, st.position, 0, attempts, replies);
  }

  function SleptMs(st: LiveState, now: int, replies: nat -> RefreshReply): int {
    var probe := LikelySeekProbe(st.position, st.lastShortGiveUp, st.lastSeek, now);
    var attempts := ComputeCatchUpAttempts(probe, EstimateSegmentDurationMs(st.space));
    Sleeps(st.space, st.position, 0, attempts, replies) * CATCH_UP_SLEEP_MS
  }

  /** The budget of a tail read: one attempt within 800 milliseconds of the last seek, unless a short wait has just been
      given up at this position; else as many as there are quarter seconds in three estimated segments, and one. */
  lemma BudgetExactly(st: LiveState, now: int)
    ensures var probe := LikelySeekProbe(st.position, st.lastShortGiveUp, st.lastSeek, now);
      var e := EstimateSegmentDurationMs(st.space);
      var recent := st.lastSeek.Some? && now < st.lastSeek.value + 800;
      ComputeCatchUpAttempts(probe, e) == if recent && st.position != st.lastShortGiveUp then 1 else 3 * e / 250 + 1
  {
    hide EstimateSegmentDurationMs;
  }

  /** A seek of an open stream is remembered, whether it succeeds or not: a tail read at once has one attempt, one 800
      milliseconds later the full budget. */
  lemma SeekSetsTheBudget(st: LiveState, offset: int, whence: Whence, then': int, reply: RefreshReply, size: nat,
                          now: int, replies: nat -> RefreshReply, http: HttpReply)
    requires st.open && !st.fatal && size > 0 && AtTail(Seek(st, offset, whence, then', reply).0)
    ensures var sought := Seek(st, offset, whence, then', reply).0;
      var full := 3 * EstimateSegmentDurationMs(sought.space) / 250 + 1;
      var attempts := if now < then' + 800 && sought.position != sought.lastShortGiveUp then 1 else full;
      exists k: nat, died: bool ::
        WaitEndsAt(sought.space, sought.position, k, attempts, replies, Read(sought, size, now, replies, http).0.space,
                   died)
  {
    hide Refresh, EstimateSegmentDurationMs, TailTarget, WaitEndsAt, Read;
    var sought := Seek(st, offset, whence, then', reply).0;
    assert sought.lastSeek == Some(then');
    BudgetExactly(sought, now);
    TailReadWaitsExactly(sought, size, now, replies, http);
  }

  datatype SeekCall = SeekCall(offset: int, whence: Whence, now: int, reply: RefreshReply)

  function AfterSeeks(st: LiveState, seeks: seq<SeekCall>): LiveState {
    if seeks == [] then st
    else
      var c := seeks[|seeks| - 1];
      Seek(AfterSeeks(st, seeks[..|seeks| - 1]), c.offset, c.whence, c.now, c.reply).0
  }

  lemma {:induction false} SeeksRemember(st: LiveState, seeks: seq<SeekCall>)
    requires Chained(st.space)
    ensures var after := AfterSeeks(st, seeks);
      && Chained(after.space) && st.space.totalBytes <= after.space.totalBytes
      && after.open == st.open && after.fatal == st.fatal && after.lastShortGiveUp == st.lastShortGiveUp
  {
    hide Refresh, TailTarget;
    if seeks != [] {
      var c := seeks[|seeks| - 1];
      var before := AfterSeeks(st, seeks[..|seeks| - 1]);
      SeeksRemember(st, seeks[..|seeks| - 1]);
      if c.reply.Listing? {
        RefreshExtends(before.space, c.reply.window);
      }
    }
  }

  lemma RefreshExtends(sp: LiveSpace, window: seq<ManifestSegment>)
    requires Chained(sp)
    ensures Chained(Refresh(sp, window)) && sp.segments <= Refresh(sp, window).segments
    ensures sp.totalBytes <= Refresh(sp, window).totalBytes
  {
    MergeExtends(sp, window, LastKnown(sp));
  }

  /** A tail read that got the short budget of a seek probe and returned 0 is not followed by another such read:
      whatever seeks come between, the next read that finds itself at the tail at the same position has the full
      budget. */
  lemma ShortWaitNeverRepeats(first: LiveState, size: nat, now: int, replies: nat -> RefreshReply, http: HttpReply,
                              seeks: seq<SeekCall>, size': nat, now': int, replies': nat -> RefreshReply,
                              http': HttpReply)
    requires Chained(first.space) && AtTail(first) && size > 0 && size' > 0
    requires LikelySeekProbe(first.position, first.lastShortGiveUp, first.lastSeek, now)
    requires Read(first, size, now, replies, http).1 == 0
    requires var second := AfterSeeks(Read(first, size, now, replies, http).0, seeks);
      AtTail(second) && second.position == first.position
    ensures var second := AfterSeeks(Read(first, size, now, replies, http).0, seeks);
      var attempts := ComputeCatchUpAttempts(false, EstimateSegmentDurationMs(second.space));
      exists k: nat, died: bool ::
        WaitEndsAt(second.space, second.position, k, attempts, replies',
            Read(second, size', now', replies', http').0.space, died)
  {
    hide Refresh, Fetch, Seek, Chained;
    var after := Read(first, size, now, replies, http).0;
    var second := AfterSeeks(after, seeks);
    ReadKeepsSpace(first, size, now, replies, http);
    SeeksRemember(after, seeks);
    FetchKeepsRest(AfterCatchUp(first, now, replies), size, http);
    assert second.lastShortGiveUp == second.position;
    TailReadWaitsExactly(second, size', now', replies', http');
  }

  lemma FetchKeepsRest(st: LiveState, size: nat, http: HttpReply)
    ensures var after := Fetch(st, size, http).0;
      after.space == st.space && after.lastShortGiveUp == st.lastShortGiveUp && after.open == st.open
  {
  }

  lemma FetchKeepsSpace(st: LiveState, size: nat, http: HttpReply)
    ensures Fetch(st, size, http).0.space == st.space
  {
  }

  /** In every read: the old segments keep their places, the position moves by exactly the bytes returned, and the
      branch for a position in no segment is never reached. */
  lemma ReadAccounting(st: LiveState, size: nat, now: int, replies: nat -> RefreshReply, http: HttpReply)
    requires Chained(st.space) && 0 <= st.position
    ensures var (after, n, bytes) := Read(st, size, now, replies, http);
      && Chained(after.space) && st.space.segments <= after.space.segments
      && after.position == st.position + Max(n, 0) && |bytes| == Max(n, 0) <= size
      && (st.position < after.space.totalBytes ==> Locate(after.space.segments, st.position, 0).Some?)
      && (st.position < st.space.totalBytes ==>
            Locate(after.space.segments, st.position, 0) == Locate(st.space.segments, st.position, 0))
  {
    ReadKeepsSpace(st, size, now, replies, http);
    var after := Read(st, size, now, replies, http).0;
    NoGap(after.space, st.position);
    LocateStays(st.space.segments, after.space.segments, st.position, 0);
    NoGap(st.space, st.position);
    FetchMoves(st, size, http);
    FetchMoves(AfterCatchUp(st, now, replies), size, http);
  }

  lemma FetchMoves(st: LiveState, size: nat, http: HttpReply)
    ensures var (after, n, bytes) := Fetch(st, size, http);
      after.position == st.position + Max(n, 0) && |bytes| == Max(n, 0) <= size && after.space == st.space
  {
  }

  lemma {:induction false} LocateStays(segments: seq<Segment<LiveKey>>, longer: seq<Segment<LiveKey>>, position: int,
                                       i: nat)
    requires segments <= longer && i <= |segments|
    ensures Locate(segments, position, i).Some? ==> Locate(longer, position, i) == Locate(segments, position, i)
    decreases |segments| - i
  {
    if i < |segments| {
      LocateStays(segments, longer, position, i + 1);
    }
  }

  lemma ReadKeepsSpace(st: LiveState, size: nat, now: int, replies: nat -> RefreshReply, http: HttpReply)
    requires Chained(st.space)
    ensures var after := Read(st, size, now, replies, http).0;
      && Chained(after.space) && st.space.segments <= after.space.segments
      && (st.position < st.space.totalBytes ==> after.space == st.space)
  {
    hide Fetch, Refresh, Chained;
    FetchKeepsSpace(st, size, http);
    FetchKeepsSpace(AfterCatchUp(st, now, replies), size, http);
    var probe := LikelySeekProbe(st.position, st.lastShortGiveUp, st.lastSeek, now);
    CatchUpExtends(st.space, st.position, 0, ComputeCatchUpAttempts(probe, EstimateSegmentDurationMs(st.space)),
        replies);
  }

  const COLD_START_MAX_ATTEMPTS: nat := 30

  ghost predicate OnlyRetries(replies: nat -> RefreshReply, attempts: nat) {
    forall j: nat :: j < attempts ==> replies(j) == Failed(false)
  }

  /** Reply `k` is a listing, in time, with nothing but passing failures before it. */
  ghost predicate FirstListing(replies: nat -> RefreshReply, k: nat) {
    k < COLD_START_MAX_ATTEMPTS && OnlyRetries(replies, k) && replies(k).Listing?
  }

  /** The first response that came, merged into nothing, trimmed, with the position on its oldest kept byte. */
  ghost predicate OpenedWith(replies: nat -> RefreshReply, st: LiveState) {
    exists k: nat :: FirstListing(replies, k) &&
      st == LiveState(true, false, Trim(Refresh(Empty(), replies(k).window)), 0, -1, None)
  }

  /** The first listing may be the thirtieth reply, and no later one. */
  lemma ThirtyAttempts(replies: nat -> RefreshReply, k: nat)
    ensures FirstListing(replies, k) <==>
      k < 30 && replies(k).Listing? && forall j: nat :: j < k ==> replies(j) == Failed(false)
  {
  }

  // ----- The imperative code -----

  /** The write callback of a ranged read: fills the caller's buffer up to its capacity and swallows the rest. */
  class FixedBufferSink {
    const buffer: array<Byte>
    const capacity: nat
    var written: nat

    ghost predicate Valid()
      reads this
    {
      written <= capacity <= buffer.Length
    }

    constructor (buffer: array<Byte>, capacity: nat)
      requires capacity <= buffer.Length
      ensures Valid() && written == 0 && this.buffer == buffer && this.capacity == capacity
    {
      this.buffer, this.capacity, written := buffer, capacity, 0;
    }

    method Write(chunk: Bytes) returns (consumed: nat)
      requires Valid()
      modifies this, buffer
      ensures Valid() && consumed == |chunk|
      ensures written == Min(old(written) + |chunk|, capacity)
      ensures buffer[..written] == old(buffer[..written]) + chunk[..written - old(written)]
      ensures forall i :: capacity <= i < buffer.Length ==> buffer[i] == old(buffer[i])
    {
      var toCopy := Min(|chunk|, capacity - written);
      forall i | 0 <= i < toCopy {
        buffer[written + i] := chunk[i];
      }
      written := written + toCopy;
      return |chunk|;
    }
  }

  method Receive(buffer: array<Byte>, capacity: nat, chunks: seq<Bytes>) returns (written: nat)
    requires capacity <= buffer.Length
    modifies buffer
    ensures written == Min(|Flatten(chunks)|, capacity)
    ensures buffer[..written] == Flatten(chunks)[..written]
    ensures forall i :: capacity <= i < buffer.Length ==> buffer[i] == old(buffer[i])
  {
    var sink := new FixedBufferSink(buffer, capacity);
    for i := 0 to |chunks|
      invariant sink.Valid() && sink.buffer == buffer && sink.capacity == capacity && fresh(sink)
      invariant sink.written == Min(|Flatten(chunks[..i])|, capacity)
      invariant buffer[..sink.written] == Flatten(chunks[..i])[..sink.written]
      invariant forall k :: capacity <= k < buffer.Length ==> buffer[k] == old(buffer[k])
    {
      assert chunks[..i + 1][..i] == chunks[..i];
      var _ := sink.Write(chunks[i]);
    }
    assert chunks[..|chunks|] == chunks;
    return sink.written;
  }

  class LiveStream {
    var open: bool
    var fatal: bool
    var segments: seq<Segment<LiveKey>>
    var totalBytes: int
    var totalDurationMs: int
    var position: int
    var lastShortGiveUp: int
    var lastSeek: Option<int>

    ghost function State(): LiveState
      reads this
    {
      LiveState(open, fatal, Space(segments, totalBytes, totalDurationMs), position, lastShortGiveUp, lastSeek)
    }

    constructor ()
      ensures State() == LiveState(false, false, Empty(), 0, -1, None)
    {
      open, fatal, segments, totalBytes, totalDurationMs := false, false, [], 0, 0;
      position, lastShortGiveUp, lastSeek := 0, -1, None;
    }

    method MergeWindow(window: seq<ManifestSegment>)
      modifies this
      ensures State() == old(State()).(space := Refresh(old(State().space), window))
    {
      var lastKnownSequence := if segments == [] then -1 else segments[|segments| - 1].key.sequence;
      ghost var start := State();
      for i := 0 to |window|
        invariant State() == start.(space := Merge(start.space, window[..i], lastKnownSequence))
      {
        assert window[..i + 1][..i] == window[..i];
        var w := window[i];
        if w.sequence < 0 || w.sequence <= lastKnownSequence {
          continue;
        }
        if w.filename == "" || w.byteSize <= 0 {
          continue;
        }
        var info := Segment(LiveKey(w.filename, w.sequence), totalBytes, w.byteSize, totalDurationMs);
        totalBytes := totalBytes + w.byteSize;
        totalDurationMs := totalDurationMs + w.durationMs;
        segments := segments + [info];
      }
      assert window[..|window|] == window;
    }

    method RefreshLiveManifest(reply: RefreshReply) returns (ok: bool, fatalOut: bool)
      modifies this
      ensures ok == reply.Listing? && fatalOut == (reply == Failed(true))
      ensures State() == if ok then old(State()).(space := Refresh(old(State().space), reply.window)) else old(State())
    {
      match reply
      case Failed(f) => return false, f;
      case Listing(window) =>
        MergeWindow(window);
        return true, false;
    }

    /** Discards all but the last three segments and rebases those. */
    method TrimToLiveEdge()
      requires Chained(State().space)
      modifies this
      ensures State() == old(State()).(space := Trim(old(State().space)))
    {
      if |segments| > LIVE_EDGE_SEGMENTS {
        ghost var start := State();
        var drop := |segments| - LIVE_EDGE_SEGMENTS;
        var byteBase, timeBase := segments[drop].byteOffset, segments[drop].timeOffsetMs;
        segments := segments[drop..];
        ghost var kept := segments;
        for i := 0 to |segments|
          invariant |segments| == |kept|
          invariant forall j :: 0 <= j < i ==> segments[j] == Shift(kept[j], byteBase, timeBase)
          invariant forall j :: i <= j < |kept| ==> segments[j] == kept[j]
          invariant State() == start.(space := start.space.(segments := segments))
        {
          segments := segments[i := Shift(segments[i], byteBase, timeBase)];
        }
        totalBytes, totalDurationMs := totalBytes - byteBase, totalDurationMs - timeBase;
        assert segments == start.space.Rebase(drop).segments;
      }
    }

    /** Opening, once the buffer has been started: retry until a first response arrives, keep its last segments, start
        at their beginning. */
    method OpenLiveTimeshiftStream(started: bool, replies: nat -> RefreshReply) returns (ok: bool)
      modifies this
      ensures ok <==> started && exists k: nat :: FirstListing(replies, k)
      ensures if ok then OpenedWith(replies, State()) else State() == LiveState(false, false, Empty(), 0, -1, None)
    {
      open, fatal, segments, totalBytes, totalDurationMs := false, false, [], 0, 0;
      position, lastShortGiveUp, lastSeek := 0, -1, None;
      if !started {
        return false;
      }
      open := true;
      var attempt, manifestReady := 0, false;
      while attempt < COLD_START_MAX_ATTEMPTS && !manifestReady
        invariant attempt <= COLD_START_MAX_ATTEMPTS && !manifestReady
        invariant OnlyRetries(replies, attempt)
        invariant State() == LiveState(true, false, Empty(), 0, -1, None)
      {
        var fatalNow;
        manifestReady, fatalNow := RefreshLiveManifest(replies(attempt));
        if manifestReady || fatalNow {
          break;
        }
        attempt := attempt + 1;
      }
      if !manifestReady {
        open := false;
        return false;
      }
      MergeExtends(Empty(), replies(attempt).window, -1);
      TrimKeepsTail(Refresh(Empty(), replies(attempt).window));
      TrimToLiveEdge();
      var marginIndex := if |segments| > LIVE_EDGE_SEGMENTS then |segments| - LIVE_EDGE_SEGMENTS else 0;
      position := if marginIndex < |segments| then segments[marginIndex].byteOffset else totalBytes;
      assert position == 0;
      assert FirstListing(replies, attempt);
      return true;
    }

    /** The wait of a read at the tail. */
    method CatchUpToTail(now: int, replies: nat -> RefreshReply) returns (sleptMs: nat)
      requires !fatal
      modifies this
      ensures State() == AfterCatchUp(old(State()), now, replies)
      ensures sleptMs == SleptMs(old(State()), now, replies)
    {
      var probe := LikelySeekProbe(position, lastShortGiveUp, lastSeek, now);
      var catchUpAttempts :=
        ComputeCatchUpAttempts(probe, EstimateSegmentDurationMs(Space(segments, totalBytes, totalDurationMs)));
      var attempt := 0;
      ghost var start := State();
      sleptMs := 0;
      while attempt < catchUpAttempts && position >= totalBytes
        invariant !fatal && State() == start.(space := State().space)
        invariant CatchUp(start.space, start.position, 0, catchUpAttempts, replies)
                  == CatchUp(State().space, start.position, attempt, catchUpAttempts, replies)
        invariant SleptMs(start, now, replies)
                  == sleptMs +
                     Sleeps(State().space, start.position, attempt, catchUpAttempts, replies) * CATCH_UP_SLEEP_MS
      {
        var _, refreshFatal := RefreshLiveManifest(replies(attempt));
        if refreshFatal {
          fatal := true;
          return;
        }
        if position < totalBytes {
          break;
        }
        if attempt + 1 < catchUpAttempts {
          sleptMs := sleptMs + CATCH_UP_SLEEP_MS;
        }
        attempt := attempt + 1;
      }
      lastShortGiveUp := ShortGiveUp(probe, position < totalBytes, position);
    }

    /** One ranged request against the segment the position is in. */
    method FetchFromSegment(buffer: array<Byte>, size: nat, http: HttpReply) returns (n: int)
      requires size <= buffer.Length
      modifies this, buffer
      ensures (State(), n) == (Fetch(old(State()), size, http).0, Fetch(old(State()), size, http).1)
      ensures n > 0 ==> buffer[..n] == Fetch(old(State()), size, http).2
      ensures forall i :: size <= i < buffer.Length ==> buffer[i] == old(buffer[i])
    {
      var found := FindSegment(segments, position);
      if found.None? {
        return 0;
      }
      var s := segments[found.value];
      var available := s.byteSize - (position - s.byteOffset);
      var wantSize := Min(size, available);
      match http
      case NoAnswer => return -1;
      case Response(status, chunks, total) =>
        var written := Receive(buffer, wantSize, chunks);
        if status == 404 {
          return 0;
        }
        if status != 200 && status != 206 {
          return -1;
        }
        if total >= 0 && total != s.byteSize {
          fatal := true;
          return -1;
        }
        position := position + written;
        return written;
    }

    method ReadLiveTimeshiftStream(buffer: array<Byte>, size: nat, now: int, replies: nat -> RefreshReply,
                                   http: HttpReply)
      returns (n: int)
      requires size <= buffer.Length
      modifies this, buffer
      ensures (State(), n)
              == (Read(old(State()), size, now, replies, http).0, Read(old(State()), size, now, replies, http).1)
      ensures n > 0 ==> buffer[..n] == Read(old(State()), size, now, replies, http).2
      ensures forall i :: size <= i < buffer.Length ==> buffer[i] == old(buffer[i])
    {
      hide AfterCatchUp, Fetch;
      if !open || size == 0 {
        return 0;
      }
      if fatal {
        return -1;
      }
      if position >= totalBytes {
        var _ := CatchUpToTail(now, replies);
      }
      if fatal {
        return -1;
      }
      if position >= totalBytes {
        return 0;
      }
      n := FetchFromSegment(buffer, size, http);
    }

    method SeekLiveTimeshiftStream(offset: int, whence: Whence, now: int, reply: RefreshReply) returns (r: int)
      modifies this
      ensures (State(), r) == Seek(old(State()), offset, whence, now, reply)
    {
      if !open || fatal {
        return -1;
      }
      lastSeek := Some(now);
      if whence.SeekEnd? {
        var _, _ := RefreshLiveManifest(reply);
      }
      var newPos;
      match whence {
        case SeekSet => newPos := offset;
        case SeekCur => newPos := position + offset;
        case SeekEnd => newPos := totalBytes + offset;
        case Unsupported => return -1;
      }
      if newPos < 0 {
        return -1;
      }
      var backoffCount := Min(LIVE_EDGE_SEGMENTS, |segments|);
      var liveBackoffBytes := 0;
      for i := |segments| - backoffCount to |segments|
        invariant liveBackoffBytes + SizesFrom(segments, i) == SizesFrom(segments, |segments| - backoffCount)
      {
        liveBackoffBytes := liveBackoffBytes + segments[i].byteSize;
      }
      var tailTarget := Max(0, totalBytes - liveBackoffBytes);
      if newPos > tailTarget {
        newPos := tailTarget;
      }
      position := newPos;
      return newPos;
    }
  }
}
