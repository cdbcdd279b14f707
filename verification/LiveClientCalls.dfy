/** The client's calls as runs of the whole system: opening is a session's start and its first manifest requests, a read
    is the manifest requests of its wait and one ranged request, a seek is a jump, to the end after one more request.
    Anything may happen in between. */
module LiveClientCalls {
  import opened Basics
  import opened AddressSpace
  import opened TailWait
  import opened LiveTimeshiftStream
  import opened TimeshiftRing
  import opened LiveFidelity

  type Event = LiveFidelity.Event

  /** One manifest request, and what happens before it. */
  datatype Ask = Ask(meanwhile: seq<Event>, worker: nat, alive: bool)

  function AskRun(viewer: string, asks: seq<Ask>): seq<Event> {
    if asks == [] then []
    else
      var a := asks[|asks| - 1];
      AskRun(viewer, asks[..|asks| - 1]) + a.meanwhile + [ManifestAsked(viewer, a.worker, a.alive)]
  }

  predicate IsOf(e: Event, viewer: string) {
    match e
    case SessionStarts(v) => v == viewer
    case ManifestAsked(v, _, _) => v == viewer
    case Seeks(v, _, _) => v == viewer
    case Reads(v, _) => v == viewer
    case _ => false
  }

  ghost predicate ByOthers(events: seq<Event>, viewer: string) {
    forall e <- events :: !IsOf(e, viewer)
  }

  ghost predicate AsksOnly(asks: seq<Ask>, viewer: string) {
    forall a <- asks :: ByOthers(a.meanwhile, viewer)
  }

  /** The reply request `j` of the series gets. */
  ghost function ReplySeen(s: System, viewer: string, asks: seq<Ask>, j: nat): RefreshReply
    requires j < |asks|
  {
    var t := RunFrom(s, AskRun(viewer, asks[..j]) + asks[j].meanwhile);
    if Live(t).Some? && Live(t).value.visible == 0 then Failed(false)
    else ReplyOf(AnswerOn(t, asks[j].worker, asks[j].alive).0)
  }

  ghost predicate Heard(s: System, viewer: string, asks: seq<Ask>, replies: nat -> RefreshReply) {
    forall j: nat :: j < |asks| ==> replies(j) == ReplySeen(s, viewer, asks, j)
  }

  // ----- Runs in parts -----

  lemma {:induction false} RunJoined(s: System, a: seq<Event>, b: seq<Event>)
    ensures RunFrom(s, a + b) == RunFrom(RunFrom(s, a), b)
  {
    hide Enabled, LiveFidelity.Step;
    if b == [] {
      assert a + b == a;
    } else {
      RunJoined(s, a, b[..|b| - 1]);
      assert (a + b)[..|a + b| - 1] == a + b[..|b| - 1];
    }
  }

  lemma {:induction false} AdmissiblePart(s: System, a: seq<Event>, b: seq<Event>)
    requires Admissible(s, a + b)
    ensures Admissible(s, a)
  {
    hide Enabled, Timely, LiveFidelity.Step, RunFrom;
    if b == [] {
      assert a + b == a;
    } else {
      assert (a + b)[..|a + b| - 1] == a + b[..|b| - 1];
      AdmissiblePart(s, a, b[..|b| - 1]);
    }
  }

  lemma LastIsEnabled(s: System, init: seq<Event>, e: Event)
    requires Admissible(s, init + [e])
    ensures Enabled(RunFrom(s, init), e) && Admissible(s, init)
    ensures RunFrom(s, init + [e]) == LiveFidelity.Step(RunFrom(s, init), e)
  {
    hide Enabled, Timely, LiveFidelity.Step;
    assert (init + [e])[..|init + [e]| - 1] == init;
  }

  lemma OtherStepLeaves(s: System, e: Event, viewer: string)
    requires Enabled(s, e) && viewer in s.sessions && !IsOf(e, viewer)
    ensures viewer in LiveFidelity.Step(s, e).sessions && LiveFidelity.Step(s, e).sessions[viewer] == s.sessions[viewer]
  {
    hide AnswerOn, ReadOnce, SeekTo, Receives, RingSizes;
  }

  lemma {:induction false} OthersLeave(s: System, events: seq<Event>, viewer: string)
    requires viewer in s.sessions && ByOthers(events, viewer)
    ensures viewer in RunFrom(s, events).sessions && RunFrom(s, events).sessions[viewer] == s.sessions[viewer]
  {
    hide Enabled, LiveFidelity.Step, IsOf;
    if events != [] {
      OthersLeave(s, events[..|events| - 1], viewer);
      var before := RunFrom(s, events[..|events| - 1]);
      if Enabled(before, events[|events| - 1]) {
        OtherStepLeaves(before, events[|events| - 1], viewer);
      }
    }
  }

  // ----- A series of manifest requests -----

  lemma AskStep(s: System, viewer: string, worker: nat, alive: bool)
    requires Enabled(s, ManifestAsked(viewer, worker, alive))
    ensures Live(s).Some? ==> Live(s).value.visible > 0
    ensures var reply := ReplyOf(AnswerOn(s, worker, alive).0);
      var after := LiveFidelity.Step(s, ManifestAsked(viewer, worker, alive));
      && viewer in s.sessions && viewer in after.sessions
      && after.sessions[viewer] == Receives(s.sessions[viewer], reply, s.live == Some(s.sessions[viewer].token))
  {
    hide AnswerOn, Receives;
  }

  lemma LastAsk(s: System, viewer: string, asks: seq<Ask>, replies: nat -> RefreshReply)
    requires asks != [] && Admissible(s, AskRun(viewer, asks)) && AsksOnly(asks, viewer)
    requires Heard(s, viewer, asks, replies)
    requires viewer in RunFrom(s, AskRun(viewer, asks[..|asks| - 1])).sessions
    ensures Admissible(s, AskRun(viewer, asks[..|asks| - 1])) && AsksOnly(asks[..|asks| - 1], viewer)
    ensures Heard(s, viewer, asks[..|asks| - 1], replies)
    ensures var x := RunFrom(s, AskRun(viewer, asks[..|asks| - 1])).sessions[viewer];
      var after := RunFrom(s, AskRun(viewer, asks));
      && viewer in after.sessions
      && var then' := RunFrom(s, AskRun(viewer, asks[..|asks| - 1]) + asks[|asks| - 1].meanwhile);
         after.sessions[viewer] == Receives(x, replies(|asks| - 1), then'.live == Some(x.token))
  {
    hide Admissible, RunFrom, Enabled, LiveFidelity.Step, AnswerOn, Receives;
    var n := |asks| - 1;
    var init, a := asks[..n], asks[n];
    var before, event := AskRun(viewer, init) + a.meanwhile, ManifestAsked(viewer, a.worker, a.alive);
    assert AskRun(viewer, asks) == before + [event];
    LastIsEnabled(s, before, event);
    AdmissiblePart(s, AskRun(viewer, init), a.meanwhile);
    RunJoined(s, AskRun(viewer, init), a.meanwhile);
    assert a in asks && forall b <- init :: b in asks;
    OthersLeave(RunFrom(s, AskRun(viewer, init)), a.meanwhile, viewer);
    AskStep(RunFrom(s, before), viewer, a.worker, a.alive);
    forall j: nat | j < n
      ensures replies(j) == ReplySeen(s, viewer, init, j)
    {
      assert init[..j] == asks[..j];
    }
    assert replies(n) == ReplySeen(s, viewer, asks, n);
  }

  /** An open session gathers what it hears, and nothing else about it changes but what it counts as its own. */
  lemma {:induction false} AsksGather(s: System, viewer: string, asks: seq<Ask>, replies: nat -> RefreshReply)
    requires viewer in s.sessions && s.sessions[viewer].ready
    requires Admissible(s, AskRun(viewer, asks)) && AsksOnly(asks, viewer) && Heard(s, viewer, asks, replies)
    ensures var x, after := s.sessions[viewer], RunFrom(s, AskRun(viewer, asks));
      && viewer in after.sessions
      && after.sessions[viewer] ==
         x.(stream := x.stream.(space := Gathered(x.stream.space, |asks|, replies)), own := after.sessions[viewer].own)
  {
    hide Admissible, Heard, AsksOnly, Refresh;
    hide LiveFidelity.Step, Enabled;
    if asks != [] {
      AsksShorter(s, viewer, asks, replies);
      AsksGather(s, viewer, asks[..|asks| - 1], replies);
      LastAsk(s, viewer, asks, replies);
    }
  }

  lemma AsksShorter(s: System, viewer: string, asks: seq<Ask>, replies: nat -> RefreshReply)
    requires asks != [] && Admissible(s, AskRun(viewer, asks)) && AsksOnly(asks, viewer)
    requires Heard(s, viewer, asks, replies)
    ensures Admissible(s, AskRun(viewer, asks[..|asks| - 1])) && AsksOnly(asks[..|asks| - 1], viewer)
    ensures Heard(s, viewer, asks[..|asks| - 1], replies)
  {
    hide Admissible, RunFrom, AnswerOn;
    var n := |asks| - 1;
    var init, a := asks[..n], asks[n];
    assert AskRun(viewer, asks) == AskRun(viewer, init) + (a.meanwhile + [ManifestAsked(viewer, a.worker, a.alive)]);
    AdmissiblePart(s, AskRun(viewer, init), a.meanwhile + [ManifestAsked(viewer, a.worker, a.alive)]);
    assert forall b <- init :: b in asks;
    forall j: nat | j < n
      ensures replies(j) == ReplySeen(s, viewer, init, j)
    {
      assert init[..j] == asks[..j] && replies(j) == ReplySeen(s, viewer, asks, j);
    }
  }

  // ----- Reads -----

  /** How many replies a wait takes. */
  function Taken(sp: LiveSpace, position: int, k: nat, attempts: nat, replies: nat -> RefreshReply): nat
    decreases attempts - k
  {
    if k >= attempts || position < sp.totalBytes then 0
    else if replies(k) == Failed(true) then 1
    else
      var next := if replies(k).Listing? then Refresh(sp, replies(k).window) else sp;
      1 + Taken(next, position, k + 1, attempts, replies)
  }

  lemma {:induction false} CatchUpGathers(sp: LiveSpace, position: int, k: nat, attempts: nat,
                                          replies: nat -> RefreshReply)
    ensures CatchUp(Gathered(sp, k, replies), position, k, attempts, replies).0
            == Gathered(sp, k + Taken(Gathered(sp, k, replies), position, k, attempts, replies), replies)
    decreases attempts - k
  {
    hide Refresh;
    var now := Gathered(sp, k, replies);
    if k < attempts && position >= now.totalBytes && replies(k) != Failed(true) {
      assert Gathered(sp, k + 1, replies) == if replies(k).Listing? then Refresh(now, replies(k).window) else now;
      CatchUpGathers(sp, position, k + 1, attempts, replies);
    }
  }

  /** The requests of one read: none if there is something at the position, else those of its wait. */
  function RepliesNeeded(st: LiveState, now: int, replies: nat -> RefreshReply): nat {
    var probe := LikelySeekProbe(st.position, st.lastShortGiveUp, st.lastSeek, now);
    if st.position < st.space.totalBytes then 0
    else Taken(st.space, st.position, 0, ComputeCatchUpAttempts(probe, EstimateSegmentDurationMs(st.space)), replies)
  }

  /** The session is the client's open stream. */
  ghost predicate Follows(x: Session, st: LiveState) {
    && x.ready && st.open && x.stream.space == st.space && x.stream.position == st.position
    && (x.stream.fatal ==> st.fatal)
  }

  /** The segment request at the end of a read is answered by the system as it then is. */
  ghost predicate Answers(t: System, viewer: string, size: nat, http: HttpReply)
    requires viewer in t.sessions
  {
    var y := t.sessions[viewer];
    var r := Locate(y.stream.space.segments, y.stream.position, 0);
    r.Some? ==> http == RequestAt(Live(t), y, size, r.value)
  }

  lemma ReadyGathers(st: LiveState, now: int, replies: nat -> RefreshReply)
    requires !st.fatal
    ensures var ready := if st.position >= st.space.totalBytes then AfterCatchUp(st, now, replies) else st;
      && ready.space == Gathered(st.space, RepliesNeeded(st, now, replies), replies)
      && ready.position == st.position
      && (ready.fatal ==> st.position >= ready.space.totalBytes)
  {
    hide Refresh;
    var probe := LikelySeekProbe(st.position, st.lastShortGiveUp, st.lastSeek, now);
    var attempts := ComputeCatchUpAttempts(probe, EstimateSegmentDurationMs(st.space));
    CatchUpGathers(st.space, st.position, 0, attempts, replies);
    var _ := WaitEndsFrom(st.space, st.position, 0, attempts, replies);
  }

  lemma FetchLooksAtStream(a: LiveState, b: LiveState, size: nat, http: HttpReply)
    requires a.space == b.space && a.position == b.position
    ensures var (x, n, bytes) := Fetch(a, size, http);
      var (y, m, other) := Fetch(b, size, http);
      && n == m && bytes == other && x.space == y.space && x.position == y.position
      && (a.fatal == b.fatal ==> x.fatal == y.fatal)
  {
  }

  /** A client's read is a run of its wait's manifest requests, with anything by anybody else in between, and one ranged
      request: session and client end up with the same list, at the same position, and the session's log grows by what
      the client was handed. */
  lemma {:induction false} ReadIsARun(s: System, viewer: string, st: LiveState, size: nat, now: int,
                                      replies: nat -> RefreshReply, http: HttpReply, asks: seq<Ask>,
                                      meanwhile: seq<Event>)
    requires viewer in s.sessions && Follows(s.sessions[viewer], st) && !st.fatal && size > 0
    requires Admissible(s, AskRun(viewer, asks)) && AsksOnly(asks, viewer) && Heard(s, viewer, asks, replies)
    requires |asks| == RepliesNeeded(st, now, replies) && ByOthers(meanwhile, viewer)
    requires var t := RunFrom(s, AskRun(viewer, asks) + meanwhile);
      viewer in t.sessions && Answers(t, viewer, size, http)
    ensures var (after, n, bytes) := Read(st, size, now, replies, http);
      var t := RunFrom(s, AskRun(viewer, asks) + meanwhile);
      var z := LiveFidelity.Step(t, Reads(viewer, size)).sessions[viewer];
      && Follows(z, after)
      && z.log == s.sessions[viewer].log + if n > 0 then [Delivery(st.position, bytes)] else []
  {
    hide Admissible, RunFrom, Refresh, AfterCatchUp, Fetch, RequestAt, Locate, Gathered, RepliesNeeded, Heard, AsksOnly;
    var x, t := s.sessions[viewer], RunFrom(s, AskRun(viewer, asks) + meanwhile);
    AsksGather(s, viewer, asks, replies);
    RunJoined(s, AskRun(viewer, asks), meanwhile);
    OthersLeave(RunFrom(s, AskRun(viewer, asks)), meanwhile, viewer);
    ReadyGathers(st, now, replies);
    var ready := if st.position >= st.space.totalBytes then AfterCatchUp(st, now, replies) else st;
    var y := t.sessions[viewer];
    assert y.stream.space == ready.space && y.stream.position == ready.position && y.log == x.log;
    StaysOpen(st, now, replies);
    if st.position < ready.space.totalBytes {
      FetchLooksAtStream(ready, y.stream, size, http);
      FetchOpen(ready, size, http);
      FetchNone(ready, size, http);
    }
    ReadOnceIs(Live(t), y, size, http);
  }

  lemma StaysOpen(st: LiveState, now: int, replies: nat -> RefreshReply)
    ensures AfterCatchUp(st, now, replies).open == st.open
  {
    hide CatchUp;
  }

  lemma FetchOpen(st: LiveState, size: nat, http: HttpReply)
    ensures Fetch(st, size, http).0.open == st.open
    ensures Fetch(st, size, http).1 <= 0 ==> Fetch(st, size, http).2 == []
  {
  }

  lemma FetchNone(st: LiveState, size: nat, http: HttpReply)
    ensures Locate(st.space.segments, st.position, 0).None? ==> Fetch(st, size, http) == (st, 0, [])
  {
  }

  lemma ReadOnceIs(live: Option<Encoder>, y: Session, size: nat, http: HttpReply)
    requires var r := Locate(y.stream.space.segments, y.stream.position, 0);
      r.Some? ==> http == RequestAt(live, y, size, r.value)
    ensures ReadOnce(live, y, size) ==
      if !y.ready || y.stream.fatal || size == 0 || y.stream.position >= y.stream.space.totalBytes then y
      else
        var (after, n, bytes) := Fetch(y.stream, size, http);
        y.(stream := after, log := if n > 0 then y.log + [Delivery(y.stream.position, bytes)] else y.log)
  {
    FetchNone(y.stream, size, http);
    hide Fetch, RequestAt, Locate;
  }

  /** So in every reachable state the bytes a client's read hands out are right: the slice at its position of the joined
      true contents of the instance it opened. */
  lemma ClientReadsRightBytes(channel: string, past: seq<Event>, viewer: string, st: LiveState, size: nat, now: int,
                              replies: nat -> RefreshReply, http: HttpReply, asks: seq<Ask>, meanwhile: seq<Event>)
    requires var s := RunFrom(Initial(channel), past);
      && Admissible(Initial(channel), past)
      && viewer in s.sessions && Follows(s.sessions[viewer], st) && !st.fatal && size > 0
      && AsksOnly(asks, viewer) && Heard(s, viewer, asks, replies)
      && |asks| == RepliesNeeded(st, now, replies) && ByOthers(meanwhile, viewer)
      && Admissible(s, AskRun(viewer, asks) + meanwhile)
      && var t := RunFrom(s, AskRun(viewer, asks) + meanwhile);
         viewer in t.sessions && Answers(t, viewer, size, http) && Timely(t, Reads(viewer, size))
    ensures var s := RunFrom(Initial(channel), past);
      var (after, n, bytes) := Read(st, size, now, replies, http);
      var t := RunFrom(s, AskRun(viewer, asks) + meanwhile);
      var z := LiveFidelity.Step(t, Reads(viewer, size)).sessions[viewer];
      && z.token in t.instances && z.own <= |z.stream.space.segments| && Follows(z, after)
      && (n > 0 ==> IsSliceAt(StreamOf(t.instances[z.token], z), Delivery(st.position, bytes)))
  {
    hide Admissible, RunFrom, Read, LiveFidelity.Step, Answers, Heard, AsksOnly, Follows, Timely;
    var s := RunFrom(Initial(channel), past);
    InitialOk(channel);
    RunKeepsInv(Initial(channel), past);
    RunKeepsInv(s, AskRun(viewer, asks) + meanwhile);
    AdmissiblePart(s, AskRun(viewer, asks), meanwhile);
    ReadIsARun(s, viewer, st, size, now, replies, http, asks, meanwhile);
    var t := RunFrom(s, AskRun(viewer, asks) + meanwhile);
    StepKeepsInv(t, Reads(viewer, size));
    ReadsStep(t, viewer, size);
    var z := LiveFidelity.Step(t, Reads(viewer, size)).sessions[viewer];
    assert SessionOk(LiveFidelity.Step(t, Reads(viewer, size)), z);
    hide SessionOk, Inv;
    var (after, n, bytes) := Read(st, size, now, replies, http);
    if n > 0 {
      assert Delivery(st.position, bytes) in z.log;
    }
  }

  lemma ReadsStep(t: System, viewer: string, size: nat)
    requires viewer in t.sessions
    ensures viewer in LiveFidelity.Step(t, Reads(viewer, size)).sessions
    ensures LiveFidelity.Step(t, Reads(viewer, size)).instances == t.instances
  {
    hide ReadOnce;
  }

  // ----- Seeks -----

  /** A client's seek is a jump, after one manifest request if it goes by the end. */
  lemma {:induction false} SeekIsARun(s: System, viewer: string, st: LiveState, offset: int, whence: Whence, now: int,
                                      replies: nat -> RefreshReply, asks: seq<Ask>, meanwhile: seq<Event>)
    requires viewer in s.sessions && Follows(s.sessions[viewer], st) && !st.fatal
    requires Admissible(s, AskRun(viewer, asks)) && AsksOnly(asks, viewer) && Heard(s, viewer, asks, replies)
    requires |asks| == (if whence.SeekEnd? then 1 else 0) && ByOthers(meanwhile, viewer)
    ensures var t := RunFrom(s, AskRun(viewer, asks) + meanwhile);
      && viewer in t.sessions
      && var z := LiveFidelity.Step(t, Seeks(viewer, offset, whence)).sessions[viewer];
         Follows(z, Seek(st, offset, whence, now, replies(0)).0) && z.log == s.sessions[viewer].log
  {
    hide Admissible, RunFrom, Refresh, Heard, AsksOnly, TailTarget;
    var x := s.sessions[viewer];
    AsksGather(s, viewer, asks, replies);
    RunJoined(s, AskRun(viewer, asks), meanwhile);
    OthersLeave(RunFrom(s, AskRun(viewer, asks)), meanwhile, viewer);
    assert whence.SeekEnd? ==> Gathered(x.stream.space, 0, replies) == x.stream.space;
  }

  // ----- Opening -----

  lemma {:induction false} AsksBeforeListing(s: System, viewer: string, asks: seq<Ask>, replies: nat -> RefreshReply)
    requires viewer in s.sessions && !s.sessions[viewer].ready
    requires Admissible(s, AskRun(viewer, asks)) && AsksOnly(asks, viewer) && Heard(s, viewer, asks, replies)
    requires forall j: nat :: j < |asks| ==> replies(j).Failed?
    ensures var after := RunFrom(s, AskRun(viewer, asks));
      viewer in after.sessions && after.sessions[viewer] == s.sessions[viewer]
  {
    hide Admissible, Heard, AsksOnly;
    hide LiveFidelity.Step, Enabled;
    if asks != [] {
      AsksShorter(s, viewer, asks, replies);
      AsksBeforeListing(s, viewer, asks[..|asks| - 1], replies);
      LastAsk(s, viewer, asks, replies);
    }
  }

  /** A client's successful opening is the start of a session and its manifest requests up to the first listing: the
      session then is the stream the client has opened. */
  lemma OpeningIsARun(s: System, viewer: string, replies: nat -> RefreshReply, asks: seq<Ask>, k: nat)
    requires Enabled(s, SessionStarts(viewer)) && |asks| == k + 1 && FirstListing(replies, k)
    requires var started := LiveFidelity.Step(s, SessionStarts(viewer));
      Admissible(started, AskRun(viewer, asks)) && AsksOnly(asks, viewer) && Heard(started, viewer, asks, replies)
    ensures var after := RunFrom(LiveFidelity.Step(s, SessionStarts(viewer)), AskRun(viewer, asks));
      && viewer in after.sessions
      && after.sessions[viewer].log == [] && after.sessions[viewer].token == s.live.value
      && forall st :: OpenedWith(replies, st) ==> Follows(after.sessions[viewer], st)
  {
    hide Admissible, Heard, AsksOnly, Refresh, RunFrom, Trim;
    var started := LiveFidelity.Step(s, SessionStarts(viewer));
    AsksShorter(started, viewer, asks, replies);
    AsksBeforeListing(started, viewer, asks[..k], replies);
    LastAsk(started, viewer, asks, replies);
    forall st | OpenedWith(replies, st)
      ensures st == LiveState(true, false, Trim(Refresh(Empty(), replies(k).window)), 0, -1, None)
    {
      var j: nat :| FirstListing(replies, j) &&
        st == LiveState(true, false, Trim(Refresh(Empty(), replies(j).window)), 0, -1, None);
      assert j == k by {
        FirstListingIsUnique(replies, j, k);
      }
    }
  }

  lemma FirstListingIsUnique(replies: nat -> RefreshReply, j: nat, k: nat)
    requires FirstListing(replies, j) && FirstListing(replies, k)
    ensures j == k
  {
  }

  // ----- Warming up -----

  /** Where request `j` of the series is answered. */
  ghost function AskedIn(s: System, viewer: string, asks: seq<Ask>, j: nat): System
    requires j < |asks|
  {
    RunFrom(s, AskRun(viewer, asks[..j]) + asks[j].meanwhile)
  }

  lemma {:induction false} AskedInIsAdmissible(s: System, viewer: string, asks: seq<Ask>, j: nat)
    requires j < |asks| && Admissible(s, AskRun(viewer, asks))
    ensures Admissible(s, AskRun(viewer, asks[..j]) + asks[j].meanwhile)
    decreases |asks|
  {
    hide Admissible;
    var n := |asks| - 1;
    var a := asks[n];
    var before := AskRun(viewer, asks[..n]) + a.meanwhile;
    AdmissiblePart(s, before, [ManifestAsked(viewer, a.worker, a.alive)]);
    if j < n {
      AdmissiblePart(s, AskRun(viewer, asks[..n]), a.meanwhile);
      AskedInIsAdmissible(s, viewer, asks[..n], j);
      assert asks[..n][..j] == asks[..j];
    }
  }

  lemma {:induction false} FirstListingExists(replies: nat -> RefreshReply, k: nat)
    requires k < 30 && replies(k).Listing?
    requires forall j: nat :: j < k ==> replies(j).Listing? || replies(j) == Failed(false)
    ensures exists j: nat :: j <= k && FirstListing(replies, j)
  {
    if j: nat :| j < k && replies(j).Listing? {
      FirstListingExists(replies, j);
    } else {
      assert FirstListing(replies, k);
    }
  }

  /** While a buffer's encoder runs no request is answered as final, so an opening goes on through its warm-up: if a
      segment has been closed by one of the first thirty requests it succeeds. */
  lemma OpeningSurvivesWarmUp(s: System, viewer: string, asks: seq<Ask>, replies: nat -> RefreshReply, k: nat)
    requires Inv(s) && Admissible(s, AskRun(viewer, asks)) && Heard(s, viewer, asks, replies)
    requires forall j :: 0 <= j < |asks| ==> asks[j].alive && Live(AskedIn(s, viewer, asks, j)).Some?
    requires k < |asks| && k < 30 && Live(AskedIn(s, viewer, asks, k)).value.closed != []
    ensures forall j: nat :: j < |asks| ==> replies(j) != Failed(true)
    ensures exists j: nat :: j <= k && FirstListing(replies, j)
  {
    hide Admissible, RunFrom, AnswerOn, Inv;
    forall j: nat | j < |asks|
      ensures replies(j).Listing? || replies(j) == Failed(false)
      ensures j == k ==> replies(j).Listing?
    {
      var t := AskedIn(s, viewer, asks, j);
      AskedInIsAdmissible(s, viewer, asks, j);
      RunKeepsInv(s, AskRun(viewer, asks[..j]) + asks[j].meanwhile);
      InvParts(t);
      WarmUpExactly(t, asks[j].worker, true);
      assert replies(j) == ReplySeen(s, viewer, asks, j);
    }
    FirstListingExists(replies, k);
  }

  lemma InvParts(s: System)
    requires Inv(s)
    ensures InstancesOk(s) && CachesOk(s) && (Live(s).Some? ==> Live(s).value.visible > 0)
  {
    hide CachesOk, SessionsOk;
  }
}
