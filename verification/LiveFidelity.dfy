/** Encoder, plugin workers and any number of client sessions of one channel, as one state machine. A run interleaves
    segment writes and closings, buffer deaths and restarts, manifest calls on any worker, cache losses, refreshes,
    seeks and reads in any order; every byte a session hands out is the right one. */
module LiveFidelity {
  import opened Basics
  import opened AddressSpace
  import opened LiveTimeshiftStream
  import opened TimeshiftManifest
  import opened TimeshiftRing

  /** One opened channel in one client. `own` counts the listed segments that came from the buffer instance whose
      token the session holds; `log` is what its successful reads returned, and where. */
  datatype Session = Session(token: string, ready: bool, stream: LiveState, own: nat, log: seq<Delivery>)

  /** `instances` are all buffer instances there ever were, dead ones as they were left; `live` is the tracked one. */
  datatype System = System(channel: string, instances: map<string, Encoder>, live: Option<string>,
                           caches: map<nat, CacheEntry>, sessions: map<string, Session>)

  datatype Event =
    | BufferStarts(token: string, bufferMinutes: int, segmentSeconds: int)
    | BufferStops
    | EncoderWrites(bytes: Bytes)
    | EncoderCloses(durationMs: int, stamp: Stamp)
    | CacheDropped(worker: nat)
    | SessionStarts(viewer: string)
    | ManifestAsked(viewer: string, worker: nat, alive: bool)
    | Seeks(viewer: string, offset: int, whence: Whence)
    | Reads(viewer: string, size: nat)

  function Initial(channel: string): System {
    System(channel, map[], None, map[], map[])
  }

  function Live(s: System): Option<Encoder> {
    if s.live.Some? && s.live.value in s.instances then Some(s.instances[s.live.value]) else None
  }

  ghost predicate Enabled(s: System, e: Event) {
    match e
    case BufferStarts(token, minutes, seconds) =>
      s.live.None? && token != "" && token !in s.instances && RingSizes(minutes, seconds).Some?
    case BufferStops => true
    case EncoderWrites(_) => Live(s).Some? && Live(s).value.visible > 0
    case EncoderCloses(_, stamp) =>
      && Live(s).Some? && Live(s).value.visible > 0
      && Live(s).value.NameOf(|Live(s).value.closed|) in Live(s).value.disk
      && forall c <- Live(s).value.closed :: c.stamp != stamp
    case CacheDropped(_) => true
    case SessionStarts(_) => Live(s).Some?
    case ManifestAsked(viewer, _, _) => viewer in s.sessions && (Live(s).Some? ==> Live(s).value.visible > 0)
    case Seeks(viewer, _, _) => viewer in s.sessions
    case Reads(viewer, _) => viewer in s.sessions
  }

  /** A worker's answer to one manifest request, and its cache afterwards. */
  function AnswerOn(s: System, worker: nat, alive: bool): (Reply, map<nat, CacheEntry>)
    requires Live(s).Some? ==> Live(s).value.visible > 0
  {
    if Live(s).None? then (NotReady, s.caches)
    else
      var cached := if worker in s.caches then Some(s.caches[worker]) else None;
      var (reply, left) := Answer(cached, ViewOf(Live(s).value, s.channel, alive));
      (reply, if left.Some? then s.caches[worker := left.value] else s.caches)
  }

  /** The first listing a session receives is trimmed, later ones are merged. */
  function Receives(x: Session, reply: RefreshReply, current: bool): Session {
    if reply.Failed? then x
    else
      var space :=
        if x.ready then Refresh(x.stream.space, reply.window) else Trim(Refresh(Empty(), reply.window));
      x.(ready := true, stream := x.stream.(space := space), own := if current then |space.segments| else x.own)
  }

  /** The ranged request a read makes at segment `i`, as the file server answers it. */
  function RequestAt(live: Option<Encoder>, x: Session, size: nat, i: nat): HttpReply
    requires i < |x.stream.space.segments|
  {
    var g := x.stream.space.segments[i];
    var from := x.stream.position - g.byteOffset;
    var served := Serve(live, x.token, g.key.filename, FromTo(from, from + Min(size, g.End() - x.stream.position) - 1));
    Response(served.status, [served.body], served.total)
  }

  function ReadOnce(live: Option<Encoder>, x: Session, size: nat): Session {
    if !x.ready || x.stream.fatal || size == 0 || x.stream.position >= x.stream.space.totalBytes then x
    else match Locate(x.stream.space.segments, x.stream.position, 0)
      case None => x
      case Some(i) =>
        var (after, n, bytes) := Fetch(x.stream, size, RequestAt(live, x, size, i));
        x.(stream := after, log := if n > 0 then x.log + [Delivery(x.stream.position, bytes)] else x.log)
  }

  function Step(s: System, e: Event): System
    requires Enabled(s, e)
  {
    match e
    case BufferStarts(token, minutes, seconds) =>
      var (visible, _) := RingSizes(minutes, seconds).value;
      s.(instances := s.instances[token := StartEncoder(token, visible)], live := Some(token))
    case BufferStops => s.(live := None)
    case EncoderWrites(bytes) => s.(instances := s.instances[s.live.value := Live(s).value.Write(bytes)])
    case EncoderCloses(ms, stamp) => s.(instances := s.instances[s.live.value := Live(s).value.Close(ms, stamp)])
    case CacheDropped(worker) => s.(caches := s.caches - {worker})
    case SessionStarts(viewer) =>
      s.(sessions := s.sessions[viewer :=
        Session(s.live.value, false, LiveState(true, false, Empty(), 0, -1, None), 0, [])])
    case ManifestAsked(viewer, worker, alive) =>
      var (reply, caches) := AnswerOn(s, worker, alive);
      var x := s.sessions[viewer];
      s.(caches := caches, sessions := s.sessions[viewer := Receives(x, ReplyOf(reply), s.live == Some(x.token))])
    case Seeks(viewer, offset, whence) =>
      var x := s.sessions[viewer];
      s.(sessions := s.sessions[viewer := x.(stream := SeekTo(x.stream, offset, whence).0)])
    case Reads(viewer, size) =>
      s.(sessions := s.sessions[viewer := ReadOnce(Live(s), s.sessions[viewer], size)])
  }

  /** The one thing asked of a reader: it does not read a segment the ring has come round to. */
  ghost predicate Timely(s: System, e: Event) {
    e.Reads? && e.viewer in s.sessions && Live(s).Some? && s.live == Some(s.sessions[e.viewer].token) ==>
      var x := s.sessions[e.viewer];
      match Locate(x.stream.space.segments, x.stream.position, 0)
      case None => true
      case Some(i) => |Live(s).value.closed| - x.stream.space.segments[i].key.sequence < Live(s).value.Wrap()
  }

  ghost function RunFrom(s: System, events: seq<Event>): System {
    if events == [] then s
    else
      var before, e := RunFrom(s, events[..|events| - 1]), events[|events| - 1];
      if Enabled(before, e) then Step(before, e) else before
  }

  /** Every event of the run could happen where it happens, and every read is timely. */
  ghost predicate Admissible(s: System, events: seq<Event>) {
    events == [] ||
    (Admissible(s, events[..|events| - 1]) &&
     Enabled(RunFrom(s, events[..|events| - 1]), events[|events| - 1]) &&
     Timely(RunFrom(s, events[..|events| - 1]), events[|events| - 1]))
  }

  // ----- What is true in every reachable state -----

  /** What an instance's segments really contain. */
  ghost function Truth(e: Encoder): LiveKey -> Bytes {
    (key: LiveKey) => if 0 <= key.sequence < |e.closed| then e.closed[key.sequence].body else []
  }

  ghost predicate TrueSegment(e: Encoder, g: Segment<LiveKey>) {
    && e.visible > 0 && 0 <= g.key.sequence < |e.closed|
    && g.key.filename == e.NameOf(g.key.sequence) && g.byteSize == |e.closed[g.key.sequence].body|
  }

  ghost predicate TrueSegments(e: Encoder, segments: seq<Segment<LiveKey>>) {
    forall i :: 0 <= i < |segments| ==> TrueSegment(e, segments[i])
  }

  /** The byte stream a session's positions denote: its own instance's listed segments, joined. */
  ghost function StreamOf(e: Encoder, x: Session): Bytes
    requires x.own <= |x.stream.space.segments|
  {
    Joined(x.stream.space.segments[..x.own], Truth(e))
  }

  ghost predicate InstancesOk(s: System) {
    && (s.live.Some? ==> s.live.value in s.instances)
    && forall t <- s.instances :: s.instances[t].Valid() && s.instances[t].token == t
  }

  ghost predicate IsPastView(v: View, e: Encoder, channel: string) {
    exists a: Encoder, alive: bool :: Precedes(a, e) && v == ViewOf(a, channel, alive)
  }

  ghost function PastViews(e: Encoder, channel: string): View -> bool {
    v => IsPastView(v, e, channel)
  }

  ghost predicate CacheOk(s: System, entry: CacheEntry) {
    entry.token in s.instances && LeftByOne(entry, s.channel, PastViews(s.instances[entry.token], s.channel))
  }

  ghost predicate CachesOk(s: System) {
    forall w <- s.caches :: CacheOk(s, s.caches[w])
  }

  ghost predicate WellListed(x: Session) {
    && Chained(x.stream.space) && Strict(x.stream.space)
    && 0 <= x.stream.position && x.own <= |x.stream.space.segments|
    && (!x.ready ==> x.stream.space == Empty() && x.stream.position == 0)
  }

  ghost predicate SessionOk(s: System, x: Session) {
    && WellListed(x)
    && x.token in s.instances
    && (s.live == Some(x.token) ==> x.own == |x.stream.space.segments|)
    && TrueSegments(s.instances[x.token], x.stream.space.segments[..x.own])
    && forall d <- x.log :: IsSliceAt(StreamOf(s.instances[x.token], x), d)
  }

  ghost predicate SessionsOk(s: System) {
    forall v <- s.sessions :: SessionOk(s, s.sessions[v])
  }

  ghost predicate Inv(s: System) {
    InstancesOk(s) && CachesOk(s) && SessionsOk(s)
  }

  // ----- Manifests -----

  /** A cache entry left by a look at some instance, any instance, answers a look at the live one correctly. */
  lemma OldEntryAnswersCold(e: Encoder, owner: Encoder, channel: string, alive: bool, entry: CacheEntry)
    requires e.Valid() && LeftByOne(entry, channel, PastViews(owner, channel))
    requires owner.token == e.token ==> owner == e
    ensures var v := ViewOf(e, channel, alive);
      && Answer(Some(entry), v).0 == Cold(v)
      && (Answer(Some(entry), v).1 == Some(entry) ||
          (v.playlist.Some? && Answer(Some(entry), v).1 == Some(ColdEntry(v))))
  {
    hide Answer, Cold, ColdEntry, Agree, ViewOf;
    var v := ViewOf(e, channel, alive);
    ViewFacts(e, channel, alive);
    var u: View :| PastViews(owner, channel)(u) && u.channel == channel && u.playlist.Some? && entry == ColdEntry(u);
    var a: Encoder, aliveA: bool :| Precedes(a, owner) && u == ViewOf(a, channel, aliveA);
    ViewFacts(a, channel, aliveA);
    if owner.token == e.token {
      SnapshotsAgree(a, e, channel, aliveA, alive);
    } else {
      DifferentTokensAgree(u, v);
    }
    AgreedAnswer(u, v);
  }

  /** All looks at any of these instances, at any time of their lives. */
  ghost function LooksAt(instances: map<string, Encoder>, channel: string): View -> bool {
    v => exists t <- instances :: IsPastView(v, instances[t], channel)
  }

  lemma PastViewsAgree(e: Encoder, channel: string, u: View, v: View)
    requires e.Valid() && IsPastView(u, e, channel) && IsPastView(v, e, channel)
    ensures Agree(u, v)
  {
    hide Agree, ViewOf;
    var a: Encoder, aliveA: bool :| Precedes(a, e) && u == ViewOf(a, channel, aliveA);
    var b: Encoder, aliveB: bool :| Precedes(b, e) && v == ViewOf(b, channel, aliveB);
    if |a.closed| <= |b.closed| {
      assert a.closed == e.closed[..|a.closed|] && b.closed == e.closed[..|b.closed|];
      SnapshotsAgree(a, b, channel, aliveA, aliveB);
    } else {
      assert a.closed == e.closed[..|a.closed|] && b.closed == e.closed[..|b.closed|];
      LaterAgreesWithEarlier(b, a, channel, aliveB, aliveA);
    }
  }

  lemma PastViewToken(e: Encoder, channel: string, u: View)
    requires IsPastView(u, e, channel)
    ensures u.token == e.token
  {
    hide PlaylistLines;
  }

  /** So the plugin's cache is invisible: in every run of calls on any workers, with any cache losses, over looks at any
      buffer instances with different tokens, at any times and in any order, every answer is the cold one. */
  lemma LiveCacheIsInvisible(instances: map<string, Encoder>, channel: string)
    requires forall t <- instances :: instances[t].Valid() && instances[t].token == t
    ensures AllAgree(LooksAt(instances, channel))
    ensures forall run :: Over(run, LooksAt(instances, channel)) ==> Transparent(run)
  {
    hide Agree, Over, Transparent, IsPastView;
    var views := LooksAt(instances, channel);
    forall u, v | views(u) && views(v)
      ensures Agree(u, v)
    {
      var s: string :| s in instances && IsPastView(u, instances[s], channel);
      var t: string :| t in instances && IsPastView(v, instances[t], channel);
      PastViewToken(instances[s], channel, u);
      PastViewToken(instances[t], channel, v);
      if s == t {
        PastViewsAgree(instances[s], channel, u, v);
      } else {
        DifferentTokensAgree(u, v);
      }
    }
    CacheTransparency(views);
  }

  lemma FreshEntryOk(s: System, alive: bool)
    requires InstancesOk(s) && Live(s).Some? && Live(s).value.closed != []
    ensures CacheOk(s, ColdEntry(ViewOf(Live(s).value, s.channel, alive)))
  {
    hide ColdEntry, ViewOf;
    var e := Live(s).value;
    var v := ViewOf(e, s.channel, alive);
    ViewFacts(e, s.channel, alive);
    ColdEntryToken(v);
    assert Precedes(e, e) && IsPastView(v, e, s.channel) && PastViews(e, s.channel)(v);
  }

  /** Whatever its worker has cached, a manifest request is answered as if nothing were. */
  lemma CachedAnswerIsCold(s: System, worker: nat, alive: bool)
    requires InstancesOk(s) && CachesOk(s) && Live(s).Some?
    ensures AnswerOn(s, worker, alive).0 == Cold(ViewOf(Live(s).value, s.channel, alive))
    ensures CachesOk(s.(caches := AnswerOn(s, worker, alive).1))
  {
    hide Answer, Cold, ColdEntry, ViewOf, LeftByOne;
    var e := Live(s).value;
    var v := ViewOf(e, s.channel, alive);
    ViewFacts(e, s.channel, alive);
    if worker in s.caches {
      assert CacheOk(s, s.caches[worker]);
      OldEntryAnswersCold(e, s.instances[s.caches[worker].token], s.channel, alive, s.caches[worker]);
    } else {
      ColdAnswerLeaves(v);
    }
    if v.playlist.Some? {
      FreshEntryOk(s, alive);
    }
    var after := s.(caches := AnswerOn(s, worker, alive).1);
    forall w <- after.caches
      ensures CacheOk(after, after.caches[w])
    {
      assert w in s.caches ==> CacheOk(s, s.caches[w]);
    }
  }

  lemma ViewFacts(e: Encoder, channel: string, alive: bool)
    requires e.visible > 0
    ensures var v := ViewOf(e, channel, alive);
      v.channel == channel && v.token == e.token && (v.playlist.Some? <==> e.closed != [])
  {
  }

  lemma DifferentTokensAgree(u: View, v: View)
    requires u.token != v.token
    ensures Agree(u, v)
  {
  }

  lemma ColdAnswerLeaves(v: View)
    ensures Answer(None, v).0 == Cold(v)
    ensures Answer(None, v).1 == if v.playlist.Some? then Some(ColdEntry(v)) else None
  {
  }

  lemma ColdEntryToken(v: View)
    ensures v.playlist.Some? ==> ColdEntry(v).token == v.token
  {
  }

  /** A listing of a live buffer names existing segments at their true sizes, in strictly increasing sequence. */
  lemma ListingIsTrue(e: Encoder, channel: string, alive: bool)
    requires e.Valid() && ReplyOf(Cold(ViewOf(e, channel, alive))).Listing?
    ensures var window := ReplyOf(Cold(ViewOf(e, channel, alive))).window;
      StrictWindow(window) && forall w <- window :: TrueEntry(e, w)
  {
    hide Cold, ColdEntry, ViewOf, Placed, WindowEntries, SegmentName, BytesIn, MillisecondsIn;
    var v := ViewOf(e, channel, alive);
    ViewFacts(e, channel, alive);
    ColdIsBuilt(v);
    ColdManifestIsTrue(e, channel, alive);
    var entries := WindowEntries(e);
    var window := ReplyOf(Cold(v)).window;
    assert window == Placed(entries);
    forall i | 0 <= i < |window|
      ensures window[i].sequence == e.FirstListed() + i && TrueEntry(e, window[i])
    {
      PlacedAt(entries, i);
      assert entries[i] == EntryOf(e, e.FirstListed() + i);
    }
  }

  /** A request for a tracked buffer: once its encoder has closed a segment it is answered with a listing; before, it is
      put off while the encoder runs and final when it is dead, whatever the worker has cached. */
  lemma WarmUpExactly(s: System, worker: nat, alive: bool)
    requires InstancesOk(s) && CachesOk(s) && Live(s).Some?
    ensures var reply := ReplyOf(AnswerOn(s, worker, alive).0);
      if Live(s).value.closed != [] then reply.Listing? else reply == Failed(!alive)
  {
    hide Answer, ViewOf, AnswerOn, CachesOk, Placed, WindowEntries, BytesIn, MillisecondsIn;
    var e := Live(s).value;
    var v := ViewOf(e, s.channel, alive);
    CachedAnswerIsCold(s, worker, alive);
    ViewFacts(e, s.channel, alive);
    ViewAlive(e, s.channel, alive);
    FinalExactly(None, v);
    if e.closed != [] {
      hide Cold, ColdEntry;
      ColdIsBuilt(v);
      ColdManifestIsTrue(e, s.channel, alive);
      WindowLength(e);
    }
  }

  /** Without a tracked buffer a request is put off, and no cache is touched. */
  lemma NoBufferNoAnswer(s: System, worker: nat, alive: bool)
    requires Live(s).None?
    ensures ReplyOf(AnswerOn(s, worker, alive).0) == Failed(false) && AnswerOn(s, worker, alive).1 == s.caches
  {
  }

  lemma ViewAlive(e: Encoder, channel: string, alive: bool)
    requires e.visible > 0
    ensures ViewOf(e, channel, alive).alive == alive
  {
  }

  lemma WindowLength(e: Encoder)
    requires e.visible > 0
    ensures e.closed != [] ==> WindowEntries(e) != []
  {
  }

  lemma ColdIsBuilt(v: View)
    ensures v.playlist.Some? ==> Cold(v) == Build(ColdEntry(v).mediaSequence, ColdEntry(v).ordered)
    ensures v.playlist.None? ==> !ReplyOf(Cold(v)).Listing?
  {
  }

  ghost predicate TrueEntry(e: Encoder, w: ManifestSegment) {
    && e.visible > 0 && 0 <= w.sequence < |e.closed|
    && w.filename == e.NameOf(w.sequence) && w.byteSize == |e.closed[w.sequence].body|
  }

  lemma TrueEntryTrueSegment(e: Encoder, w: ManifestSegment, g: Segment<LiveKey>)
    requires TrueEntry(e, w) && g.key == LiveKey(w.filename, w.sequence) && g.byteSize == w.byteSize
    ensures TrueSegment(e, g)
  {
    hide SegmentName;
  }

  lemma MergeStaysTrue(e: Encoder, sp: LiveSpace, window: seq<ManifestSegment>)
    requires TrueSegments(e, sp.segments) && forall w <- window :: TrueEntry(e, w)
    ensures TrueSegments(e, Refresh(sp, window).segments)
  {
    hide TrueSegment, TrueEntry, Merge, Fresh, Accepted;
    var taken, r, n := Fresh(window, LastKnown(sp)), Refresh(sp, window).segments, |sp.segments|;
    MergeAppendsFresh(sp, window, LastKnown(sp));
    forall i | 0 <= i < |r|
      ensures TrueSegment(e, r[i])
    {
      if i < n {
        assert r[..n][i] == sp.segments[i];
      } else {
        var k := i - n;
        assert r[n + k] == r[i] && taken[k] in taken;
        TrueEntryTrueSegment(e, taken[k], r[i]);
      }
    }
  }

  lemma TrimStaysTrue(e: Encoder, sp: LiveSpace)
    requires TrueSegments(e, sp.segments)
    ensures TrueSegments(e, Trim(sp).segments)
  {
    forall i | 0 <= i < |Trim(sp).segments|
      ensures TrueSegment(e, Trim(sp).segments[i])
    {
      if |sp.segments| > LIVE_EDGE_SEGMENTS {
        assert TrueSegment(e, sp.segments[|sp.segments| - LIVE_EDGE_SEGMENTS + i]);
      }
    }
  }

  // ----- Sessions -----

  /** Receiving a listing, from whatever instance, keeps a session right; what it had handed out stays right. */
  lemma ReceivesKeepsSession(s: System, x: Session, window: seq<ManifestSegment>)
    requires SessionOk(s, x) && StrictWindow(window)
    requires s.live == Some(x.token) ==> forall w <- window :: TrueEntry(s.instances[x.token], w)
    requires !x.ready ==> x.log == [] || StreamOf(s.instances[x.token], x) == []
    ensures SessionOk(s, Receives(x, Listing(window), s.live == Some(x.token)))
  {
    hide Joined, Chained, Strict, TrueEntry, Merge;
    var e := s.instances[x.token];
    var start := if x.ready then x.stream.space else Empty();
    var merged := Refresh(start, window);
    MergeExtends(start, window, LastKnown(start));
    FreshOfStrict(window, LastKnown(start));
    MergeStrictness(start, window);
    var space := if x.ready then merged else Trim(merged);
    if !x.ready {
      TrimKeepsTail(merged);
    }
    var current := s.live == Some(x.token);
    var after := Receives(x, Listing(window), current);
    assert after.stream.space == space && x.stream.space.segments == start.segments;
    if current {
      assert x.stream.space.segments[..x.own] == x.stream.space.segments;
      MergeStaysTrue(e, start, window);
      TrimStaysTrue(e, merged);
      assert space.segments[..after.own] == space.segments;
    } else if x.ready {
      assert space.segments[..x.own] == x.stream.space.segments[..x.own];
    } else {
      assert x.own == 0 && space.segments[..0] == [];
    }
    StreamGrows(e, x, after);
    SlicesSurvive(x.log, StreamOf(e, x), StreamOf(e, after));
  }

  lemma StreamGrows(e: Encoder, x: Session, after: Session)
    requires x.own <= |x.stream.space.segments| && after.own <= |after.stream.space.segments|
    requires x.own <= after.own && x.stream.space.segments[..x.own] <= after.stream.space.segments
    ensures StreamOf(e, x) <= StreamOf(e, after)
  {
    JoinedIsPrefix(after.stream.space.segments[..after.own], x.own, Truth(e));
    assert after.stream.space.segments[..after.own][..x.own] == x.stream.space.segments[..x.own];
  }

  lemma ServesIntact(e: Encoder, k: nat, from: nat, n: nat)
    requires e.Valid() && k < |e.closed| && |e.closed| - k < e.Wrap()
    requires n > 0 && from + n <= |e.closed[k].body|
    ensures Serve(Some(e), e.token, e.NameOf(k), FromTo(from, from + n - 1))
            == Served(206, e.closed[k].body[from..from + n], |e.closed[k].body|)
  {
    hide SegmentName;
    RingSafety(e, k);
  }

  lemma FetchServed(st: LiveState, i: nat, size: nat, body: Bytes)
    requires Locate(st.space.segments, st.position, 0) == Some(i)
    requires |body| == Min(size, st.space.segments[i].End() - st.position)
    ensures Fetch(st, size, Response(206, [body], st.space.segments[i].byteSize))
            == (st.(position := st.position + |body|), |body|, body)
  {
    FlattenOne(body);
    assert body[..|body|] == body;
  }

  lemma TrueSegmentsAreSized(e: Encoder, segments: seq<Segment<LiveKey>>)
    requires TrueSegments(e, segments)
    ensures Sized(segments, Truth(e))
  {
    hide SegmentName;
    forall j | 0 <= j < |segments|
      ensures |Truth(e)(segments[j].key)| == segments[j].byteSize
    {
      assert TrueSegment(e, segments[j]);
    }
  }

  /** A timely read of the session's own live instance returns exactly the next bytes of its stream: all that was
      asked for, up to the end of the segment, and at least one. */
  lemma ReadDelivers(e: Encoder, x: Session, size: nat)
    requires e.Valid() && e.token == x.token && WellListed(x) && TrueSegments(e, x.stream.space.segments)
    requires x.ready && !x.stream.fatal && size > 0 && x.stream.position < x.stream.space.totalBytes
    requires var r := Locate(x.stream.space.segments, x.stream.position, 0);
      r.Some? ==> |e.closed| - x.stream.space.segments[r.value].key.sequence < e.Wrap()
    ensures var after, p := ReadOnce(Some(e), x, size), x.stream.position;
      var r := Locate(x.stream.space.segments, p, 0);
      && r.Some?
      && var n := Min(size, x.stream.space.segments[r.value].End() - p);
         var stream := Joined(x.stream.space.segments, Truth(e));
      && n > 0 && 0 <= p && p + n <= |stream|
      && after == x.(stream := x.stream.(position := p + n), log := x.log + [Delivery(p, stream[p..p + n])])
  {
    hide SegmentName, Chained, Strict, Joined, Fetch, Serve, Locate;
    var p, sp := x.stream.position, x.stream.space;
    NoGap(sp, p);
    var i := Locate(sp.segments, p, 0).value;
    var g := sp.segments[i];
    LocatedContains(sp, p);
    assert TrueSegment(e, g);
    var k, n, from := g.key.sequence, Min(size, g.End() - p), p - g.byteOffset;
    TrueSegmentsAreSized(e, sp.segments);
    SliceInSegment(sp, i, p, n, Truth(e));
    ServesIntact(e, k, from, n);
    FetchServed(x.stream, i, size, e.closed[k].body[from..from + n]);
  }

  lemma ServesFile(e: Encoder, name: string, from: nat, n: nat)
    requires e.token != "" && n > 0
    ensures Serve(Some(e), e.token, name, FromTo(from, from + n - 1)) ==
      if name !in e.disk then Served(404, [], -1)
      else
        var file := e.disk[name];
        if from >= |file| then Served(416, [], |file|)
        else Served(206, file[from..Min(from + n, |file|)], |file|)
  {
  }

  lemma FetchRefused(st: LiveState, i: nat, size: nat, served: Served)
    requires Locate(st.space.segments, st.position, 0) == Some(i)
    requires served.status == 404 || served.status == 416 ||
             (served.status == 206 && 0 <= served.total != st.space.segments[i].byteSize)
    ensures Fetch(st, size, Response(served.status, [served.body], served.total)).1 <= 0
    ensures Fetch(st, size, Response(served.status, [served.body], served.total)).0 ==
            if served.status == 206 then st.(fatal := true) else st
  {
  }

  /** What any read of the session's own live instance gets, timely or not, from the file that now has its segment's
      name. Without the file, nothing; from a file of another size than listed, nothing, and the stream gives up unless
      the file ends before the position; from a file of the listed size, that file's bytes, which are the right ones
      exactly when its contents at that place are still the segment's. */
  lemma ReadExactly(e: Encoder, x: Session, size: nat)
    requires e.token == x.token != "" && WellListed(x) && TrueSegments(e, x.stream.space.segments)
    requires x.ready && !x.stream.fatal && size > 0 && x.stream.position < x.stream.space.totalBytes
    ensures var after, p := ReadOnce(Some(e), x, size), x.stream.position;
      var r := Locate(x.stream.space.segments, p, 0);
      && r.Some?
      && var g := x.stream.space.segments[r.value];
         var from, n := p - g.byteOffset, Min(size, g.End() - p);
      && 0 <= g.key.sequence < |e.closed| && from >= 0 && n > 0 && from + n <= |e.closed[g.key.sequence].body|
      && if g.key.filename !in e.disk then after == x
         else
           var file := e.disk[g.key.filename];
           if |file| != g.byteSize then after == x.(stream := x.stream.(fatal := from < |file|))
           else
             var got := Delivery(p, file[from..from + n]);
             && after == x.(stream := x.stream.(position := p + n), log := x.log + [got])
             && (IsSliceAt(Joined(x.stream.space.segments, Truth(e)), got) <==>
                   file[from..from + n] == e.closed[g.key.sequence].body[from..from + n])
  {
    hide SegmentName, Chained, Strict, Joined, Fetch, Serve, Locate;
    var p, sp := x.stream.position, x.stream.space;
    NoGap(sp, p);
    var i := Locate(sp.segments, p, 0).value;
    var g := sp.segments[i];
    LocatedContains(sp, p);
    assert TrueSegment(e, g);
    var n, from := Min(size, g.End() - p), p - g.byteOffset;
    TrueSegmentsAreSized(e, sp.segments);
    SliceInSegment(sp, i, p, n, Truth(e));
    ServesFile(e, g.key.filename, from, n);
    if g.key.filename !in e.disk || |e.disk[g.key.filename]| != g.byteSize {
      FetchRefused(x.stream, i, size, Serve(Some(e), e.token, g.key.filename, FromTo(from, from + n - 1)));
    } else {
      FetchServed(x.stream, i, size, e.disk[g.key.filename][from..from + n]);
    }
  }

  /** The server turns away a token that is not the live instance's, so such a read hands out nothing. */
  lemma ForeignBufferRefuses(live: Option<Encoder>, x: Session, size: nat)
    requires live.None? || live.value.token != x.token
    ensures ReadOnce(live, x, size) == x
  {
    var r := Locate(x.stream.space.segments, x.stream.position, 0);
    if r.Some? {
      assert RequestAt(live, x, size, r.value) == Response(403, [[]], -1);
    }
  }

  lemma ReadKeepsSession(s: System, x: Session, size: nat)
    requires InstancesOk(s) && SessionOk(s, x)
    requires s.live == Some(x.token) ==>
      var r := Locate(x.stream.space.segments, x.stream.position, 0);
      r.Some? ==>
        |s.instances[x.token].closed| - x.stream.space.segments[r.value].key.sequence < s.instances[x.token].Wrap()
    ensures SessionOk(s, ReadOnce(Live(s), x, size))
  {
    hide SegmentName, Fetch, RequestAt, Chained, Strict, Locate, Joined, Truth, TrueSegments;
    var e, after := s.instances[x.token], ReadOnce(Live(s), x, size);
    if s.live != Some(x.token) {
      ForeignBufferRefuses(Live(s), x, size);
    } else if !x.ready || x.stream.fatal || size == 0 || x.stream.position >= x.stream.space.totalBytes {
      assert after == x;
    } else {
      assert x.stream.space.segments[..x.own] == x.stream.space.segments;
      ReadDelivers(e, x, size);
    }
  }

  // ----- Steps -----

  lemma PastStaysPast(entry: CacheEntry, channel: string, e: Encoder, e': Encoder)
    requires LeftByOne(entry, channel, PastViews(e, channel))
    requires e.token == e'.token && e.visible == e'.visible && e.closed <= e'.closed
    ensures LeftByOne(entry, channel, PastViews(e', channel))
  {
    hide ViewOf, ColdEntry;
    var u: View :| PastViews(e, channel)(u) && u.channel == channel && u.playlist.Some? && entry == ColdEntry(u);
    var a: Encoder, alive: bool :| Precedes(a, e) && u == ViewOf(a, channel, alive);
    assert Precedes(a, e') && PastViews(e', channel)(u);
  }

  lemma LongerHistorySameStream(e: Encoder, e': Encoder, segments: seq<Segment<LiveKey>>)
    requires TrueSegments(e, segments) && e.visible == e'.visible && e.closed <= e'.closed
    ensures TrueSegments(e', segments) && Joined(segments, Truth(e)) == Joined(segments, Truth(e'))
  {
    hide SegmentName;
    forall i | 0 <= i < |segments|
      ensures TrueSegment(e', segments[i]) && Truth(e)(segments[i].key) == Truth(e')(segments[i].key)
    {
      assert TrueSegment(e, segments[i]);
      assert e.closed[segments[i].key.sequence] == e'.closed[segments[i].key.sequence];
    }
    JoinedSame(segments, Truth(e), Truth(e'));
  }

  /** The live encoder going on writing changes nothing for caches or sessions but the length of its history. */
  lemma EncoderGoesOn(s: System, e': Encoder)
    requires Inv(s) && Live(s).Some?
    requires e'.Valid() && e'.token == s.live.value && e'.visible == Live(s).value.visible
    requires Live(s).value.closed <= e'.closed
    ensures Inv(s.(instances := s.instances[s.live.value := e']))
  {
    hide SegmentName, Chained, Strict, PastViews, LeftByOne, TrueSegments, Truth, Joined;
    var e := Live(s).value;
    var after := s.(instances := s.instances[s.live.value := e']);
    forall w <- after.caches
      ensures CacheOk(after, after.caches[w])
    {
      assert CacheOk(s, s.caches[w]);
      if s.caches[w].token == e.token {
        PastStaysPast(s.caches[w], s.channel, e, e');
      }
    }
    forall v <- after.sessions
      ensures SessionOk(after, after.sessions[v])
    {
      var x := s.sessions[v];
      assert SessionOk(s, x);
      if x.token == e.token {
        LongerHistorySameStream(e, e', x.stream.space.segments[..x.own]);
      }
    }
  }

  lemma SessionChanges(s: System, viewer: string, x: Session)
    requires Inv(s) && SessionOk(s, x)
    ensures Inv(s.(sessions := s.sessions[viewer := x]))
  {
    hide SessionOk;
    var after := s.(sessions := s.sessions[viewer := x]);
    forall v <- after.sessions
      ensures SessionOk(after, after.sessions[v])
    {
      assert v != viewer ==> SessionOk(s, s.sessions[v]);
      SameInstances(s, after, after.sessions[v]);
    }
    forall w <- after.caches
      ensures CacheOk(after, after.caches[w])
    {
      assert CacheOk(s, s.caches[w]);
    }
  }

  lemma SameInstances(s: System, t: System, x: Session)
    requires s.instances == t.instances && (t.live == Some(x.token) ==> s.live == t.live)
    ensures SessionOk(s, x) ==> SessionOk(t, x)
  {
  }

  lemma StopKeepsInv(s: System)
    requires Inv(s)
    ensures Inv(s.(live := None))
  {
    hide SessionOk, LeftByOne;
    var after := s.(live := None);
    forall v <- after.sessions
      ensures SessionOk(after, after.sessions[v])
    {
      assert SessionOk(s, s.sessions[v]);
      SameInstances(s, after, s.sessions[v]);
    }
    forall w <- after.caches
      ensures CacheOk(after, after.caches[w])
    {
      assert CacheOk(s, s.caches[w]);
    }
  }

  lemma NewInstanceKeepsInv(s: System, token: string, visible: nat)
    requires Inv(s) && s.live.None? && token != "" && token !in s.instances && visible > 0
    ensures Inv(s.(instances := s.instances[token := StartEncoder(token, visible)], live := Some(token)))
  {
    hide LeftByOne, PastViews, StreamOf, WellListed, TrueSegments, StartEncoder;
    var after := s.(instances := s.instances[token := StartEncoder(token, visible)], live := Some(token));
    StartIsValid(token, visible);
    assert StartEncoder(token, visible).token == token by {
      NewToken(token, visible);
    }
    forall v <- after.sessions
      ensures SessionOk(after, after.sessions[v])
    {
      assert SessionOk(s, s.sessions[v]);
    }
    forall w <- after.caches
      ensures CacheOk(after, after.caches[w])
    {
      assert CacheOk(s, s.caches[w]);
    }
  }

  lemma NewToken(token: string, visible: nat)
    requires visible > 0
    ensures StartEncoder(token, visible).token == token
  {
  }

  lemma StartKeepsInv(s: System, token: string, minutes: int, seconds: int)
    requires Inv(s) && Enabled(s, BufferStarts(token, minutes, seconds))
    ensures Inv(Step(s, BufferStarts(token, minutes, seconds)))
  {
    hide Inv, RingSizes, StartEncoder;
    RingSizesFit(minutes, seconds, token);
    NewInstanceKeepsInv(s, token, RingSizes(minutes, seconds).value.0);
  }

  lemma ManifestKeepsInv(s: System, viewer: string, worker: nat, alive: bool)
    requires Inv(s) && viewer in s.sessions
    requires Live(s).Some? ==> Live(s).value.visible > 0
    ensures Inv(Step(s, ManifestAsked(viewer, worker, alive)))
  {
    hide SessionOk, CacheOk, Receives, Answer, Cold, ViewOf;
    var (reply, caches) := AnswerOn(s, worker, alive);
    var x, t := s.sessions[viewer], s.(caches := caches);
    assert SessionOk(s, x);
    if Live(s).Some? {
      CachedAnswerIsCold(s, worker, alive);
    }
    forall v <- t.sessions
      ensures SessionOk(t, t.sessions[v])
    {
      assert SessionOk(s, s.sessions[v]);
      SameInstances(s, t, s.sessions[v]);
    }
    var received := Receives(x, ReplyOf(reply), s.live == Some(x.token));
    assert SessionOk(t, received) by {
      if ReplyOf(reply).Listing? {
        ListingIsTrue(Live(s).value, s.channel, alive);
        UnopenedHasNoStream(t, x);
        ReceivesKeepsSession(t, x, ReplyOf(reply).window);
      } else {
        FailureChangesNothing(x, ReplyOf(reply), s.live == Some(x.token));
      }
    }
    SessionChanges(t, viewer, received);
  }

  lemma FailureChangesNothing(x: Session, reply: RefreshReply, current: bool)
    requires reply.Failed?
    ensures Receives(x, reply, current) == x
  {
  }

  lemma UnopenedHasNoStream(s: System, x: Session)
    requires SessionOk(s, x)
    ensures !x.ready ==> StreamOf(s.instances[x.token], x) == []
  {
  }

  lemma SeekKeepsSession(s: System, x: Session, offset: int, whence: Whence)
    requires SessionOk(s, x)
    ensures SessionOk(s, x.(stream := SeekTo(x.stream, offset, whence).0))
  {
    hide Joined, TrueSegments, Chained, Strict;
    var y := x.(stream := SeekTo(x.stream, offset, whence).0);
    assert StreamOf(s.instances[x.token], y) == StreamOf(s.instances[x.token], x);
    if x.stream.space == Empty() {
      assert TailTarget(x.stream.space, LIVE_EDGE_SEGMENTS) == 0;
    }
  }

  lemma NewSessionOk(s: System)
    requires InstancesOk(s) && s.live.Some?
    ensures SessionOk(s, Session(s.live.value, false, LiveState(true, false, Empty(), 0, -1, None), 0, []))
  {
  }

  /** Every step keeps the invariant. */
  lemma StepKeepsInv(s: System, e: Event)
    requires Inv(s) && Enabled(s, e) && Timely(s, e)
    ensures Inv(Step(s, e))
  {
    hide SessionOk, CacheOk, Receives, ReadOnce, SeekTo, AnswerOn;
    match e
    case BufferStarts(token, minutes, seconds) => StartKeepsInv(s, token, minutes, seconds);
    case BufferStops => StopKeepsInv(s);
    case EncoderWrites(bytes) =>
      WriteKeepsValid(Live(s).value, bytes);
      EncoderGoesOn(s, Live(s).value.Write(bytes));
    case EncoderCloses(ms, stamp) =>
      CloseKeepsValid(Live(s).value, ms, stamp);
      EncoderGoesOn(s, Live(s).value.Close(ms, stamp));
    case CacheDropped(worker) => DropKeepsInv(s, worker);
    case SessionStarts(viewer) =>
      NewSessionOk(s);
      SessionChanges(s, viewer, Step(s, e).sessions[viewer]);
    case ManifestAsked(viewer, worker, alive) => ManifestKeepsInv(s, viewer, worker, alive);
    case Seeks(viewer, offset, whence) =>
      assert SessionOk(s, s.sessions[viewer]);
      SeekKeepsSession(s, s.sessions[viewer], offset, whence);
      SessionChanges(s, viewer, Step(s, e).sessions[viewer]);
    case Reads(viewer, size) =>
      assert SessionOk(s, s.sessions[viewer]);
      ReadKeepsSession(s, s.sessions[viewer], size);
      SessionChanges(s, viewer, Step(s, e).sessions[viewer]);
  }

  lemma DropKeepsInv(s: System, worker: nat)
    requires Inv(s)
    ensures Inv(s.(caches := s.caches - {worker}))
  {
    hide SessionOk, LeftByOne;
    var after := s.(caches := s.caches - {worker});
    forall v <- after.sessions
      ensures SessionOk(after, after.sessions[v])
    {
      assert SessionOk(s, s.sessions[v]);
      SameInstances(s, after, s.sessions[v]);
    }
    forall w <- after.caches
      ensures CacheOk(after, after.caches[w])
    {
      assert CacheOk(s, s.caches[w]);
    }
  }

  lemma {:induction false} RunKeepsInv(s: System, events: seq<Event>)
    requires Inv(s) && Admissible(s, events)
    ensures Inv(RunFrom(s, events))
  {
    hide Inv, Enabled, Timely, Step;
    if events != [] {
      RunKeepsInv(s, events[..|events| - 1]);
      StepKeepsInv(RunFrom(s, events[..|events| - 1]), events[|events| - 1]);
    }
  }

  lemma InitialOk(channel: string)
    ensures Inv(Initial(channel))
  {
  }

  /** End-to-end fidelity. After any run, everything any session was ever handed is the slice, at the position it was
      read from, of the joined true contents of that session's own buffer instance: through ring reuse, worker caches,
      windows, trimming, seeks, and the death and replacement of the buffer. */
  lemma EveryByteIsRight(channel: string, events: seq<Event>, viewer: string)
    requires Admissible(Initial(channel), events)
    requires viewer in RunFrom(Initial(channel), events).sessions
    ensures var s := RunFrom(Initial(channel), events);
      var x := s.sessions[viewer];
      && x.token in s.instances && x.own <= |x.stream.space.segments|
      && Chained(x.stream.space) && Strict(x.stream.space)
      && TrueSegments(s.instances[x.token], x.stream.space.segments[..x.own])
      && forall d <- x.log :: IsSliceAt(StreamOf(s.instances[x.token], x), d)
  {
    hide Admissible, RunFrom;
    InitialOk(channel);
    RunKeepsInv(Initial(channel), events);
    assert SessionOk(RunFrom(Initial(channel), events), RunFrom(Initial(channel), events).sessions[viewer]);
  }

  /** One instance per session. A buffer instance that is gone never comes back under its token, and from then on a
      session that holds that token is handed nothing more: all it ever got came from the instance it opened. */
  lemma {:induction false} NothingAfterDeath(s: System, events: seq<Event>, viewer: string)
    requires Inv(s) && Admissible(s, events) && viewer in s.sessions && SessionStarts(viewer) !in events
    requires s.sessions[viewer].token in s.instances && s.live != Some(s.sessions[viewer].token)
    ensures var t, x := RunFrom(s, events), s.sessions[viewer];
      && x.token in t.instances && t.live != Some(x.token)
      && viewer in t.sessions && t.sessions[viewer].token == x.token && t.sessions[viewer].log == x.log
  {
    hide Enabled, Timely, Step, CachesOk, SessionsOk;
    if events != [] {
      var init, e := events[..|events| - 1], events[|events| - 1];
      assert e in events && forall x <- init :: x in events;
      NothingAfterDeath(s, init, viewer);
      RunKeepsInv(s, init);
      StepAfterDeath(RunFrom(s, init), e, viewer);
    }
  }

  lemma StepAfterDeath(s: System, e: Event, viewer: string)
    requires Enabled(s, e) && viewer in s.sessions && e != SessionStarts(viewer)
    requires s.sessions[viewer].token in s.instances && s.live != Some(s.sessions[viewer].token)
    requires InstancesOk(s)
    ensures var t, x := Step(s, e), s.sessions[viewer];
      && x.token in t.instances && t.live != Some(x.token)
      && viewer in t.sessions && t.sessions[viewer].token == x.token && t.sessions[viewer].log == x.log
  {
    hide Fetch, RequestAt, SeekTo, AnswerOn, StartEncoder;
    if e.Reads? && e.viewer == viewer {
      ForeignBufferRefuses(Live(s), s.sessions[viewer], e.size);
    }
  }
}
