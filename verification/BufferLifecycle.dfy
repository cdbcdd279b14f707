/** The plugin's tracked buffers: who watches what, and when a buffer is taken down. Every action is one atomic step
    over the shared state, with one clock reading. */
module BufferLifecycle {
  import opened Basics

  /** The tracked state of one channel's buffer. */
  datatype Buffer = Buffer(pid: int, lastHeartbeat: int, viewers: seq<string>, viewerHeartbeats: map<string, int>)

  /** `alive` are the running encoder processes and the channel each one serves. */
  datatype World = World(buffers: map<string, Buffer>, alive: map<int, string>, clock: int)

  datatype Settings = Settings(maxConcurrentBuffers: int, idleTimeout: int)

  datatype StartResult = Reattached | Started | AtLimit | SpawnFailed

  predicate Given(viewer: Option<string>) {
    viewer.Some? && viewer.value != ""
  }

  // ----- Actions -----

  function Fresh(viewers: seq<string>, heartbeats: map<string, int>, idleTimeout: int, now: int): seq<string> {
    if viewers == [] then []
    else
      var before, v := Fresh(viewers[..|viewers| - 1], heartbeats, idleTimeout, now), viewers[|viewers| - 1];
      if now - (if v in heartbeats then heartbeats[v] else now) <= idleTimeout then before + [v] else before
  }

  function Prune(b: Buffer, idleTimeout: int, now: int): Buffer {
    var kept := Fresh(b.viewers, b.viewerHeartbeats, idleTimeout, now);
    if |kept| == |b.viewers| then b
    else b.(viewers := kept, viewerHeartbeats := map v | v in b.viewerHeartbeats && v in kept :: b.viewerHeartbeats[v])
  }

  function Teardown(w: World, channel: string): World
    requires channel in w.buffers
  {
    w.(buffers := w.buffers - {channel}, alive := w.alive - {w.buffers[channel].pid})
  }

  function Register(b: Buffer, viewer: Option<string>, now: int): Buffer {
    var seen := b.(lastHeartbeat := now);
    if !Given(viewer) then seen
    else seen.(viewers := if viewer.value in b.viewers then b.viewers else b.viewers + [viewer.value],
               viewerHeartbeats := b.viewerHeartbeats[viewer.value := now])
  }

  /** A tracked buffer whose process is gone counts as no buffer. */
  function WithoutDead(w: World, channel: string): World {
    if channel in w.buffers && w.buffers[channel].pid !in w.alive then w.(buffers := w.buffers - {channel}) else w
  }

  function StartBuffer(w: World, s: Settings, channel: string, viewer: Option<string>, spawn: Option<int>)
    : (World, StartResult)
  {
    var c := WithoutDead(w, channel);
    if channel in c.buffers then
      (c.(buffers := c.buffers[channel := Register(c.buffers[channel], viewer, c.clock)]), Reattached)
    else if |c.buffers| >= s.maxConcurrentBuffers then (c, AtLimit)
    else if spawn.None? then (c, SpawnFailed)
    else
      (c.(buffers := c.buffers[channel := NewBuffer(spawn.value, viewer, c.clock)],
          alive := c.alive[spawn.value := channel]), Started)
  }

  function NewBuffer(pid: int, viewer: Option<string>, now: int): Buffer {
    Buffer(pid, now, if Given(viewer) then [viewer.value] else [],
           if Given(viewer) then map[viewer.value := now] else map[])
  }

  function RemoveFirst(viewers: seq<string>, v: string): seq<string>
    requires v in viewers
  {
    if viewers[0] == v then viewers[1..] else [viewers[0]] + RemoveFirst(viewers[1..], v)
  }

  function Deregister(b: Buffer, v: string): Buffer {
    if v in b.viewers then b.(viewers := RemoveFirst(b.viewers, v), viewerHeartbeats := b.viewerHeartbeats - {v}) else b
  }

  function StopBuffer(w: World, s: Settings, channel: string, viewer: Option<string>): World {
    if channel !in w.buffers then w
    else if !Given(viewer) then Teardown(w, channel)
    else
      var b := Prune(Deregister(w.buffers[channel], viewer.value), s.idleTimeout, w.clock);
      if b.viewers != [] then w.(buffers := w.buffers[channel := b]) else Teardown(w, channel)
  }

  function Heartbeat(w: World, channel: string, viewer: Option<string>): World {
    if channel !in w.buffers then w
    else
      var b := w.buffers[channel].(lastHeartbeat := w.clock);
      var c := if Given(viewer) && viewer.value in b.viewers
               then b.(viewerHeartbeats := b.viewerHeartbeats[viewer.value := w.clock]) else b;
      w.(buffers := w.buffers[channel := c])
  }

  /** A file was served: someone is watching, nobody knows who. */
  function Fetched(w: World, channel: string): World {
    if channel !in w.buffers then w
    else w.(buffers := w.buffers[channel := w.buffers[channel].(lastHeartbeat := w.clock)])
  }

  /** A manifest request: `playlist` tells whether the playlist exists yet, `built` whether a manifest came out. */
  function ManifestAsked(w: World, channel: string, playlist: bool, built: bool): World {
    if channel !in w.buffers then w
    else if !playlist then (if w.buffers[channel].pid in w.alive then w else Teardown(w, channel))
    else if built then Fetched(w, channel)
    else w
  }

  /** Whether a manifest request is answered as final. */
  predicate ManifestFatal(w: World, channel: string, playlist: bool) {
    channel in w.buffers && !playlist && w.buffers[channel].pid !in w.alive
  }

  predicate Idle(b: Buffer, s: Settings, now: int) {
    now - b.lastHeartbeat > s.idleTimeout
  }

  function ReapOne(w: World, s: Settings, channel: string): World
    requires channel in w.buffers
  {
    var b := Prune(w.buffers[channel], s.idleTimeout, w.clock);
    var pruned := w.(buffers := w.buffers[channel := b]);
    if Idle(b, s, w.clock) then Teardown(pruned, channel) else pruned
  }

  function ReapSeq(w: World, s: Settings, channels: seq<string>): World {
    if channels == [] then w
    else
      var before, channel := ReapSeq(w, s, channels[..|channels| - 1]), channels[|channels| - 1];
      if channel in before.buffers then ReapOne(before, s, channel) else before
  }

  datatype Event =
    | Starts(channel: string, viewer: Option<string>, spawn: Option<int>)
    | Stops(channel: string, viewer: Option<string>)
    | Beats(channel: string, viewer: Option<string>)
    | Fetches(channel: string)
    | AsksManifest(channel: string, playlist: bool, built: bool)
    | Reaps(order: seq<string>)
    | ProcessDies(pid: int)
    | TimePasses(ms: nat)

  /** A new process gets an identifier no running process has; one pass of the reaper looks at each tracked buffer. */
  ghost predicate Enabled(w: World, e: Event) {
    match e
    case Starts(_, _, spawn) => spawn.Some? ==> spawn.value !in w.alive
    case Reaps(order) => forall c :: c in w.buffers <==> c in order
    case _ => true
  }

  function Step(w: World, s: Settings, e: Event): World {
    match e
    case Starts(channel, viewer, spawn) => StartBuffer(w, s, channel, viewer, spawn).0
    case Stops(channel, viewer) => StopBuffer(w, s, channel, viewer)
    case Beats(channel, viewer) => Heartbeat(w, channel, viewer)
    case Fetches(channel) => Fetched(w, channel)
    case AsksManifest(channel, playlist, built) => ManifestAsked(w, channel, playlist, built)
    case Reaps(order) => ReapSeq(w, s, order)
    case ProcessDies(pid) => w.(alive := w.alive - {pid})
    case TimePasses(ms) => w.(clock := w.clock + ms)
  }

  function RunFrom(w: World, s: Settings, events: seq<Event>): World {
    if events == [] then w else Step(RunFrom(w, s, events[..|events| - 1]), s, events[|events| - 1])
  }

  ghost predicate Possible(w: World, s: Settings, events: seq<Event>) {
    forall i :: 0 <= i < |events| ==> Enabled(RunFrom(w, s, events[..i]), events[i])
  }

  // ----- The invariant -----

  ghost predicate NoDuplicates(viewers: seq<string>) {
    forall i, j :: 0 <= i < j < |viewers| ==> viewers[i] != viewers[j]
  }

  /** Viewers are listed once, each has a heartbeat and nobody else has, and none is newer than the buffer's own. */
  ghost predicate BufferOk(b: Buffer, now: int) {
    && NoDuplicates(b.viewers)
    && (forall v :: v in b.viewers <==> v in b.viewerHeartbeats)
    && (forall v <- b.viewerHeartbeats :: b.viewerHeartbeats[v] <= b.lastHeartbeat)
    && b.lastHeartbeat <= now
  }

  ghost predicate BuffersOk(w: World) {
    forall c <- w.buffers :: BufferOk(w.buffers[c], w.clock)
  }

  /** Every running process is the one its channel's buffer tracks. */
  ghost predicate ProcessesTracked(w: World) {
    forall p <- w.alive :: w.alive[p] in w.buffers && w.buffers[w.alive[p]].pid == p
  }

  ghost predicate Inv(w: World, s: Settings) {
    BuffersOk(w) && ProcessesTracked(w) && |w.buffers| <= Max(0, s.maxConcurrentBuffers)
  }

  lemma AppendNew(viewers: seq<string>, v: string)
    ensures NoDuplicates(viewers + [v]) <==> NoDuplicates(viewers) && v !in viewers
  {
    if NoDuplicates(viewers + [v]) {
      forall i, j | 0 <= i < j < |viewers|
        ensures viewers[i] != viewers[j]
      {
        assert (viewers + [v])[i] != (viewers + [v])[j];
      }
      forall i | 0 <= i < |viewers|
        ensures viewers[i] != v
      {
        assert (viewers + [v])[i] != (viewers + [v])[|viewers|];
      }
    }
  }

  lemma PrependNew(v: string, viewers: seq<string>)
    ensures NoDuplicates([v] + viewers) <==> NoDuplicates(viewers) && v !in viewers
  {
    var all := [v] + viewers;
    if NoDuplicates(all) {
      forall i, j | 0 <= i < j < |viewers|
        ensures viewers[i] != viewers[j]
      {
        assert all[i + 1] != all[j + 1];
      }
      forall i | 0 <= i < |viewers|
        ensures viewers[i] != v
      {
        assert all[0] != all[i + 1];
      }
    }
  }

  lemma {:induction false} FreshIs(viewers: seq<string>, heartbeats: map<string, int>, idleTimeout: int, now: int)
    requires NoDuplicates(viewers) && forall v <- viewers :: v in heartbeats
    ensures var r := Fresh(viewers, heartbeats, idleTimeout, now);
      && NoDuplicates(r) && |r| <= |viewers|
      && (forall v :: v in r <==> v in viewers && now - heartbeats[v] <= idleTimeout)
      && (|r| == |viewers| ==> r == viewers)
  {
    hide NoDuplicates;
    if viewers != [] {
      var init, last := viewers[..|viewers| - 1], viewers[|viewers| - 1];
      assert viewers == init + [last];
      AppendNew(init, last);
      FreshIs(init, heartbeats, idleTimeout, now);
      AppendNew(Fresh(init, heartbeats, idleTimeout, now), last);
    } else {
      NoneTwice();
    }
  }

  lemma NoneTwice()
    ensures NoDuplicates([])
  {
  }

  /** Pruning leaves exactly the viewers heard from in time. */
  lemma PruneIs(b: Buffer, idleTimeout: int, now: int)
    requires BufferOk(b, now)
    ensures var r := Prune(b, idleTimeout, now);
      && BufferOk(r, now) && r.pid == b.pid && r.lastHeartbeat == b.lastHeartbeat
      && (forall v :: v in r.viewers <==> v in b.viewers && now - b.viewerHeartbeats[v] <= idleTimeout)
      && (forall v <- r.viewers :: r.viewerHeartbeats[v] == b.viewerHeartbeats[v])
  {
    FreshIs(b.viewers, b.viewerHeartbeats, idleTimeout, now);
  }

  lemma {:induction false} RemoveFirstIs(viewers: seq<string>, v: string)
    requires NoDuplicates(viewers) && v in viewers
    ensures NoDuplicates(RemoveFirst(viewers, v))
    ensures forall u :: u in RemoveFirst(viewers, v) <==> u in viewers && u != v
  {
    hide NoDuplicates;
    assert viewers == [viewers[0]] + viewers[1..];
    PrependNew(viewers[0], viewers[1..]);
    if viewers[0] != v {
      RemoveFirstIs(viewers[1..], v);
      PrependNew(viewers[0], RemoveFirst(viewers[1..], v));
    }
  }

  lemma DeregisterIs(b: Buffer, v: string, now: int)
    requires BufferOk(b, now)
    ensures var r := Deregister(b, v);
      && BufferOk(r, now) && r.pid == b.pid && r.lastHeartbeat == b.lastHeartbeat
      && (forall u :: u in r.viewers <==> u in b.viewers && u != v)
      && (forall u <- r.viewers :: r.viewerHeartbeats[u] == b.viewerHeartbeats[u])
  {
    if v in b.viewers {
      RemoveFirstIs(b.viewers, v);
    }
  }

  lemma FewerKeys<K, V>(a: map<K, V>, b: map<K, V>)
    requires a.Keys <= b.Keys
    ensures |a| <= |b|
  {
    assert |a.Keys| + |b.Keys - a.Keys| == |b.Keys|;
    assert |a| == |a.Keys| && |b| == |b.Keys|;
  }

  lemma ReplaceKeepsInv(w: World, s: Settings, channel: string, b: Buffer)
    requires Inv(w, s) && channel in w.buffers && BufferOk(b, w.clock) && b.pid == w.buffers[channel].pid
    ensures Inv(w.(buffers := w.buffers[channel := b]), s)
  {
    FewerKeys(w.buffers[channel := b], w.buffers);
  }

  lemma TeardownKeepsInv(w: World, s: Settings, channel: string)
    requires Inv(w, s) && channel in w.buffers
    ensures Inv(Teardown(w, channel), s)
  {
    FewerKeys(w.buffers - {channel}, w.buffers);
  }

  lemma WithoutDeadKeepsInv(w: World, s: Settings, channel: string)
    requires Inv(w, s)
    ensures Inv(WithoutDead(w, channel), s)
  {
    FewerKeys(w.buffers - {channel}, w.buffers);
  }

  lemma SpawnKeepsInv(w: World, s: Settings, channel: string, b: Buffer)
    requires Inv(w, s) && channel !in w.buffers && b.pid !in w.alive && BufferOk(b, w.clock)
    requires |w.buffers| < s.maxConcurrentBuffers
    ensures Inv(w.(buffers := w.buffers[channel := b], alive := w.alive[b.pid := channel]), s)
  {
    assert |w.buffers[channel := b]| == |w.buffers| + 1;
  }

  lemma StartKeepsInv(w: World, s: Settings, channel: string, viewer: Option<string>, spawn: Option<int>)
    requires Inv(w, s) && (spawn.Some? ==> spawn.value !in w.alive)
    ensures Inv(StartBuffer(w, s, channel, viewer, spawn).0, s)
  {
    hide Inv, ProcessesTracked, BuffersOk;
    WithoutDeadKeepsInv(w, s, channel);
    var c := WithoutDead(w, channel);
    if channel in c.buffers {
      RegisterIs(c, s, channel, viewer);
      ReplaceKeepsInv(c, s, channel, Register(c.buffers[channel], viewer, c.clock));
    } else if |c.buffers| < s.maxConcurrentBuffers && spawn.Some? {
      SpawnKeepsInv(c, s, channel, StartBuffer(w, s, channel, viewer, spawn).0.buffers[channel]);
    }
  }

  lemma RegisterIs(w: World, s: Settings, channel: string, viewer: Option<string>)
    requires Inv(w, s) && channel in w.buffers
    ensures var r := Register(w.buffers[channel], viewer, w.clock);
        BufferOk(r, w.clock) && r.pid == w.buffers[channel].pid
  {
    if Given(viewer) {
      AppendNew(w.buffers[channel].viewers, viewer.value);
    }
  }

  lemma StopKeepsInv(w: World, s: Settings, channel: string, viewer: Option<string>)
    requires Inv(w, s)
    ensures Inv(StopBuffer(w, s, channel, viewer), s)
  {
    if channel in w.buffers {
      TeardownKeepsInv(w, s, channel);
      if Given(viewer) {
        var b := w.buffers[channel];
        DeregisterIs(b, viewer.value, w.clock);
        PruneIs(Deregister(b, viewer.value), s.idleTimeout, w.clock);
        ReplaceKeepsInv(w, s, channel, Prune(Deregister(b, viewer.value), s.idleTimeout, w.clock));
      }
    }
  }

  lemma ReapOneKeepsInv(w: World, s: Settings, channel: string)
    requires Inv(w, s) && channel in w.buffers
    ensures Inv(ReapOne(w, s, channel), s)
  {
    PruneIs(w.buffers[channel], s.idleTimeout, w.clock);
    ReplaceKeepsInv(w, s, channel, Prune(w.buffers[channel], s.idleTimeout, w.clock));
    var pruned := w.(buffers := w.buffers[channel := Prune(w.buffers[channel], s.idleTimeout, w.clock)]);
    TeardownKeepsInv(pruned, s, channel);
  }

  /** What one pass of the reaper does, in whatever order it finds the buffers: a buffer stays exactly if it was
      heard from in time, then with exactly its timely viewers. */
  lemma {:induction false} ReaperExactly(w: World, s: Settings, order: seq<string>)
    requires Inv(w, s)
    ensures var r := ReapSeq(w, s, order);
      && Inv(r, s) && r.clock == w.clock
      && (forall c :: c in r.buffers <==> c in w.buffers && !(c in order && Idle(w.buffers[c], s, w.clock)))
      && (forall c <- r.buffers :: r.buffers[c] ==
            if c in order then Prune(w.buffers[c], s.idleTimeout, w.clock) else w.buffers[c])
  {
    hide Inv, Prune, Idle, ReapOne;
    if order != [] {
      var init, channel := order[..|order| - 1], order[|order| - 1];
      ReaperExactly(w, s, init);
      var before := ReapSeq(w, s, init);
      assert order == init + [channel];
      if channel in before.buffers {
        ReapOneKeepsInv(before, s, channel);
        ReapOneIs(before, s, channel);
        PrunedKnown(w, s, channel);
      }
    }
  }

  lemma ReapOneIs(w: World, s: Settings, channel: string)
    requires channel in w.buffers
    ensures var b := Prune(w.buffers[channel], s.idleTimeout, w.clock);
      ReapOne(w, s, channel).buffers == (if Idle(b, s, w.clock) then w.buffers - {channel} else w.buffers[channel := b])
    ensures ReapOne(w, s, channel).clock == w.clock
  {
    hide Prune;
  }

  lemma PrunedKnown(w: World, s: Settings, channel: string)
    requires Inv(w, s) && channel in w.buffers
    ensures var b := Prune(w.buffers[channel], s.idleTimeout, w.clock);
      Idle(b, s, w.clock) == Idle(w.buffers[channel], s, w.clock) && Prune(b, s.idleTimeout, w.clock) == b
  {
    PruneIs(w.buffers[channel], s.idleTimeout, w.clock);
    PruneTwice(w.buffers[channel], s.idleTimeout, w.clock);
  }

  lemma PruneTwice(b: Buffer, idleTimeout: int, now: int)
    requires BufferOk(b, now)
    ensures Prune(Prune(b, idleTimeout, now), idleTimeout, now) == Prune(b, idleTimeout, now)
  {
    PruneIs(b, idleTimeout, now);
    var once := Prune(b, idleTimeout, now);
    PruneIs(once, idleTimeout, now);
    AllFresh(once.viewers, once.viewerHeartbeats, idleTimeout, now);
  }

  lemma {:induction false} AllFresh(viewers: seq<string>, heartbeats: map<string, int>, idleTimeout: int, now: int)
    requires forall v <- viewers :: v in heartbeats && now - heartbeats[v] <= idleTimeout
    ensures Fresh(viewers, heartbeats, idleTimeout, now) == viewers
  {
    if viewers != [] {
      assert viewers[|viewers| - 1] in viewers;
      AllFresh(viewers[..|viewers| - 1], heartbeats, idleTimeout, now);
    }
  }

  lemma StepKeepsInv(w: World, s: Settings, e: Event)
    requires Inv(w, s) && Enabled(w, e)
    ensures Inv(Step(w, s, e), s)
  {
    match e
    case Starts(channel, viewer, spawn) => StartKeepsInv(w, s, channel, viewer, spawn);
    case Stops(channel, viewer) => StopKeepsInv(w, s, channel, viewer);
    case Beats(channel, viewer) =>
      if channel in w.buffers {
        ReplaceKeepsInv(w, s, channel, Heartbeat(w, channel, viewer).buffers[channel]);
      }
    case Fetches(channel) => FetchKeepsInv(w, s, channel);
    case AsksManifest(channel, playlist, built) =>
      FetchKeepsInv(w, s, channel);
      if channel in w.buffers {
        TeardownKeepsInv(w, s, channel);
      }
    case Reaps(order) => ReaperExactly(w, s, order);
    case ProcessDies(_) =>
    case TimePasses(_) =>
  }

  lemma FetchKeepsInv(w: World, s: Settings, channel: string)
    requires Inv(w, s)
    ensures Inv(Fetched(w, channel), s)
  {
    if channel in w.buffers {
      ReplaceKeepsInv(w, s, channel, w.buffers[channel].(lastHeartbeat := w.clock));
    }
  }

  /** In every state of every run: viewers without duplicates, heartbeats for exactly the viewers, none newer than the
      buffer's, never more buffers than allowed, every running process tracked, so never two for one channel. */
  lemma {:induction false} LifecycleInvariant(clock: int, s: Settings, events: seq<Event>)
    requires Possible(World(map[], map[], clock), s, events)
    ensures var w := RunFrom(World(map[], map[], clock), s, events);
      && Inv(w, s)
      && forall p, q :: p in w.alive && q in w.alive && w.alive[p] == w.alive[q] ==> p == q
  {
    if events != [] {
      var n := |events| - 1;
      var w0 := World(map[], map[], clock);
      forall i | 0 <= i < n
        ensures Enabled(RunFrom(w0, s, events[..n][..i]), events[..n][i])
      {
        assert events[..n][..i] == events[..i] && Enabled(RunFrom(w0, s, events[..i]), events[i]);
      }
      LifecycleInvariant(clock, s, events[..n]);
      assert Enabled(RunFrom(w0, s, events[..n]), events[n]);
      StepKeepsInv(RunFrom(w0, s, events[..n]), s, events[n]);
    }
  }

  // ----- When a buffer is taken down -----

  /** A stop that names its viewer takes the buffer down exactly when no other registered viewer was heard from in time:
      viewers that crashed never keep it up. Otherwise only that viewer and the stale ones are gone. */
  lemma StopTearsDownExactly(w: World, s: Settings, channel: string, viewer: string)
    requires Inv(w, s) && channel in w.buffers && viewer != ""
    ensures var b, r := w.buffers[channel], StopBuffer(w, s, channel, Some(viewer));
      && (channel !in r.buffers <==>
            forall v <- b.viewers :: v != viewer ==> w.clock - b.viewerHeartbeats[v] > s.idleTimeout)
      && (channel !in r.buffers ==> r == World(w.buffers - {channel}, w.alive - {b.pid}, w.clock))
      && (channel in r.buffers ==>
            forall v :: v in r.buffers[channel].viewers <==>
              v in b.viewers && v != viewer && w.clock - b.viewerHeartbeats[v] <= s.idleTimeout)
  {
    var b := w.buffers[channel];
    DeregisterIs(b, viewer, w.clock);
    PruneIs(Deregister(b, viewer), s.idleTimeout, w.clock);
    var left := Prune(Deregister(b, viewer), s.idleTimeout, w.clock).viewers;
    if left != [] {
      assert left[0] in left;
    }
  }

  /** Nothing in this step is meant to end what the viewer watches, and if the step checks for stale viewers, this
      viewer was heard from in time. */
  ghost predicate LeavesAlone(w: World, s: Settings, e: Event, channel: string, viewer: string)
    requires channel in w.buffers && viewer in w.buffers[channel].viewerHeartbeats
  {
    var timely := w.clock - w.buffers[channel].viewerHeartbeats[viewer] <= s.idleTimeout;
    match e
    case Starts(c, _, _) => c == channel ==> w.buffers[channel].pid in w.alive
    case Stops(c, v) => c == channel ==> Given(v) && v != Some(viewer) && timely
    case AsksManifest(c, playlist, _) => c == channel ==> playlist || w.buffers[channel].pid in w.alive
    case Reaps(_) => timely
    case _ => true
  }

  ghost predicate Watched(w: World, channel: string, viewer: string) {
    channel in w.buffers && viewer in w.buffers[channel].viewers && viewer in w.buffers[channel].viewerHeartbeats
  }

  lemma StopByOtherLeaves(w: World, s: Settings, channel: string, other: string, viewer: string)
    requires Inv(w, s) && Watched(w, channel, viewer) && other != "" && other != viewer
    requires w.clock - w.buffers[channel].viewerHeartbeats[viewer] <= s.idleTimeout
    ensures Watched(StopBuffer(w, s, channel, Some(other)), channel, viewer)
  {
    StopKeepsInv(w, s, channel, Some(other));
    StopTearsDownExactly(w, s, channel, other);
    hide StopBuffer;
  }

  lemma ReaperLeaves(w: World, s: Settings, order: seq<string>, channel: string, viewer: string)
    requires Inv(w, s) && Watched(w, channel, viewer)
    requires w.clock - w.buffers[channel].viewerHeartbeats[viewer] <= s.idleTimeout
    ensures Watched(ReapSeq(w, s, order), channel, viewer)
  {
    hide ReapSeq, Prune;
    ReaperExactly(w, s, order);
    PruneIs(w.buffers[channel], s.idleTimeout, w.clock);
  }

  lemma StopElsewhereLeaves(w: World, s: Settings, other: string, v: Option<string>, channel: string)
    requires other != channel && channel in w.buffers
    ensures var r := StopBuffer(w, s, other, v); channel in r.buffers && r.buffers[channel] == w.buffers[channel]
  {
    hide Prune, Deregister;
  }

  lemma AttentiveViewerKeepsWatching(w: World, s: Settings, e: Event, channel: string, viewer: string)
    requires Inv(w, s) && Enabled(w, e) && Watched(w, channel, viewer) && LeavesAlone(w, s, e, channel, viewer)
    ensures Watched(Step(w, s, e), channel, viewer)
  {
    hide StopBuffer, ReapSeq, Inv, Enabled;
    match e
    case Stops(c, v) =>
      if c == channel {
        StopByOtherLeaves(w, s, c, v.value, viewer);
      } else {
        StopElsewhereLeaves(w, s, c, v, channel);
      }
    case Reaps(order) => ReaperLeaves(w, s, order, channel, viewer);
    case _ =>
  }

  ghost predicate AllLeaveAlone(w: World, s: Settings, events: seq<Event>, channel: string, viewer: string) {
    forall i :: 0 <= i < |events| ==>
      Watched(RunFrom(w, s, events[..i]), channel, viewer) ==>
        LeavesAlone(RunFrom(w, s, events[..i]), s, events[i], channel, viewer)
  }

  /** No run of other viewers' starts, stops, crashes and reaper passes takes a buffer from a viewer who keeps
      reporting in time and does not stop, as long as the encoder lives. */
  lemma {:induction false} OthersCannotStopIt(w: World, s: Settings, events: seq<Event>, channel: string,
                                              viewer: string)
    requires Inv(w, s) && Possible(w, s, events) && Watched(w, channel, viewer)
    requires AllLeaveAlone(w, s, events, channel, viewer)
    ensures Inv(RunFrom(w, s, events), s) && Watched(RunFrom(w, s, events), channel, viewer)
  {
    if events != [] {
      var n := |events| - 1;
      forall i | 0 <= i < n
        ensures events[..n][..i] == events[..i]
      {
      }
      OthersCannotStopIt(w, s, events[..n], channel, viewer);
      var before := RunFrom(w, s, events[..n]);
      assert Enabled(before, events[n]) && LeavesAlone(before, s, events[n], channel, viewer);
      StepKeepsInv(before, s, events[n]);
      AttentiveViewerKeepsWatching(before, s, events[n], channel, viewer);
    }
  }

  lemma RegisterAdds(b: Buffer, viewer: Option<string>, now: int)
    ensures var r := Register(b, viewer, now);
      && r.pid == b.pid && r.lastHeartbeat == now
      && (forall u :: u in r.viewers <==> u in b.viewers || (Given(viewer) && u == viewer.value))
      && r.viewerHeartbeats == if Given(viewer) then b.viewerHeartbeats[viewer.value := now] else b.viewerHeartbeats
  {
  }

  /** A process with the identifier the channel's buffer records is running. That is all the plugin asks. */
  predicate PidAlive(w: World, channel: string) {
    channel in w.buffers && w.buffers[channel].pid in w.alive
  }

  /** And it is the channel's own encoder. */
  predicate HasEncoder(w: World, channel: string) {
    PidAlive(w, channel) && w.alive[w.buffers[channel].pid] == channel
  }

  /** No other buffer records the same process. */
  ghost predicate SoleOwner(w: World, channel: string)
    requires channel in w.buffers
  {
    forall c <- w.buffers :: c != channel ==> w.buffers[c].pid != w.buffers[channel].pid
  }

  /** The two come apart exactly when the identifier has been given out again, to the encoder of another channel. */
  lemma TakenForAliveExactly(w: World, s: Settings, channel: string)
    requires Inv(w, s) && PidAlive(w, channel)
    ensures !HasEncoder(w, channel) <==>
      exists c <- w.buffers :: c != channel && HasEncoder(w, c) && w.buffers[c].pid == w.buffers[channel].pid
  {
    var c := w.alive[w.buffers[channel].pid];
    assert c in w.buffers && w.buffers[c].pid == w.buffers[channel].pid;
  }

  /** That does happen. After this run a start of the one channel is answered as if its encoder were running, while the
      process is the other's; and a stop of the first then ends the second's. */
  lemma ReusedPid(a: string, b: string, pid: int, s: Settings, clock: int)
    requires a != b && s.maxConcurrentBuffers >= 2
    ensures var w0 := World(map[], map[], clock);
      var events := [Starts(a, None, Some(pid)), ProcessDies(pid), Starts(b, None, Some(pid))];
      var w := RunFrom(w0, s, events);
      && Possible(w0, s, events)
      && StartBuffer(w, s, a, None, None).1 == Reattached && !HasEncoder(w, a)
      && HasEncoder(w, b) && !HasEncoder(StopBuffer(w, s, a, None), b)
  {
    var w0 := World(map[], map[], clock);
    var e1, e2, e3 := Starts(a, None, Some(pid)), ProcessDies(pid), Starts(b, None, Some(pid));
    var events := [e1, e2, e3];
    assert events[..3] == events && events[..3][..2] == events[..2] && events[..2][..1] == events[..1] == [e1];
    assert events[..1][..0] == [] == events[..0];
    var buffer := Buffer(pid, clock, [], map[]);
    FirstStart(w0, s, a, pid);
    var w1 := World(map[a := buffer], map[pid := a], clock);
    assert RunFrom(w0, s, events[..1]) == w1;
    var w2 := World(map[a := buffer], map[], clock);
    assert w1.alive - {pid} == map[];
    assert RunFrom(w0, s, events[..2]) == w2;
    SecondStart(w2, s, a, b, pid);
    assert RunFrom(w0, s, events) == Step(w2, s, e3);
  }

  lemma FirstStart(w: World, s: Settings, a: string, pid: int)
    requires w.buffers == map[] && w.alive == map[] && s.maxConcurrentBuffers >= 2
    ensures StartBuffer(w, s, a, None, Some(pid)).0
            == World(map[a := Buffer(pid, w.clock, [], map[])], map[pid := a], w.clock)
  {
  }

  lemma SecondStart(w: World, s: Settings, a: string, b: string, pid: int)
    requires a != b && s.maxConcurrentBuffers >= 2 && w.alive == map[]
    requires w.buffers == map[a := Buffer(pid, w.clock, [], map[])]
    ensures StartBuffer(w, s, b, None, Some(pid)).0
            == World(map[a := Buffer(pid, w.clock, [], map[]), b := Buffer(pid, w.clock, [], map[])], map[pid := b],
                     w.clock)
  {
  }

  lemma WithoutDeadIs(w: World, channel: string)
    ensures !PidAlive(w, channel) ==> WithoutDead(w, channel) == w.(buffers := w.buffers - {channel})
  {
    if channel !in w.buffers {
      assert w.buffers - {channel} == w.buffers;
    }
  }

  lemma Reattaches(w: World, s: Settings, channel: string, viewer: Option<string>, spawn: Option<int>)
    requires PidAlive(w, channel)
    ensures var (r, result) := StartBuffer(w, s, channel, viewer, spawn);
      && result == Reattached && r.alive == w.alive && r.buffers - {channel} == w.buffers - {channel}
      && channel in r.buffers && r.buffers[channel].pid == w.buffers[channel].pid
      && PidAlive(r, channel) && r.buffers[channel].lastHeartbeat == w.clock
      && (Given(viewer) ==>
            Watched(r, channel, viewer.value) && r.buffers[channel].viewerHeartbeats[viewer.value] == w.clock)
      && forall u :: Watched(w, channel, u) ==> Watched(r, channel, u)
  {
    hide Register;
    RegisterAdds(w.buffers[channel], viewer, w.clock);
    var b := Register(w.buffers[channel], viewer, w.clock);
    assert w.buffers[channel := b] - {channel} == w.buffers - {channel};
  }

  lemma NewBufferIs(pid: int, viewer: Option<string>, now: int)
    ensures var b := NewBuffer(pid, viewer, now);
      && b.pid == pid && b.lastHeartbeat == now
      && (Given(viewer) ==>
            viewer.value in b.viewers && viewer.value in b.viewerHeartbeats && b.viewerHeartbeats[viewer.value] == now)
  {
  }

  lemma StartsAnew(w: World, s: Settings, channel: string, viewer: Option<string>, spawn: Option<int>)
    requires !PidAlive(w, channel)
    ensures var (r, result) := StartBuffer(w, s, channel, viewer, spawn);
      && result == (if |w.buffers - {channel}| >= s.maxConcurrentBuffers then AtLimit
                    else if spawn.None? then SpawnFailed else Started)
      && if result.Started? then
           && r.buffers == (w.buffers - {channel})[channel := NewBuffer(spawn.value, viewer, w.clock)]
           && r.alive == w.alive[spawn.value := channel]
         else r == w.(buffers := w.buffers - {channel})
  {
    hide WithoutDead, NewBuffer, PidAlive;
    WithoutDeadIs(w, channel);
  }

  lemma RestStays(buffers: map<string, Buffer>, channel: string, b: Buffer)
    ensures (buffers - {channel})[channel := b] - {channel} == buffers - {channel}
    ensures buffers - {channel} - {channel} == buffers - {channel}
  {
  }

  /** A start reattaches exactly when the recorded process identifier is in use, and fails for want of room exactly when
      it is not and no other buffer may be added. Unless it fails the viewer is then registered, heard from now; the
      channel has its own encoder exactly if it was started now or had it before; no other channel, and no viewer
      already there, is affected. */
  lemma StartExactly(w: World, s: Settings, channel: string, viewer: Option<string>, spawn: Option<int>)
    ensures var (r, result) := StartBuffer(w, s, channel, viewer, spawn);
      && (result.Reattached? <==> PidAlive(w, channel))
      && (result.AtLimit? <==> !PidAlive(w, channel) && |w.buffers - {channel}| >= s.maxConcurrentBuffers)
      && (result.Started? ==> spawn.Some?)
      && r.alive == (if result.Started? then w.alive[spawn.value := channel] else w.alive)
      && (channel in r.buffers <==> result.Reattached? || result.Started?)
      && (channel in r.buffers ==>
            && PidAlive(r, channel) && r.buffers[channel].lastHeartbeat == w.clock
            && (Given(viewer) ==>
                  Watched(r, channel, viewer.value) && r.buffers[channel].viewerHeartbeats[viewer.value] == w.clock))
      && (PidAlive(w, channel) ==> forall u :: Watched(w, channel, u) ==> Watched(r, channel, u))
      && r.buffers - {channel} == w.buffers - {channel}
      && (HasEncoder(r, channel) <==> result.Started? || HasEncoder(w, channel))
  {
    hide StartBuffer;
    if PidAlive(w, channel) {
      Reattaches(w, s, channel, viewer, spawn);
    } else {
      hide NewBuffer;
      StartsAnew(w, s, channel, viewer, spawn);
      var b := NewBuffer(if spawn.Some? then spawn.value else 0, viewer, w.clock);
      NewBufferIs(b.pid, viewer, w.clock);
      RestStays(w.buffers, channel, b);
    }
  }

  /** A manifest request, in full: an encoder that is dead before there is a playlist is final and takes the buffer
      down; a manifest counts as heard from now; without one, and without a buffer, nothing changes. No other buffer
      changes, no process ends that runs, and no viewer comes or goes. */
  lemma ManifestExactly(w: World, channel: string, playlist: bool, built: bool)
    ensures var r := ManifestAsked(w, channel, playlist, built);
      && (ManifestFatal(w, channel, playlist) <==>
            channel in w.buffers && !playlist && w.buffers[channel].pid !in w.alive)
      && r.alive == w.alive && r.clock == w.clock
      && (forall c :: c != channel ==> (c in r.buffers <==> c in w.buffers))
      && (forall c <- r.buffers :: c != channel ==> r.buffers[c] == w.buffers[c])
      && (channel in r.buffers <==> channel in w.buffers && (playlist || w.buffers[channel].pid in w.alive))
      && (channel in r.buffers ==>
            r.buffers[channel] == if playlist && built then w.buffers[channel].(lastHeartbeat := w.clock)
                                  else w.buffers[channel])
  {
    if channel in w.buffers && w.buffers[channel].pid !in w.alive {
      assert w.alive - {w.buffers[channel].pid} == w.alive;
    }
  }

  /** A stop without a viewer takes the buffer down whoever watches it, and one for a channel without a buffer does
      nothing. Taking down ends the recorded process and forgets the buffer, and that is all. */
  lemma AnonymousStop(w: World, s: Settings, channel: string, viewer: Option<string>)
    requires viewer == None || viewer == Some("")
    ensures var r := StopBuffer(w, s, channel, viewer);
      if channel !in w.buffers then r == w
      else r == World(w.buffers - {channel}, w.alive - {w.buffers[channel].pid}, w.clock)
    ensures channel !in w.buffers ==> forall v :: StopBuffer(w, s, channel, v) == w
  {
    hide Prune, Deregister;
  }

  /** A new buffer has its first viewer, or none; and a viewer no time was recorded for, as earlier versions left them,
      counts as just heard from. */
  lemma FirstViewers(pid: int, viewer: Option<string>, now: int, v: string, idleTimeout: int)
    requires idleTimeout >= 0
    ensures NewBuffer(pid, viewer, now) ==
            if viewer.Some? && viewer.value != "" then Buffer(pid, now, [viewer.value], map[viewer.value := now])
            else Buffer(pid, now, [], map[])
    ensures Prune(Buffer(pid, now, [v], map[]), idleTimeout, now).viewers == [v]
  {
    assert [v][..0] == [];
    assert Fresh([], map[], idleTimeout, now) == [];
    assert Fresh([v], map[], idleTimeout, now) == [v];
  }

  /** This step is a sign that someone watches the channel. */
  predicate SignOfLife(e: Event, channel: string) {
    match e
    case Starts(c, _, _) => c == channel
    case Beats(c, _) => c == channel
    case Fetches(c) => c == channel
    case AsksManifest(c, playlist, built) => c == channel && playlist && built
    case _ => false
  }

  function Reporter(e: Event): Option<string> {
    match e
    case Starts(_, viewer, _) => viewer
    case Beats(_, viewer) => viewer
    case _ => None
  }

  lemma SignOfLifeCounts(w: World, s: Settings, e: Event, channel: string)
    requires Inv(w, s) && Enabled(w, e) && SignOfLife(e, channel) && channel in Step(w, s, e).buffers
    ensures var b := Step(w, s, e).buffers[channel];
      && b.lastHeartbeat == w.clock == Step(w, s, e).clock
      && forall v <- b.viewers :: Reporter(e) == Some(v) && v != "" ==>
           v in b.viewerHeartbeats && b.viewerHeartbeats[v] == w.clock
  {
    if e.Starts? {
      StartExactly(w, s, channel, e.viewer, e.spawn);
    }
  }

  /** This step neither ends the encoder with that process nor is a stop that could end its channel: with a viewer to
      protect those are the anonymous stops and the viewer's own, without one all stops. */
  predicate Spares(e: Event, channel: string, pid: int, viewer: Option<string>) {
    match e
    case Stops(c, v) => c == channel ==> viewer.Some? && Given(v) && v != viewer
    case ProcessDies(p) => p != pid
    case _ => true
  }

  /** The channel's encoder runs, under a process no other buffer records, and channel and viewer were heard from. */
  ghost predicate Protected(w: World, channel: string, pid: int, since: int, viewer: Option<string>) {
    && PidAlive(w, channel) && w.buffers[channel].pid == pid && w.buffers[channel].lastHeartbeat >= since
    && (forall c <- w.buffers :: c != channel ==> w.buffers[c].pid != pid)
    && (viewer.Some? ==>
          Watched(w, channel, viewer.value) && w.buffers[channel].viewerHeartbeats[viewer.value] >= since)
  }

  /** Another buffer, under another process, comes, goes or changes: that protects like before. */
  lemma OthersMayChange(w: World, r: World, c: string, channel: string, pid: int, since: int, viewer: Option<string>)
    requires Protected(w, channel, pid, since, viewer) && c != channel
    requires r.buffers - {c} == w.buffers - {c} && pid in r.alive
    requires c in r.buffers ==> r.buffers[c].pid != pid
    ensures Protected(r, channel, pid, since, viewer)
  {
    forall d <- r.buffers | d != c
      ensures d in w.buffers && r.buffers[d] == w.buffers[d]
    {
      assert d in r.buffers - {c};
    }
    assert channel in w.buffers - {c};
  }

  lemma ReattachProtects(w: World, s: Settings, c: string, v: Option<string>, spawn: Option<int>, channel: string,
                         pid: int, since: int, viewer: Option<string>)
    requires Protected(w, channel, pid, since, viewer) && since <= w.clock && PidAlive(w, c)
    ensures Protected(StartBuffer(w, s, c, v, spawn).0, channel, pid, since, viewer)
  {
    StartIsRegister(w, s, c, v, spawn);
    RegisterAdds(w.buffers[c], v, w.clock);
    hide StartBuffer, Register;
    var b := Register(w.buffers[c], v, w.clock);
    if c != channel {
      assert w.buffers[c := b] - {c} == w.buffers - {c};
      OthersMayChange(w, w.(buffers := w.buffers[c := b]), c, channel, pid, since, viewer);
    }
  }

  lemma FreshStartProtects(w: World, s: Settings, c: string, v: Option<string>, spawn: Option<int>, channel: string,
                           pid: int, since: int, viewer: Option<string>)
    requires Protected(w, channel, pid, since, viewer) && !PidAlive(w, c)
    requires spawn.Some? ==> spawn.value !in w.alive
    ensures Protected(StartBuffer(w, s, c, v, spawn).0, channel, pid, since, viewer)
  {
    hide StartBuffer, NewBuffer;
    var r, p := StartBuffer(w, s, c, v, spawn).0, if spawn.Some? then spawn.value else 0;
    StartsAnew(w, s, c, v, spawn);
    NewBufferIs(p, v, w.clock);
    RestStays(w.buffers, c, NewBuffer(p, v, w.clock));
    OthersMayChange(w, r, c, channel, pid, since, viewer);
  }

  lemma StartProtects(w: World, s: Settings, c: string, v: Option<string>, spawn: Option<int>, channel: string,
                      pid: int, since: int, viewer: Option<string>)
    requires Protected(w, channel, pid, since, viewer) && since <= w.clock && (spawn.Some? ==> spawn.value !in w.alive)
    ensures Protected(StartBuffer(w, s, c, v, spawn).0, channel, pid, since, viewer)
  {
    hide StartBuffer, Protected;
    if PidAlive(w, c) {
      ReattachProtects(w, s, c, v, spawn, channel, pid, since, viewer);
    } else {
      FreshStartProtects(w, s, c, v, spawn, channel, pid, since, viewer);
    }
  }

  lemma StartIsRegister(w: World, s: Settings, c: string, v: Option<string>, spawn: Option<int>)
    requires PidAlive(w, c)
    ensures StartBuffer(w, s, c, v, spawn).0 == w.(buffers := w.buffers[c := Register(w.buffers[c], v, w.clock)])
  {
    hide Register;
  }

  lemma StopProtects(w: World, s: Settings, c: string, v: Option<string>, channel: string, pid: int, since: int,
                     viewer: Option<string>)
    requires Inv(w, s) && Protected(w, channel, pid, since, viewer) && w.clock <= since + s.idleTimeout
    requires c == channel ==> viewer.Some? && Given(v) && v != viewer
    ensures Protected(StopBuffer(w, s, c, v), channel, pid, since, viewer)
  {
    hide Prune, Deregister, Inv, Protected;
    if c != channel {
      StopElsewhereProtects(w, s, c, v, channel, pid, since, viewer);
    } else {
      StopHereProtects(w, s, v.value, channel, pid, since, viewer.value);
    }
  }

  lemma StopElsewhereProtects(w: World, s: Settings, c: string, v: Option<string>, channel: string, pid: int,
                              since: int, viewer: Option<string>)
    requires Inv(w, s) && Protected(w, channel, pid, since, viewer) && c != channel
    ensures Protected(StopBuffer(w, s, c, v), channel, pid, since, viewer)
  {
    hide Prune, Deregister;
    if c in w.buffers {
      if Given(v) {
        DeregisterIs(w.buffers[c], v.value, w.clock);
        PruneIs(Deregister(w.buffers[c], v.value), s.idleTimeout, w.clock);
      }
      hide BufferOk, ProcessesTracked;
      OthersMayChange(w, StopBuffer(w, s, c, v), c, channel, pid, since, viewer);
    }
  }

  lemma StopHereProtects(w: World, s: Settings, v: string, channel: string, pid: int, since: int, viewer: string)
    requires Inv(w, s) && Protected(w, channel, pid, since, Some(viewer)) && w.clock <= since + s.idleTimeout
    requires v != "" && v != viewer
    ensures Protected(StopBuffer(w, s, channel, Some(v)), channel, pid, since, Some(viewer))
  {
    hide Prune, Deregister;
    var b := Deregister(w.buffers[channel], v);
    DeregisterIs(w.buffers[channel], v, w.clock);
    PruneIs(b, s.idleTimeout, w.clock);
    assert viewer in Prune(b, s.idleTimeout, w.clock).viewers;
  }

  lemma {:induction false} ReapProtects(w: World, s: Settings, order: seq<string>, channel: string, pid: int,
                                        since: int, viewer: Option<string>)
    requires Inv(w, s) && Protected(w, channel, pid, since, viewer) && w.clock <= since + s.idleTimeout
    ensures Inv(ReapSeq(w, s, order), s) && ReapSeq(w, s, order).clock == w.clock
    ensures Protected(ReapSeq(w, s, order), channel, pid, since, viewer)
  {
    hide Inv, Prune;
    if order != [] {
      var before, c := ReapSeq(w, s, order[..|order| - 1]), order[|order| - 1];
      ReapProtects(w, s, order[..|order| - 1], channel, pid, since, viewer);
      if c in before.buffers {
        ReapOneKeepsInv(before, s, c);
        ReapOneProtects(before, s, c, channel, pid, since, viewer);
      }
    }
  }

  lemma ReapOneProtects(w: World, s: Settings, c: string, channel: string, pid: int, since: int, viewer: Option<string>)
    requires Inv(w, s) && c in w.buffers
    requires Protected(w, channel, pid, since, viewer) && w.clock <= since + s.idleTimeout
    ensures ReapOne(w, s, c).clock == w.clock && Protected(ReapOne(w, s, c), channel, pid, since, viewer)
  {
    hide Prune;
    PruneIs(w.buffers[c], s.idleTimeout, w.clock);
  }

  lemma StepProtects(w: World, s: Settings, e: Event, channel: string, pid: int, since: int, viewer: Option<string>)
    requires Inv(w, s) && Enabled(w, e) && Spares(e, channel, pid, viewer)
    requires Protected(w, channel, pid, since, viewer) && since <= w.clock <= since + s.idleTimeout
    ensures Protected(Step(w, s, e), channel, pid, since, viewer)
  {
    hide Inv, StartBuffer, StopBuffer, ReapSeq;
    match e
    case Starts(c, v, spawn) => StartProtects(w, s, c, v, spawn, channel, pid, since, viewer);
    case Stops(c, v) => StopProtects(w, s, c, v, channel, pid, since, viewer);
    case Reaps(order) => ReapProtects(w, s, order, channel, pid, since, viewer);
    case _ =>
  }

  lemma ClockGoesOn(w: World, s: Settings, e: Event)
    requires Inv(w, s)
    ensures w.clock <= Step(w, s, e).clock
  {
    hide Prune;
    if e.Reaps? {
      ReaperExactly(w, s, e.order);
    }
  }

  lemma {:induction false} RunProtects(w: World, s: Settings, events: seq<Event>, channel: string, pid: int, since: int,
                                       viewer: Option<string>)
    requires Inv(w, s) && Possible(w, s, events) && forall e <- events :: Spares(e, channel, pid, viewer)
    requires Protected(w, channel, pid, since, viewer)
    requires since <= w.clock && RunFrom(w, s, events).clock <= since + s.idleTimeout
    ensures Inv(RunFrom(w, s, events), s) && Protected(RunFrom(w, s, events), channel, pid, since, viewer)
    ensures since <= RunFrom(w, s, events).clock
  {
    hide Inv, Protected, Spares, Step, Enabled;
    if events != [] {
      var n := |events| - 1;
      var before := RunFrom(w, s, events[..n]);
      PossiblePrefix(w, s, events);
      RunKeepsInv(w, s, events[..n]);
      ClockGoesOn(before, s, events[n]);
      RunProtects(w, s, events[..n], channel, pid, since, viewer);
      assert Spares(events[n], channel, pid, viewer);
      StepProtects(before, s, events[n], channel, pid, since, viewer);
      StepKeepsInv(before, s, events[n]);
    }
  }

  lemma PossiblePrefix(w: World, s: Settings, events: seq<Event>)
    requires events != [] && Possible(w, s, events)
    ensures Possible(w, s, events[..|events| - 1])
    ensures Enabled(RunFrom(w, s, events[..|events| - 1]), events[|events| - 1])
  {
    hide Enabled, RunFrom;
    var n := |events| - 1;
    forall i | 0 <= i < n
      ensures Enabled(RunFrom(w, s, events[..n][..i]), events[..n][i])
    {
      assert events[..n][..i] == events[..i];
    }
  }

  lemma {:induction false} RunKeepsInv(w: World, s: Settings, events: seq<Event>)
    requires Inv(w, s) && Possible(w, s, events)
    ensures Inv(RunFrom(w, s, events), s)
  {
    hide Inv, Step, Enabled;
    if events != [] {
      PossiblePrefix(w, s, events);
      RunKeepsInv(w, s, events[..|events| - 1]);
      StepKeepsInv(RunFrom(w, s, events[..|events| - 1]), s, events[|events| - 1]);
    }
  }

  /** What follows a sign of life within the timeout, with no stop that means the channel and no death of its
      process. */
  ghost predicate Follows(now: World, s: Settings, channel: string, viewer: Option<string>, until: int,
                          events: seq<Event>)
    requires channel in now.buffers
  {
    && Possible(now, s, events) && (forall x <- events :: Spares(x, channel, now.buffers[channel].pid, viewer))
    && RunFrom(now, s, events).clock <= until
  }

  ghost predicate StillThere(w: World, channel: string, viewer: Option<string>) {
    HasEncoder(w, channel) && (viewer.Some? ==> Watched(w, channel, viewer.value))
  }

  lemma SoleOwnerIsProtected(w: World, s: Settings, e: Event, channel: string, viewer: Option<string>,
                             events: seq<Event>)
    requires Inv(w, s) && Enabled(w, e) && SignOfLife(e, channel)
    requires var now := Step(w, s, e);
      && PidAlive(now, channel) && SoleOwner(now, channel)
      && (viewer.Some? ==> Reporter(e) == viewer && viewer.value != "" && viewer.value in now.buffers[channel].viewers)
      && Follows(now, s, channel, viewer, w.clock + s.idleTimeout, events)
    ensures StillThere(RunFrom(Step(w, s, e), s, events), channel, viewer)
  {
    hide Inv, RunFrom;
    var now := Step(w, s, e);
    StepKeepsInv(w, s, e);
    SignOfLifeCounts(w, s, e, channel);
    hide Step, SignOfLife, Enabled, Spares;
    RunProtects(now, s, events, channel, now.buffers[channel].pid, w.clock, viewer);
    ProtectedHasEncoder(RunFrom(now, s, events), s, channel, now.buffers[channel].pid, w.clock, viewer);
  }

  lemma ProtectedHasEncoder(w: World, s: Settings, channel: string, pid: int, since: int, viewer: Option<string>)
    requires Inv(w, s) && Protected(w, channel, pid, since, viewer)
    ensures HasEncoder(w, channel)
  {
  }

  /** A process recorded twice is ended by a stop of the other channel. */
  lemma SharedPidIsEnded(now: World, s: Settings, channel: string, c: string, viewer: Option<string>, until: int)
    requires channel in now.buffers && c in now.buffers && c != channel && now.clock <= until
    requires now.buffers[c].pid == now.buffers[channel].pid
    ensures Follows(now, s, channel, viewer, until, [Stops(c, None)])
    ensures !StillThere(RunFrom(now, s, [Stops(c, None)]), channel, viewer)
  {
    var events := [Stops(c, None)];
    assert events[..0] == [];
    assert RunFrom(now, s, events) == Step(now, s, events[0]);
  }

  /** Whatever follows within the time, channel, encoder and viewer are still there. */
  ghost predicate Safe(now: World, s: Settings, channel: string, viewer: Option<string>, until: int)
    requires channel in now.buffers
  {
    forall events :: Follows(now, s, channel, viewer, until, events) ==>
      StillThere(RunFrom(now, s, events), channel, viewer)
  }

  lemma SoleOwnerIsSafe(w: World, s: Settings, e: Event, channel: string, viewer: Option<string>)
    requires Inv(w, s) && Enabled(w, e) && SignOfLife(e, channel)
    requires var now := Step(w, s, e);
      && PidAlive(now, channel) && SoleOwner(now, channel)
      && (viewer.Some? ==> Reporter(e) == viewer && viewer.value != "" && viewer.value in now.buffers[channel].viewers)
    ensures Safe(Step(w, s, e), s, channel, viewer, w.clock + s.idleTimeout)
  {
    hide Inv, Enabled, SignOfLife, Step, RunFrom, SoleOwner, Follows, StillThere;
    var now, until := Step(w, s, e), w.clock + s.idleTimeout;
    forall events | Follows(now, s, channel, viewer, until, events)
      ensures StillThere(RunFrom(now, s, events), channel, viewer)
    {
      SoleOwnerIsProtected(w, s, e, channel, viewer, events);
    }
  }

  lemma NoTimeIsSafe(now: World, s: Settings, channel: string, viewer: Option<string>, until: int)
    requires Inv(now, s) && channel in now.buffers && until < now.clock
    ensures Safe(now, s, channel, viewer, until)
  {
    hide Inv, RunFrom, Follows, StillThere;
    forall events
      ensures !Follows(now, s, channel, viewer, until, events)
    {
      NoTimeLeft(now, s, channel, viewer, until, events);
    }
  }

  lemma SharedPidIsUnsafe(now: World, s: Settings, channel: string, viewer: Option<string>, until: int)
    requires channel in now.buffers && !SoleOwner(now, channel) && now.clock <= until
    ensures !Safe(now, s, channel, viewer, until)
  {
    hide RunFrom, Follows, StillThere;
    var c: string :| c in now.buffers && c != channel && now.buffers[c].pid == now.buffers[channel].pid;
    SharedPidIsEnded(now, s, channel, c, viewer, until);
  }

  /** A sign of life protects. However starts, heartbeats, fetches, manifests, reaper passes and the stops of others
      follow on any channels, until the timeout has passed the buffer stays with its encoder, and so does the viewer who
      gave the sign, exactly when no other buffer records the same process identifier. */
  lemma SignOfLifeProtects(w: World, s: Settings, e: Event, channel: string, viewer: Option<string>)
    requires Inv(w, s) && Enabled(w, e) && SignOfLife(e, channel) && PidAlive(Step(w, s, e), channel)
    requires viewer.Some? ==>
      Reporter(e) == viewer && viewer.value != "" && viewer.value in Step(w, s, e).buffers[channel].viewers
    ensures Safe(Step(w, s, e), s, channel, viewer, w.clock + s.idleTimeout)
            <==> s.idleTimeout < 0 || SoleOwner(Step(w, s, e), channel)
  {
    hide Inv, Safe, SoleOwner;
    var now := Step(w, s, e);
    SignOfLifeCounts(w, s, e, channel);
    StepKeepsInv(w, s, e);
    hide Step, SignOfLife, Enabled;
    if SoleOwner(now, channel) {
      SoleOwnerIsSafe(w, s, e, channel, viewer);
    } else if s.idleTimeout >= 0 {
      SharedPidIsUnsafe(now, s, channel, viewer, w.clock + s.idleTimeout);
    } else {
      NoTimeIsSafe(now, s, channel, viewer, w.clock + s.idleTimeout);
    }
  }

  lemma NoTimeLeft(now: World, s: Settings, channel: string, viewer: Option<string>, until: int, events: seq<Event>)
    requires Inv(now, s) && channel in now.buffers && until < now.clock
    ensures !Follows(now, s, channel, viewer, until, events)
  {
    hide Inv, Spares, Enabled;
    if Possible(now, s, events) {
      ClockOnlyGrows(now, s, events);
    }
  }

  lemma {:induction false} ClockOnlyGrows(w: World, s: Settings, events: seq<Event>)
    requires Inv(w, s) && Possible(w, s, events)
    ensures w.clock <= RunFrom(w, s, events).clock
  {
    hide Inv, Step, Enabled;
    if events != [] {
      PossiblePrefix(w, s, events);
      ClockOnlyGrows(w, s, events[..|events| - 1]);
      RunKeepsInv(w, s, events[..|events| - 1]);
      ClockGoesOn(RunFrom(w, s, events[..|events| - 1]), s, events[|events| - 1]);
    }
  }

  /** This step is not a sign that someone watches the channel. */
  predicate Silent(e: Event, channel: string) {
    match e
    case Starts(c, _, _) => c != channel
    case Beats(c, _) => c != channel
    case Fetches(c) => c != channel
    case AsksManifest(c, _, _) => c != channel
    case _ => true
  }

  lemma SilenceKeepsAge(w: World, s: Settings, e: Event, channel: string)
    requires Inv(w, s) && Enabled(w, e) && Silent(e, channel)
    ensures var r := Step(w, s, e);
      channel in r.buffers ==>
        channel in w.buffers && r.buffers[channel].lastHeartbeat == w.buffers[channel].lastHeartbeat
  {
    hide ReapSeq, Prune, Deregister, BufferOk, ProcessesTracked;
    match e
    case Stops(c, v) =>
      if c == channel && c in w.buffers && Given(v) {
        DeregisterIs(w.buffers[c], v.value, w.clock);
        PruneIs(Deregister(w.buffers[c], v.value), s.idleTimeout, w.clock);
      }
    case Reaps(order) =>
      ReaperExactly(w, s, order);
      if channel in w.buffers {
        PruneIs(w.buffers[channel], s.idleTimeout, w.clock);
      }
    case _ =>
  }

  lemma {:induction false} SilentRunKeepsAge(w: World, s: Settings, events: seq<Event>, channel: string)
    requires Inv(w, s) && Possible(w, s, events) && forall e <- events :: Silent(e, channel)
    ensures var r := RunFrom(w, s, events);
      && Inv(r, s)
      && (channel in r.buffers ==>
            channel in w.buffers && r.buffers[channel].lastHeartbeat == w.buffers[channel].lastHeartbeat)
  {
    if events != [] {
      var n := |events| - 1;
      forall i | 0 <= i < n
        ensures events[..n][..i] == events[..i]
      {
      }
      assert events[n] in events && forall e <- events[..n] :: e in events;
      SilentRunKeepsAge(w, s, events[..n], channel);
      var before := RunFrom(w, s, events[..n]);
      assert Enabled(before, events[n]);
      StepKeepsInv(before, s, events[n]);
      SilenceKeepsAge(before, s, events[n], channel);
    }
  }

  /** An abandoned buffer does not outlive the first reaper pass after the timeout, whatever happens on other
      channels. */
  lemma AbandonedIsReaped(w: World, s: Settings, events: seq<Event>, channel: string, order: seq<string>)
    requires Inv(w, s) && channel in w.buffers && Possible(w, s, events) && forall e <- events :: Silent(e, channel)
    requires Enabled(RunFrom(w, s, events), Reaps(order))
    requires RunFrom(w, s, events).clock - w.buffers[channel].lastHeartbeat > s.idleTimeout
    ensures channel !in Step(RunFrom(w, s, events), s, Reaps(order)).buffers
  {
    SilentRunKeepsAge(w, s, events, channel);
    ReaperExactly(RunFrom(w, s, events), s, order);
  }

  // ----- The imperative code -----

  class TimeshiftPlugin {
    var buffers: map<string, Buffer>
    var alive: map<int, string>
    var clock: int

    function State(): World
      reads this
    {
      World(buffers, alive, clock)
    }

    constructor (now: int)
      ensures State() == World(map[], map[], now)
    {
      buffers, alive, clock := map[], map[], now;
    }

    method TeardownBuffer(channel: string)
      requires channel in buffers
      modifies this
      ensures State() == Teardown(old(State()), channel)
    {
      alive := alive - {buffers[channel].pid};
      buffers := buffers - {channel};
    }

    method PruneStaleViewers(b: Buffer, idleTimeout: int) returns (r: Buffer, pruned: bool)
      ensures r == Prune(b, idleTimeout, clock) && pruned == (r.viewers != b.viewers)
    {
      var kept := [];
      for i := 0 to |b.viewers|
        invariant kept == Fresh(b.viewers[..i], b.viewerHeartbeats, idleTimeout, clock)
        invariant |kept| <= i && (|kept| == i ==> kept == b.viewers[..i])
      {
        var v := b.viewers[i];
        assert b.viewers[..i + 1][..i] == b.viewers[..i];
        if clock - (if v in b.viewerHeartbeats then b.viewerHeartbeats[v] else clock) <= idleTimeout {
          kept := kept + [v];
        }
      }
      assert b.viewers[..|b.viewers|] == b.viewers;
      if |kept| == |b.viewers| {
        return b, false;
      }
      r := b.(viewers := kept,
              viewerHeartbeats := map v | v in b.viewerHeartbeats && v in kept :: b.viewerHeartbeats[v]);
      return r, true;
    }

    method Start(s: Settings, channel: string, viewer: Option<string>, spawn: Option<int>) returns (r: StartResult)
      modifies this
      ensures (State(), r) == StartBuffer(old(State()), s, channel, viewer, spawn)
    {
      if channel in buffers && buffers[channel].pid !in alive {
        buffers := buffers - {channel};
      }
      if channel in buffers {
        var existing := buffers[channel].(lastHeartbeat := clock);
        if Given(viewer) {
          if viewer.value !in existing.viewers {
            existing := existing.(viewers := existing.viewers + [viewer.value]);
          }
          existing := existing.(viewerHeartbeats := existing.viewerHeartbeats[viewer.value := clock]);
        }
        buffers := buffers[channel := existing];
        return Reattached;
      }
      if |buffers| >= s.maxConcurrentBuffers {
        return AtLimit;
      }
      if spawn.None? {
        return SpawnFailed;
      }
      alive := alive[spawn.value := channel];
      buffers := buffers[channel := Buffer(spawn.value, clock, if Given(viewer) then [viewer.value] else [],
                                           if Given(viewer) then map[viewer.value := clock] else map[])];
      return Started;
    }

    method Stop(s: Settings, channel: string, viewer: Option<string>)
      modifies this
      ensures State() == StopBuffer(old(State()), s, channel, viewer)
    {
      if channel !in buffers {
        return;
      }
      if Given(viewer) {
        var state, _ := PruneStaleViewers(Deregister(buffers[channel], viewer.value), s.idleTimeout);
        if state.viewers != [] {
          buffers := buffers[channel := state];
          return;
        }
      }
      TeardownBuffer(channel);
    }

    method TouchHeartbeat(channel: string)
      modifies this
      ensures State() == Fetched(old(State()), channel)
    {
      if channel in buffers {
        buffers := buffers[channel := buffers[channel].(lastHeartbeat := clock)];
      }
    }

    method Beat(channel: string, viewer: Option<string>)
      modifies this
      ensures State() == Heartbeat(old(State()), channel, viewer)
      ensures buffers.Keys == old(buffers.Keys) && alive == old(alive)
      ensures forall c <- buffers ::
                var b, before := buffers[c], old(buffers)[c];
                if c != channel then b == before
                else
                  && b.viewers == before.viewers && b.pid == before.pid && b.lastHeartbeat == clock
                  && (forall v <- before.viewerHeartbeats ::
                        v in b.viewerHeartbeats &&
                        b.viewerHeartbeats[v] == if v in b.viewers && viewer == Some(v) != Some("") then clock
                                                 else before.viewerHeartbeats[v])
                  && (forall v <- b.viewerHeartbeats :: v in before.viewerHeartbeats || v in b.viewers)
    {
      if channel in buffers {
        var state := buffers[channel].(lastHeartbeat := clock);
        if Given(viewer) && viewer.value in state.viewers {
          state := state.(viewerHeartbeats := state.viewerHeartbeats[viewer.value := clock]);
        }
        buffers := buffers[channel := state];
      }
    }

    method GetManifest(channel: string, playlist: bool, built: bool) returns (fatal: bool)
      modifies this
      ensures State() == ManifestAsked(old(State()), channel, playlist, built)
      ensures fatal == ManifestFatal(old(State()), channel, playlist)
    {
      if channel !in buffers {
        return false;
      }
      if !playlist {
        if buffers[channel].pid in alive {
          return false;
        }
        TeardownBuffer(channel);
        return true;
      }
      if built {
        TouchHeartbeat(channel);
      }
      return false;
    }

    /** One pass over the buffers tracked when it starts, in the order they come. */
    method ReaperTick(s: Settings, order: seq<string>)
      modifies this
      ensures State() == ReapSeq(old(State()), s, order)
    {
      for i := 0 to |order|
        invariant State() == ReapSeq(old(State()), s, order[..i])
      {
        assert order[..i + 1][..i] == order[..i];
        var channel := order[i];
        if channel in buffers {
          var state, _ := PruneStaleViewers(buffers[channel], s.idleTimeout);
          buffers := buffers[channel := state];
          if clock - state.lastHeartbeat > s.idleTimeout {
            TeardownBuffer(channel);
          }
        }
      }
      assert order[..|order|] == order;
    }
  }
}
