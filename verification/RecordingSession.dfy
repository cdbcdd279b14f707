/** Whole sessions of playing a recording that is still being written: every byte of every read is the right one. */
module RecordingSession {
  import opened Basics
  import opened AddressSpace
  import opened InProgressRecording
  import opened RecordingStream

  /** What a player does with an open stream. Asking for its length or duration refreshes it. */
  datatype Use =
    | Reads(size: nat, now: int, replies: nat -> Reply, bodies: string -> BodyReply)
    | Seeks(offset: int, whence: Whence, now: int, reply: Reply)
    | AsksLength(reply: Reply)

  /** The stream, and what its reads have returned, and where. */
  datatype Session = Session(stream: RecState, log: seq<Delivery>)

  function Step(baseDir: string, x: Session, u: Use): Session {
    match u
    case Reads(size, now, replies, bodies) =>
      var (after, n, bytes) := Read(baseDir, x.stream, size, now, replies, bodies);
      Session(after, if n > 0 then x.log + [Delivery(x.stream.position, bytes)] else x.log)
    case Seeks(offset, whence, now, reply) => x.(stream := Seek(baseDir, x.stream, offset, whence, now, reply).0)
    case AsksLength(reply) => x.(stream := x.stream.(known := Refresh(baseDir, x.stream.known, reply)))
  }

  function Play(baseDir: string, x: Session, uses: seq<Use>): Session {
    if uses == [] then x else Step(baseDir, Play(baseDir, x, uses[..|uses| - 1]), uses[|uses| - 1])
  }

  /** Requests may fail at will, but a probe that succeeds tells the body's size, and a body that comes is the body. */
  ghost predicate Truthful(u: Use, body: string -> Bytes) {
    match u
    case Reads(_, _, replies, bodies) => TrueBodies(bodies, body) && forall j: nat :: TrueProbes(replies(j), body)
    case Seeks(_, _, _, reply) => TrueProbes(reply, body)
    case AsksLength(reply) => TrueProbes(reply, body)
  }

  ghost predicate SessionOk(x: Session, body: string -> Bytes) {
    && x.stream.open && Sound(x.stream, body)
    && forall d <- x.log :: IsSliceAt(Joined(x.stream.known.space.segments, body), d)
  }

  // ----- Every use keeps a session right -----

  lemma LogSurvives(log: seq<Delivery>, segments: seq<Segment<string>>, longer: seq<Segment<string>>,
                    body: string -> Bytes)
    requires segments <= longer && forall d <- log :: IsSliceAt(Joined(segments, body), d)
    ensures forall d <- log :: IsSliceAt(Joined(longer, body), d)
  {
    hide Joined, IsSliceAt;
    JoinedIsPrefix(longer, |segments|, body);
    assert longer[..|segments|] == segments;
    SlicesSurvive(log, Joined(segments, body), Joined(longer, body));
  }

  /** A held body stays true wherever the stream is moved to. */
  lemma MoveKeepsSound(st: RecState, position: int, lastSeek: Option<int>, body: string -> Bytes)
    requires Sound(st, body) && position >= 0
    ensures Sound(st.(position := position, lastSeek := lastSeek), body)
  {
    hide Joined, Chained;
    if st.cachedOffset != -1 {
      var i :| HeldFor(st, i, body);
      assert HeldFor(st.(position := position, lastSeek := lastSeek), i, body);
    }
  }

  lemma SeekMoves(baseDir: string, st: RecState, offset: int, whence: Whence, now: int, reply: Reply)
    requires 0 <= st.position
    ensures var after := Seek(baseDir, st, offset, whence, now, reply).0;
      var known := if st.open && whence.SeekEnd? then Refresh(baseDir, st.known, reply) else st.known;
      && after.position >= 0
      && after == st.(known := known, position := after.position, lastSeek := after.lastSeek)
  {
    hide Refresh, TailTarget;
    SeekTargetIsInside(st.known.space);
    SeekTargetIsInside(Refresh(baseDir, st.known, reply).space);
  }

  lemma SeekTargetIsInside(sp: RecSpace)
    ensures TailTarget(sp, 1) >= 0
  {
  }

  /** A seek keeps a stream sound, and its list only grows. */
  lemma SeekKeepsSound(baseDir: string, st: RecState, offset: int, whence: Whence, now: int, reply: Reply,
                       body: string -> Bytes)
    requires Sound(st, body) && TrueProbes(reply, body)
    ensures var after := Seek(baseDir, st, offset, whence, now, reply).0;
      && Sound(after, body) && after.open == st.open
      && st.known.space.segments <= after.known.space.segments
  {
    SeekMoves(baseDir, st, offset, whence, now, reply);
    RefreshKeepsSound(baseDir, st, reply, body);
    hide Seek, Refresh;
    var after := Seek(baseDir, st, offset, whence, now, reply).0;
    var known := if st.open && whence.SeekEnd? then Refresh(baseDir, st.known, reply) else st.known;
    assert Sound(st.(known := known), body) by {
      assert st.(known := st.known) == st;
    }
    MoveKeepsSound(st.(known := known), after.position, after.lastSeek, body);
  }

  lemma ReadKeepsOpen(baseDir: string, st: RecState, size: nat, now: int, replies: nat -> Reply,
                      bodies: string -> BodyReply)
    ensures Read(baseDir, st, size, now, replies, bodies).0.open == st.open
    ensures size == 0 ==> Read(baseDir, st, size, now, replies, bodies) == (st, 0, [])
    ensures |Read(baseDir, st, size, now, replies, bodies).2| == Max(0, Read(baseDir, st, size, now, replies, bodies).1)
  {
    hide CatchUp, Locate;
    ServeAccounts(st, size, bodies);
    ServeAccounts(AfterCatchUp(baseDir, st, now, replies), size, bodies);
    hide Serve;
  }

  lemma ServeAccounts(st: RecState, size: nat, bodies: string -> BodyReply)
    ensures var (after, n, bytes) := Serve(st, size, bodies);
      after.open == st.open && |bytes| == Max(0, n)
  {
    hide Locate;
    var r := Locate(st.known.space.segments, st.position, 0);
    if r.Some? {
      LocatedContains(st.known.space, st.position);
    }
  }

  lemma ReadKeepsSession(baseDir: string, x: Session, size: nat, now: int, replies: nat -> Reply,
                         bodies: string -> BodyReply, body: string -> Bytes)
    requires SessionOk(x, body) && Truthful(Reads(size, now, replies, bodies), body)
    ensures var after := Step(baseDir, x, Reads(size, now, replies, bodies));
      SessionOk(after, body) && x.stream.known.space.segments <= after.stream.known.space.segments
  {
    hide Read, Sound, Joined, TrueBodies, TrueProbes;
    var (after, n, bytes) := Read(baseDir, x.stream, size, now, replies, bodies);
    ReadKeepsOpen(baseDir, x.stream, size, now, replies, bodies);
    SoundPosition(x.stream, body);
    if size > 0 {
      ReadReturnsSlice(baseDir, x.stream, size, now, replies, bodies, body);
      LogSurvives(x.log, x.stream.known.space.segments, after.known.space.segments, body);
    }
  }

  lemma SoundPosition(st: RecState, body: string -> Bytes)
    requires Sound(st, body)
    ensures st.position >= 0
  {
  }

  lemma StepKeepsSession(baseDir: string, x: Session, u: Use, body: string -> Bytes)
    requires SessionOk(x, body) && Truthful(u, body)
    ensures var after := Step(baseDir, x, u);
      SessionOk(after, body) && x.stream.known.space.segments <= after.stream.known.space.segments
  {
    hide Sound, Joined, Read, Seek, Refresh, IsSliceAt, TrueProbes, TrueBodies;
    match u
    case Reads(size, now, replies, bodies) => ReadKeepsSession(baseDir, x, size, now, replies, bodies, body);
    case Seeks(offset, whence, now, reply) =>
      SeekKeepsSound(baseDir, x.stream, offset, whence, now, reply, body);
      LogSurvives(x.log, x.stream.known.space.segments, Step(baseDir, x, u).stream.known.space.segments, body);
    case AsksLength(reply) =>
      RefreshKeepsSound(baseDir, x.stream, reply, body);
      LogSurvives(x.log, x.stream.known.space.segments, Step(baseDir, x, u).stream.known.space.segments, body);
  }

  lemma {:induction false} PlayKeepsSession(baseDir: string, x: Session, uses: seq<Use>, body: string -> Bytes)
    requires SessionOk(x, body) && forall u <- uses :: Truthful(u, body)
    ensures var after := Play(baseDir, x, uses);
      SessionOk(after, body) && x.stream.known.space.segments <= after.stream.known.space.segments
  {
    hide SessionOk, Truthful, Step;
    if uses != [] {
      var init, u := uses[..|uses| - 1], uses[|uses| - 1];
      assert u in uses && forall v <- init :: v in uses;
      PlayKeepsSession(baseDir, x, init, body);
      StepKeepsSession(baseDir, Play(baseDir, x, init), u, body);
    }
  }

  // ----- From the opening on -----

  lemma SeededIsSound(entry: Option<RecSpace>, body: string -> Bytes)
    requires Chained(Seed(entry)) && Sized(Seed(entry).segments, body)
    ensures Sound(RecState(true, Known(Seed(entry), false, entry), 0, -1, [], -1, None), body)
  {
  }

  lemma {:induction false} OpenedIsSound(baseDir: string, entry: Option<RecSpace>, replies: nat -> Reply, k: nat,
                                         body: string -> Bytes)
    requires Chained(Seed(entry)) && Sized(Seed(entry).segments, body)
    requires forall j: nat :: j < k ==> TrueProbes(replies(j), body)
    ensures Sound(OpenedAfter(baseDir, entry, replies, k), body)
  {
    hide Sound, Refresh, RefreshAll, FirstReplies, TrueProbes, Seed;
    if k == 0 {
      SeededIsSound(entry, body);
      EmptyRun(baseDir, Known(Seed(entry), false, entry), replies);
    } else {
      OpenedIsSound(baseDir, entry, replies, k - 1, body);
      OneMoreToOpen(baseDir, entry, replies, k - 1);
      RefreshKeepsSound(baseDir, OpenedAfter(baseDir, entry, replies, k - 1), replies(k - 1), body);
    }
  }

  /** Fidelity of a whole session. Opened from nothing, or from an entry that lists segments end to end at their true
      sizes, and then played in any way, through failures of every kind, refreshes, waits and seeks: everything any read
      returned is the slice, at the position it was read from, of the joined true bodies of the listed segments. */
  lemma EveryByteIsRight(baseDir: string, entry: Option<RecSpace>, replies: nat -> Reply, k: nat, uses: seq<Use>,
                         body: string -> Bytes)
    requires Chained(Seed(entry)) && Sized(Seed(entry).segments, body)
    requires (forall j: nat :: j < k ==> TrueProbes(replies(j), body)) && forall u <- uses :: Truthful(u, body)
    ensures var st := OpenedAfter(baseDir, entry, replies, k);
      var x := Play(baseDir, Session(st, []), uses);
      && Chained(x.stream.known.space) && Sized(x.stream.known.space.segments, body)
      && st.known.space.segments <= x.stream.known.space.segments
      && forall d <- x.log :: IsSliceAt(Joined(x.stream.known.space.segments, body), d)
  {
    hide Play, Truthful, TrueProbes, IsSliceAt, Joined, Seed;
    OpenedIsSound(baseDir, entry, replies, k, body);
    var st := OpenedAfter(baseDir, entry, replies, k);
    assert st.open;
    hide OpenedAfter;
    PlayKeepsSession(baseDir, Session(st, []), uses, body);
  }
}
