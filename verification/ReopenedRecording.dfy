/** Closing a recording that is still being written and opening it again: when that equals never having closed it, and
    what is left of it when it does not. */
module ReopenedRecording {
  import opened Basics
  import opened AddressSpace
  import opened InProgressRecording
  import opened RecordingStream

  // ----- Sessions in which every probe succeeds -----

  ghost predicate AllSized(items: seq<Item>, size: string -> int) {
    forall item <- items :: size(item.url) > 0
  }

  /** A playlist's segments laid end to end. */
  function Laid(items: seq<Item>, size: string -> int): RecSpace {
    AppendProbed(Empty(), items, |items|, size)
  }

  /** Every request that was answered found a playlist that continues the ones before, and every probe told the size. */
  ghost predicate SmoothSession(baseDir: string, size: string -> int, known: seq<Item>, rs: seq<Reply>) {
    && AllSized(known, size)
    && (forall i :: 0 <= i < |rs| && rs[i].Fetched? ==> SmoothReply(baseDir, size, known, rs[i]))
    && forall i, j :: 0 <= i < j < |rs| && rs[i].Fetched? && rs[j].Fetched? ==>
         Items(baseDir, rs[i].lines) <= Items(baseDir, rs[j].lines)
  }

  ghost predicate SmoothReply(baseDir: string, size: string -> int, known: seq<Item>, r: Reply)
    requires r.Fetched?
  {
    && known <= Items(baseDir, r.lines) && AllSized(Items(baseDir, r.lines), size)
    && forall item <- Items(baseDir, r.lines) :: r.probe(item.url) == size(item.url)
  }

  /** What is listed after a smooth session: the last playlist that came, or what was known before. */
  function Latest(baseDir: string, known: seq<Item>, rs: seq<Reply>): seq<Item> {
    match LastFetched(rs)
    case Some(i) => Items(baseDir, rs[i].lines)
    case None => known
  }

  lemma {:induction false} AppendContinues(items: seq<Item>, a: nat, n: nat, probe: string -> int, size: string -> int)
    requires a + n <= |items| && AllSized(items, size)
    requires forall item <- items :: probe(item.url) == size(item.url)
    ensures AppendProbed(AppendProbed(Empty(), items, a, size), items[a..], n, probe)
            == AppendProbed(Empty(), items, a + n, size)
  {
    if n > 0 {
      AppendContinues(items, a, n - 1, probe, size);
      assert items[a..][n - 1] == items[a + n - 1];
    }
  }

  lemma {:induction false} AppendLooksAtPrefix(sp: RecSpace, short: seq<Item>, long: seq<Item>, n: nat,
                                               size: string -> int)
    requires short <= long && n <= |short|
    ensures AppendProbed(sp, short, n, size) == AppendProbed(sp, long, n, size)
  {
    if n > 0 {
      AppendLooksAtPrefix(sp, short, long, n - 1, size);
    }
  }

  lemma {:induction false} LaidLength(items: seq<Item>, n: nat, size: string -> int)
    requires n <= |items| && AllSized(items, size)
    ensures |AppendProbed(Empty(), items, n, size).segments| == n
  {
    if n > 0 {
      LaidLength(items, n - 1, size);
      assert items[n - 1] in items;
    }
  }

  lemma SmoothRefresh(baseDir: string, k: Known, r: Reply, items: seq<Item>, size: string -> int)
    requires r.Fetched? && SmoothReply(baseDir, size, items, r) && k.space == Laid(items, size)
    ensures Refresh(baseDir, k, r).space == Laid(Items(baseDir, r.lines), size)
  {
    var all := Items(baseDir, r.lines);
    assert AllSized(items, size) by {
      forall item <- items
        ensures size(item.url) > 0
      {
        assert item in all;
      }
    }
    hide Items;
    LaidLength(items, |items|, size);
    AppendLooksAtPrefix(Empty(), items, all, |items|, size);
    AppendContinues(all, |items|, |all| - |items|, r.probe, size);
  }

  lemma SmoothPrefix(baseDir: string, size: string -> int, known: seq<Item>, init: seq<Reply>, last: seq<Reply>)
    requires SmoothSession(baseDir, size, known, init + last)
    ensures SmoothSession(baseDir, size, known, init)
  {
    hide Items, SmoothReply;
    var rs := init + last;
    forall i | 0 <= i < |init|
      ensures init[i] == rs[i]
    {
    }
  }

  lemma LatestFits(baseDir: string, size: string -> int, known: seq<Item>, rs: seq<Reply>)
    requires rs != [] && rs[|rs| - 1].Fetched? && SmoothSession(baseDir, size, known, rs)
    ensures SmoothReply(baseDir, size, Latest(baseDir, known, rs[..|rs| - 1]), rs[|rs| - 1])
  {
    hide Items;
    var n := |rs| - 1;
    var earlier := LastFetched(rs[..n]);
    assert SmoothReply(baseDir, size, known, rs[n]);
    if earlier.Some? {
      assert rs[..n][earlier.value] == rs[earlier.value];
    }
  }

  lemma {:induction false} SmoothSpace(baseDir: string, k: Known, size: string -> int, known: seq<Item>, rs: seq<Reply>)
    requires SmoothSession(baseDir, size, known, rs) && k.space == Laid(known, size)
    ensures RefreshAll(baseDir, k, rs).space == Laid(Latest(baseDir, known, rs), size)
    ensures AllSized(Latest(baseDir, known, rs), size)
  {
    hide Items, Laid;
    if rs != [] {
      var n := |rs| - 1;
      assert rs == rs[..n] + [rs[n]];
      SmoothPrefix(baseDir, size, known, rs[..n], [rs[n]]);
      SmoothSpace(baseDir, k, size, known, rs[..n]);
      var before := RefreshAll(baseDir, k, rs[..n]);
      if rs[n].Fetched? {
        LatestFits(baseDir, size, known, rs);
        SmoothRefresh(baseDir, before, rs[n], Latest(baseDir, known, rs[..n]), size);
      } else {
        LatestKept(baseDir, known, rs);
      }
    }
  }

  lemma LatestKept(baseDir: string, known: seq<Item>, rs: seq<Reply>)
    requires rs != [] && rs[|rs| - 1].Unreachable?
    ensures Latest(baseDir, known, rs) == Latest(baseDir, known, rs[..|rs| - 1])
  {
    hide Items;
  }

  // ----- What breaks a reopening -----

  /** Reply `i` took the recording for finished with something listed, none did so later, and yet reply `j` found it
      running and longer. */
  ghost predicate ContinuedAfterEnd(baseDir: string, rs: seq<Reply>, i: nat, j: nat) {
    && i < j < |rs| && EndsIt(rs[i]) && (forall l :: i < l < |rs| ==> !EndsIt(rs[l]))
    && rs[j].Fetched? && 0 < |Items(baseDir, rs[i].lines)| < |Items(baseDir, rs[j].lines)|
  }

  ghost predicate ListedAfterEnd(baseDir: string, rs: seq<Reply>) {
    exists i: nat, j: nat :: ContinuedAfterEnd(baseDir, rs, i, j)
  }

  function LastEnd(rs: seq<Reply>): (r: Option<nat>)
    ensures r.Some? ==> r.value < |rs| && EndsIt(rs[r.value]) && forall l :: r.value < l < |rs| ==> !EndsIt(rs[l])
    ensures r.None? ==> forall l :: 0 <= l < |rs| ==> !EndsIt(rs[l])
  {
    if rs == [] then None
    else if EndsIt(rs[|rs| - 1]) then Some(|rs| - 1)
    else LastEnd(rs[..|rs| - 1])
  }

  lemma {:induction false} SmoothErased(baseDir: string, k: Known, size: string -> int, known: seq<Item>,
                                        rs: seq<Reply>)
    requires SmoothSession(baseDir, size, known, rs) && k.space == Laid(known, size)
    ensures ErasedAt(baseDir, k, rs) == match LastEnd(rs) case Some(i) => |Items(baseDir, rs[i].lines)| case None => 0
  {
    hide Items, RefreshAll;
    if rs != [] {
      var n := |rs| - 1;
      if EndsIt(rs[n]) {
        SmoothSpace(baseDir, k, size, known, rs);
        LaidLength(Latest(baseDir, known, rs), |Latest(baseDir, known, rs)|, size);
      } else {
        assert rs == rs[..n] + [rs[n]];
        SmoothPrefix(baseDir, size, known, rs[..n], [rs[n]]);
        SmoothErased(baseDir, k, size, known, rs[..n]);
      }
    }
  }

  /** Something is missing from the entry, and something is left of it, exactly when a playlist grew after the recording
      had been taken for finished. */
  lemma HoleExactly(baseDir: string, k: Known, size: string -> int, known: seq<Item>, rs: seq<Reply>)
    requires SmoothSession(baseDir, size, known, rs) && k.space == Laid(known, size)
    ensures 0 < ErasedAt(baseDir, k, rs) < |RefreshAll(baseDir, k, rs).space.segments| <==> ListedAfterEnd(baseDir, rs)
  {
    hide Items, RefreshAll;
    var d, latest := ErasedAt(baseDir, k, rs), Latest(baseDir, known, rs);
    SmoothErased(baseDir, k, size, known, rs);
    SmoothSpace(baseDir, k, size, known, rs);
    LaidLength(latest, |latest|, size);
    if 0 < d < |latest| {
      var i, j := LastEnd(rs).value, LastFetched(rs).value;
      assert ContinuedAfterEnd(baseDir, rs, i, j);
    }
    if ListedAfterEnd(baseDir, rs) {
      var i: nat, j: nat :| ContinuedAfterEnd(baseDir, rs, i, j);
      assert LastEnd(rs) == Some(i);
      var last := LastFetched(rs).value;
      assert last >= j && (last > j ==> Items(baseDir, rs[j].lines) <= Items(baseDir, rs[last].lines));
    }
  }

  // ----- Reopening -----

  /** The stream an opening starts from. */
  function Reopened(entry: Option<RecSpace>): Known {
    Known(Seed(entry), false, entry)
  }

  ghost predicate Answered(rs: seq<Reply>) {
    LastFetched(rs).Some?
  }

  /** Nothing is listed at the beginning, though there are bytes to read. */
  ghost predicate Headless(sp: RecSpace) {
    sp.segments != [] && sp.totalBytes > 0 && forall s <- sp.segments :: s.byteOffset > 0
  }

  lemma {:induction false} StaysHeadless(sp: RecSpace, pending: seq<Item>, n: nat, probe: string -> int)
    requires n <= |pending| && Headless(sp)
    ensures Headless(AppendProbed(sp, pending, n, probe))
  {
    if n > 0 {
      StaysHeadless(sp, pending, n - 1, probe);
    }
  }

  lemma {:induction false} HeadlessForGood(baseDir: string, k: Known, rs: seq<Reply>)
    requires Headless(k.space)
    ensures Headless(RefreshAll(baseDir, k, rs).space)
  {
    if rs != [] {
      HeadlessForGood(baseDir, k, rs[..|rs| - 1]);
      var before, r := RefreshAll(baseDir, k, rs[..|rs| - 1]), rs[|rs| - 1];
      if r.Fetched? {
        var pending := Pending(Items(baseDir, r.lines), |before.space.segments|);
        StaysHeadless(before.space, pending, |pending|, r.probe);
      }
    }
  }

  lemma HoleIsHeadless(k: Known, d: nat)
    requires Chained(k.space) && 0 < d < |k.space.segments| && EntryFrom(k, d)
    ensures Headless(Seed(k.entry))
  {
    var n := |k.space.segments|;
    BoundariesAscend(k.space, 0, n);
    forall s <- Seed(k.entry).segments
      ensures s.byteOffset > 0
    {
      var i :| 0 <= i < n - d && k.space.segments[d..][i] == s;
      BoundariesAscend(k.space, 0, d + i);
    }
  }

  lemma HeadlessReadsNothing(baseDir: string, known: Known, size: nat, now: int, replies: nat -> Reply,
                             bodies: string -> BodyReply)
    requires Headless(known.space)
    ensures var st := RecState(true, known, 0, -1, [], -1, None);
      !Chained(known.space) && Read(baseDir, st, size, now, replies, bodies) == (st, 0, [])
  {
    assert known.space.segments[0] in known.space.segments;
  }

  /** What is left of a recording that was listed further after it had been taken for finished, by one failed lookup
      say: however it is refreshed after being opened again, its first read returns 0, the sign of the end, though it
      has bytes, and the same sign comes however often the read is repeated. */
  lemma BrokenReopening(baseDir: string, k: Known, size: string -> int, known: seq<Item>, before: seq<Reply>,
                        after: seq<Reply>, n: nat, now: int, replies: nat -> Reply, bodies: string -> BodyReply)
    requires InStep(k) && k.space == Laid(known, size) && SmoothSession(baseDir, size, known, before)
    requires ListedAfterEnd(baseDir, before)
    ensures var again := RefreshAll(baseDir, Reopened(RefreshAll(baseDir, k, before).entry), after);
      var st := RecState(true, again, 0, -1, [], -1, None);
      && again.space.totalBytes > 0 && !Chained(again.space)
      && Read(baseDir, st, n, now, replies, bodies) == (st, 0, [])
  {
    hide Read, Items;
    var mid := RefreshAll(baseDir, k, before);
    EntryExactly(baseDir, k, before);
    HoleExactly(baseDir, k, size, known, before);
    RefreshesKeepChained(baseDir, k, before);
    HoleIsHeadless(mid, ErasedAt(baseDir, k, before));
    HeadlessForGood(baseDir, Reopened(mid.entry), after);
    HeadlessReadsNothing(baseDir, RefreshAll(baseDir, Reopened(mid.entry), after), n, now, replies, bodies);
  }

  lemma LatestOfJoined(baseDir: string, known: seq<Item>, before: seq<Reply>, after: seq<Reply>)
    requires Answered(after)
    ensures Latest(baseDir, known, before + after) == Latest(baseDir, [], after)
  {
    hide Items;
    var rs, i := before + after, LastFetched(after).value;
    assert rs[|before| + i] == after[i];
    forall j | |before| + i < j < |rs|
      ensures rs[j].Unreachable?
    {
      assert rs[j] == after[j - |before|];
    }
    assert LastFetched(rs) == Some(|before| + i);
  }

  lemma {:induction false} RefreshAllJoined(baseDir: string, k: Known, before: seq<Reply>, after: seq<Reply>)
    ensures RefreshAll(baseDir, k, before + after) == RefreshAll(baseDir, RefreshAll(baseDir, k, before), after)
  {
    hide Refresh;
    if after == [] {
      assert before + after == before;
    } else {
      RefreshAllJoined(baseDir, k, before, after[..|after| - 1]);
      assert (before + after)[..|before + after| - 1] == before + after[..|after| - 1];
    }
  }

  /** Opening from nothing, one answered request is enough to list everything. */
  lemma SmoothRest(baseDir: string, size: string -> int, known: seq<Item>, before: seq<Reply>, after: seq<Reply>)
    requires SmoothSession(baseDir, size, known, before + after)
    ensures SmoothSession(baseDir, size, [], after)
  {
    hide Items;
    var rs := before + after;
    forall i | 0 <= i < |after|
      ensures after[i] == rs[|before| + i]
    {
    }
    forall i | 0 <= i < |after| && after[i].Fetched?
      ensures SmoothReply(baseDir, size, [], after[i])
    {
      assert SmoothReply(baseDir, size, known, rs[|before| + i]);
    }
    forall i, j | 0 <= i < j < |after| && after[i].Fetched? && after[j].Fetched?
      ensures Items(baseDir, after[i].lines) <= Items(baseDir, after[j].lines)
    {
      assert Items(baseDir, rs[|before| + i].lines) <= Items(baseDir, rs[|before| + j].lines);
    }
  }

  ghost predicate SameStream(baseDir: string, mid: Known, after: seq<Reply>) {
    RefreshAll(baseDir, Reopened(mid.entry), after).space == RefreshAll(baseDir, mid, after).space
  }

  lemma SoundReopening(baseDir: string, k: Known, size: string -> int, known: seq<Item>, before: seq<Reply>,
                       after: seq<Reply>)
    requires InStep(k) && k.space == Laid(known, size) && SmoothSession(baseDir, size, known, before + after)
    requires Answered(after) && !ListedAfterEnd(baseDir, before)
    ensures SameStream(baseDir, RefreshAll(baseDir, k, before), after)
  {
    hide Items, Chained;
    var mid, d := RefreshAll(baseDir, k, before), ErasedAt(baseDir, k, before);
    SmoothPrefix(baseDir, size, known, before, after);
    EntryExactly(baseDir, k, before);
    HoleExactly(baseDir, k, size, known, before);
    SmoothSpace(baseDir, k, size, known, before + after);
    RefreshAllJoined(baseDir, k, before, after);
    LatestOfJoined(baseDir, known, before, after);
    if Seed(mid.entry) == Empty() {
      SmoothRest(baseDir, size, known, before, after);
      SmoothSpace(baseDir, Reopened(mid.entry), size, [], after);
    } else {
      assert mid.space.segments[0..] == mid.space.segments;
      SameSpaceForGood(baseDir, Reopened(mid.entry), mid, after);
    }
  }

  lemma {:induction false} SameSpaceForGood(baseDir: string, a: Known, b: Known, rs: seq<Reply>)
    requires a.space == b.space
    ensures RefreshAll(baseDir, a, rs).space == RefreshAll(baseDir, b, rs).space
  {
    if rs != [] {
      SameSpaceForGood(baseDir, a, b, rs[..|rs| - 1]);
    }
  }

  lemma OnceMore(baseDir: string, size: string -> int, known: seq<Item>, before: seq<Reply>)
    requires SmoothSession(baseDir, size, known, before) && Answered(before)
    ensures var last := before[LastFetched(before).value];
      SmoothSession(baseDir, size, known, before + [last]) && Answered([last])
  {
    hide Items, SmoothReply;
    var i := LastFetched(before).value;
    var rs := before + [before[i]];
    forall j | 0 <= j < |before| && rs[j].Fetched?
      ensures Items(baseDir, rs[j].lines) <= Items(baseDir, before[i].lines)
    {
      assert j <= i;
    }
  }

  /** Reopening equals never closing. After any smooth session, one may close the stream, open it again and refresh it,
      with at least one answer, and always has the address space of the stream that was never closed, exactly when no
      playlist grew after the recording had been taken for finished with something listed. Being taken for finished
      alone does no harm: the entry is gone then, and the next answer brings everything back. */
  lemma ReopenEqualsNeverClosing(baseDir: string, k: Known, size: string -> int, known: seq<Item>, before: seq<Reply>)
    requires InStep(k) && k.space == Laid(known, size) && SmoothSession(baseDir, size, known, before)
    ensures !ListedAfterEnd(baseDir, before) <==>
      forall after :: SmoothSession(baseDir, size, known, before + after) && Answered(after) ==>
        SameStream(baseDir, RefreshAll(baseDir, k, before), after)
  {
    hide Items, InStep;
    if !ListedAfterEnd(baseDir, before) {
      forall after | SmoothSession(baseDir, size, known, before + after) && Answered(after)
        ensures SameStream(baseDir, RefreshAll(baseDir, k, before), after)
      {
        SoundReopening(baseDir, k, size, known, before, after);
      }
    } else {
      var i: nat, j: nat :| ContinuedAfterEnd(baseDir, before, i, j);
      assert before[j].Fetched?;
      OnceMore(baseDir, size, known, before);
      BrokenDiffers(baseDir, k, size, known, before, [before[LastFetched(before).value]]);
    }
  }

  lemma BrokenDiffers(baseDir: string, k: Known, size: string -> int, known: seq<Item>, before: seq<Reply>,
                      after: seq<Reply>)
    requires InStep(k) && k.space == Laid(known, size) && SmoothSession(baseDir, size, known, before)
    requires ListedAfterEnd(baseDir, before)
    ensures !SameStream(baseDir, RefreshAll(baseDir, k, before), after)
  {
    hide Items, Read, Laid, SmoothSession, ListedAfterEnd;
    BrokenReopening(baseDir, k, size, known, before, after, 1, 0, _ => Unreachable, _ => NoBody);
    RefreshesKeepChained(baseDir, k, before);
    RefreshesKeepChained(baseDir, RefreshAll(baseDir, k, before), after);
  }

  // ----- One such run -----

  function OneSegment(): seq<HlsLine> {
    [ExtInf(4000), Uri("a.ts")]
  }

  function TwoSegments(): seq<HlsLine> {
    [ExtInf(4000), Uri("a.ts"), ExtInf(4000), Uri("b.ts")]
  }

  lemma OneMoreSegment(baseDir: string, lines: seq<HlsLine>, ms: int, name: string)
    requires |name| < 7
    ensures Items(baseDir, lines + [ExtInf(ms), Uri(name)]) == Items(baseDir, lines) + [Item(baseDir + name, ms)]
  {
    var inf, all := lines + [ExtInf(ms)], lines + [ExtInf(ms), Uri(name)];
    assert inf[..|lines|] == lines && all[..|lines| + 1] == inf;
    assert ItemsUpTo(baseDir, inf) == (Items(baseDir, lines), ms);
    assert ResolveUrl(baseDir, name) == baseDir + name;
  }

  lemma ReadSegments(baseDir: string)
    ensures Items(baseDir, OneSegment()) == [Item(baseDir + "a.ts", 4000)]
    ensures Items(baseDir, TwoSegments()) == [Item(baseDir + "a.ts", 4000), Item(baseDir + "b.ts", 4000)]
  {
    OneMoreSegment(baseDir, [], 4000, "a.ts");
    OneMoreSegment(baseDir, OneSegment(), 4000, "b.ts");
    assert [] + [ExtInf(4000), Uri("a.ts")] == OneSegment();
    assert OneSegment() + [ExtInf(4000), Uri("b.ts")] == TwoSegments();
  }

  lemma AppendOne(sp: RecSpace, item: Item, size: string -> int)
    requires size(item.url) > 0
    ensures AppendProbed(sp, [item], 1, size) == sp.Push(item.url, size(item.url), item.durationMs)
  {
    assert AppendProbed(sp, [item], 0, size) == sp;
  }

  lemma RefreshWithOne(baseDir: string, k: Known, r: Reply, item: Item)
    requires r.Fetched? && Pending(Items(baseDir, r.lines), |k.space.segments|) == [item] && r.probe(item.url) > 0
    ensures var space := k.space.Push(item.url, r.probe(item.url), item.durationMs);
      Refresh(baseDir, k, r) == Known(space, !r.stillInProgress, UpdatedEntry(k, space, !r.stillInProgress))
  {
    hide Items, UpdatedEntry;
    AppendOne(k.space, item, r.probe);
  }

  lemma RunOfThree(baseDir: string, k: Known, a: Reply, b: Reply, c: Reply)
    ensures RefreshAll(baseDir, k, [a, b]) == Refresh(baseDir, Refresh(baseDir, k, a), b)
    ensures RefreshAll(baseDir, k, [a, b, c]) == Refresh(baseDir, Refresh(baseDir, Refresh(baseDir, k, a), b), c)
  {
    hide Refresh;
    assert [a, b, c][..2] == [a, b] && [a, b][..1] == [a] && [a][..0] == [];
    assert RefreshAll(baseDir, k, [a]) == Refresh(baseDir, k, a);
  }

  /** A recording of two segments of ten bytes. The lookup fails once, while one is listed. Closed then, nothing is
      lost; one refresh later the entry is the second segment alone, at offset 10 of 20 bytes. */
  lemma OneFailedLookup(baseDir: string)
    ensures var size := (url: string) => 10;
      var (running, failed, longer) :=
        (Fetched(OneSegment(), size, true), Fetched(OneSegment(), size, false), Fetched(TwoSegments(), size, true));
      var blank := Known(Empty(), false, None);
      && RefreshAll(baseDir, blank, [running, failed]).entry == None
      && !ListedAfterEnd(baseDir, [running, failed]) && ListedAfterEnd(baseDir, [running, failed, longer])
      && RefreshAll(baseDir, blank, [running, failed, longer]).entry
         == Some(Space([Segment(baseDir + "b.ts", 10, 10, 4000)], 20, 8000))
  {
    hide Items, RefreshAll, Refresh, OneSegment, TwoSegments;
    var size := (url: string) => 10;
    var running, failed := Fetched(OneSegment(), size, true), Fetched(OneSegment(), size, false);
    var longer := Fetched(TwoSegments(), size, true);
    var a, b := Item(baseDir + "a.ts", 4000), Item(baseDir + "b.ts", 4000);
    ReadSegments(baseDir);
    var k0 := Known(Empty(), false, None);
    RunOfThree(baseDir, k0, running, failed, longer);
    var k1 := Refresh(baseDir, k0, running);
    RefreshWithOne(baseDir, k0, running, a);
    assert k1.space == Space([Segment(a.url, 0, 10, 0)], 10, 4000);
    var k2 := Refresh(baseDir, k1, failed);
    RefreshWithNone(baseDir, k1, failed);
    RefreshWithOne(baseDir, k2, longer, b);
    var space := k2.space.Push(b.url, 10, 4000);
    assert space == Space(k2.space.segments + [Segment(b.url, 10, 10, 4000)], 20, 8000);
    assert [] + space.segments[1..] == [Segment(b.url, 10, 10, 4000)];
    assert ContinuedAfterEnd(baseDir, [running, failed, longer], 1, 2);
  }

  lemma RefreshWithNone(baseDir: string, k: Known, r: Reply)
    requires EndsIt(r) && Pending(Items(baseDir, r.lines), |k.space.segments|) == []
    ensures Refresh(baseDir, k, r) == Known(k.space, true, None)
  {
    hide Items;
  }
}
