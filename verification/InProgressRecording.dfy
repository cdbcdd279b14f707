/** The list of a recording that is still being written: an append-only merge of its HLS playlist, with sizes learnt
    by a bounded fan-out of probes and a cache of sized segments that outlives the stream. */
module InProgressRecording {
  import opened Basics
  import opened AddressSpace

  type RecSpace = Space<string>

  // ----- The playlist -----

  /** A playlist line, classified. */
  datatype HlsLine = ExtInf(durationMs: int) | Tag | Blank | Uri(line: string)

  datatype Item = Item(url: string, durationMs: int)

  function ResolveUrl(baseDir: string, line: string): string {
    if "http://" <= line || "https://" <= line then line else baseDir + line
  }

  /** The listed segments, and the duration waiting for its segment. */
  function ItemsUpTo(baseDir: string, lines: seq<HlsLine>): (seq<Item>, int) {
    if lines == [] then ([], 0)
    else
      var (items, durationMs) := ItemsUpTo(baseDir, lines[..|lines| - 1]);
      match lines[|lines| - 1]
      case ExtInf(ms) => (items, ms)
      case Uri(line) => (items + [Item(ResolveUrl(baseDir, line), durationMs)], 0)
      case _ => (items, durationMs)
  }

  function Items(baseDir: string, lines: seq<HlsLine>): seq<Item> {
    ItemsUpTo(baseDir, lines).0
  }

  /** What a refresh that already lists `known` segments looks at. */
  function Pending(items: seq<Item>, known: nat): seq<Item> {
    if known <= |items| then items[known..] else []
  }

  method ParsePending(baseDir: string, lines: seq<HlsLine>, alreadyKnown: nat) returns (pending: seq<Item>)
    ensures pending == Pending(Items(baseDir, lines), alreadyKnown)
  {
    pending := [];
    var segmentIndex, pendingDurationMs := 0, 0;
    for i := 0 to |lines|
      invariant segmentIndex == |Items(baseDir, lines[..i])| && pendingDurationMs == ItemsUpTo(baseDir, lines[..i]).1
      invariant pending == Pending(Items(baseDir, lines[..i]), alreadyKnown)
    {
      assert lines[..i + 1][..i] == lines[..i];
      match lines[i]
      case ExtInf(ms) => pendingDurationMs := ms;
      case Uri(line) =>
        if segmentIndex >= alreadyKnown {
          pending := pending + [Item(ResolveUrl(baseDir, line), pendingDurationMs)];
        }
        segmentIndex := segmentIndex + 1;
        pendingDurationMs := 0;
      case _ =>
    }
    assert lines[..|lines|] == lines;
  }

  /** A line that starts with one of the two schemes is an address, any other is a name in the recording's directory. */
  lemma AddressOf(baseDir: string, line: string, rest: string)
    ensures ResolveUrl(baseDir, "http://" + rest) == "http://" + rest
    ensures ResolveUrl(baseDir, "https://" + rest) == "https://" + rest
    ensures (|line| < 7 || line[..7] != "http://") && (|line| < 8 || line[..8] != "https://") ==>
              ResolveUrl(baseDir, line) == baseDir + line
  {
    assert |"http://"| == 7 && |"https://"| == 8;
    assert "http://" <= line ==> line[..7] == "http://";
    assert "https://" <= line ==> line[..8] == "https://";
  }

  /** How many segments are named before line `i`. */
  function NamesBefore(lines: seq<HlsLine>, i: nat): nat
    requires i <= |lines|
  {
    if i == 0 then 0 else NamesBefore(lines, i - 1) + if lines[i - 1].Uri? then 1 else 0
  }

  lemma {:induction false} NamesGrow(lines: seq<HlsLine>, i: nat, j: nat)
    requires i <= j <= |lines|
    ensures NamesBefore(lines, i) <= NamesBefore(lines, j)
    decreases j
  {
    if i < j {
      NamesGrow(lines, i, j - 1);
    }
  }

  /** The duration waiting behind the first `i` lines is that of line `d`, if neither a duration nor a name follows it
      there; none is waiting behind a name. */
  lemma {:induction false} WaitingDuration(baseDir: string, lines: seq<HlsLine>, d: nat, i: nat)
    requires d < i <= |lines| && forall j :: d < j < i ==> !lines[j].ExtInf? && !lines[j].Uri?
    ensures lines[d].ExtInf? ==> ItemsUpTo(baseDir, lines[..i]).1 == lines[d].durationMs
    ensures lines[d].Uri? ==> ItemsUpTo(baseDir, lines[..i]).1 == 0
    decreases i
  {
    assert lines[..i][..i - 1] == lines[..i - 1];
    if d < i - 1 {
      WaitingDuration(baseDir, lines, d, i - 1);
    }
  }

  lemma {:induction false} NoDurationYet(baseDir: string, lines: seq<HlsLine>, i: nat)
    requires i <= |lines| && forall j :: 0 <= j < i ==> !lines[j].ExtInf? && !lines[j].Uri?
    ensures ItemsUpTo(baseDir, lines[..i]).1 == 0
  {
    if i > 0 {
      assert lines[..i][..i - 1] == lines[..i - 1];
      NoDurationYet(baseDir, lines, i - 1);
    }
  }

  lemma {:induction false} ItemAt(baseDir: string, lines: seq<HlsLine>, i: nat, n: nat)
    requires i < n <= |lines| && lines[i].Uri?
    ensures |Items(baseDir, lines[..n])| == NamesBefore(lines, n) && NamesBefore(lines, i) < NamesBefore(lines, n)
    ensures Items(baseDir, lines[..n])[NamesBefore(lines, i)]
            == Item(ResolveUrl(baseDir, lines[i].line), ItemsUpTo(baseDir, lines[..i]).1)
    decreases n
  {
    assert lines[..n][..n - 1] == lines[..n - 1];
    hide ResolveUrl;
    if i < n - 1 {
      ItemAt(baseDir, lines, i, n - 1);
    } else {
      ItemCount(baseDir, lines, i);
    }
  }

  lemma {:induction false} ItemCount(baseDir: string, lines: seq<HlsLine>, n: nat)
    requires n <= |lines|
    ensures |Items(baseDir, lines[..n])| == NamesBefore(lines, n)
  {
    if n > 0 {
      assert lines[..n][..n - 1] == lines[..n - 1];
      ItemCount(baseDir, lines, n - 1);
    }
  }

  /** A playlist lists exactly its named lines, in order; the duration of a segment is that of the last duration line
      behind the segment before it, 0 if there is none, whatever tags and blank lines come between. */
  lemma ItemsExactly(baseDir: string, lines: seq<HlsLine>, i: nat, d: nat)
    requires d <= i < |lines| && lines[i].Uri?
    requires forall j :: d < j < i ==> !lines[j].ExtInf? && !lines[j].Uri?
    ensures |Items(baseDir, lines)| == NamesBefore(lines, |lines|) > NamesBefore(lines, i)
    ensures var item := Items(baseDir, lines)[NamesBefore(lines, i)];
      && item.url == ResolveUrl(baseDir, lines[i].line)
      && (d < i && lines[d].ExtInf? ==> item.durationMs == lines[d].durationMs)
      && (d < i && lines[d].Uri? ==> item.durationMs == 0)
      && (d == 0 && !lines[0].ExtInf? ==> item.durationMs == 0)
  {
    hide ItemsUpTo, ResolveUrl;
    assert lines[..|lines|] == lines;
    ItemAt(baseDir, lines, i, |lines|);
    if d < i && (lines[d].ExtInf? || lines[d].Uri?) {
      WaitingDuration(baseDir, lines, d, i);
    } else if d == 0 {
      NoDurationYet(baseDir, lines, i);
    }
  }

  // ----- The probe fan-out -----

  const MAX_CONCURRENT_PROBES: nat := 16

  function Slots(from: nat, end: nat): (r: set<nat>)
    requires from <= end
    ensures forall i: nat :: i in r <==> from <= i < end
    decreases end - from
  {
    if from == end then {} else {from} + Slots(from + 1, end)
  }

  /** One probe per pending segment, at most sixteen at a time. Whichever thread of a batch finishes next, each writes
      its own slot once, and in the end the sizes are those of probing one segment after the other. */
  method ProbeSizes(pending: seq<Item>, probe: string -> int) returns (probedSizes: array<int>, batches: nat)
    ensures fresh(probedSizes)
    ensures batches == (|pending| + 15) / 16
    ensures probedSizes[..] == seq(|pending|, i requires 0 <= i < |pending| => probe(pending[i].url))
  {
    probedSizes := new int[|pending|](_ => -1);
    batches := 0;
    var batchStart := 0;
    while batchStart < |pending|
      invariant batchStart == 16 * batches && (batches > 0 ==> 16 * (batches - 1) < |pending|)
      invariant forall i :: 0 <= i < |pending| ==>
        probedSizes[i] == if i < batchStart then probe(pending[i].url) else -1
    {
      var batchEnd := Min(batchStart + MAX_CONCURRENT_PROBES, |pending|);
      var running := Slots(batchStart, batchEnd);
      while running != {}
        invariant running <= Slots(batchStart, batchEnd)
        invariant forall i :: 0 <= i < |pending| ==>
          probedSizes[i] == if i < batchEnd && i !in running then probe(pending[i].url) else -1
        decreases running
      {
        var t :| t in running;
        probedSizes[t] := probe(pending[t].url);
        running := running - {t};
      }
      batchStart := batchStart + MAX_CONCURRENT_PROBES;
      batches := batches + 1;
    }
  }

  // ----- One refresh -----

  /** Lists the first `n` pending segments, leaving out those that could not be sized. */
  function AppendProbed(sp: RecSpace, pending: seq<Item>, n: nat, probe: string -> int): RecSpace
    requires n <= |pending|
  {
    if n == 0 then sp
    else
      var before := AppendProbed(sp, pending, n - 1, probe);
      var item := pending[n - 1];
      if probe(item.url) > 0 then before.Push(item.url, probe(item.url), item.durationMs) else before
  }

  /** How a playlist request ends. `probe` gives each probe's result, not positive if it failed, and `stillInProgress`
      what the follow-up look at the recording says. */
  datatype Reply = Unreachable | Fetched(lines: seq<HlsLine>, probe: string -> int, stillInProgress: bool)

  /** What a refresh touches: the listed segments, the finished flag, and the recording's entry in the cache that
      outlives the stream. */
  datatype Known = Known(space: RecSpace, finished: bool, entry: Option<RecSpace>)

  function UpdatedEntry(k: Known, space: RecSpace, finished: bool): Option<RecSpace>
    requires |k.space.segments| <= |space.segments|
  {
    if finished then None
    else if |space.segments| == |k.space.segments| then k.entry
    else
      var before := if k.entry.Some? then k.entry.value.segments else [];
      Some(Space(before + space.segments[|k.space.segments|..], space.totalBytes, space.totalDurationMs))
  }

  function Listed(baseDir: string, sp: RecSpace, r: Reply): (space: RecSpace)
    requires r.Fetched?
    ensures sp.segments <= space.segments
  {
    var pending := Pending(Items(baseDir, r.lines), |sp.segments|);
    AppendExtends(sp, pending, |pending|, r.probe);
    AppendProbed(sp, pending, |pending|, r.probe)
  }

  function Refresh(baseDir: string, k: Known, r: Reply): Known {
    if r.Unreachable? then k
    else
      var space := Listed(baseDir, k.space, r);
      Known(space, !r.stillInProgress, UpdatedEntry(k, space, !r.stillInProgress))
  }

  function RefreshAll(baseDir: string, k: Known, rs: seq<Reply>): Known {
    if rs == [] then k else Refresh(baseDir, RefreshAll(baseDir, k, rs[..|rs| - 1]), rs[|rs| - 1])
  }

  lemma {:induction false} AppendExtends(sp: RecSpace, pending: seq<Item>, n: nat, probe: string -> int)
    requires n <= |pending|
    ensures sp.segments <= AppendProbed(sp, pending, n, probe).segments
    ensures |AppendProbed(sp, pending, n, probe).segments| <= |sp.segments| + n
  {
    if n > 0 {
      AppendExtends(sp, pending, n - 1, probe);
    }
  }

  lemma {:induction false} AppendKeepsChained(sp: RecSpace, pending: seq<Item>, n: nat, probe: string -> int)
    requires n <= |pending| && Chained(sp)
    ensures Chained(AppendProbed(sp, pending, n, probe))
  {
    if n > 0 {
      AppendKeepsChained(sp, pending, n - 1, probe);
      var before := AppendProbed(sp, pending, n - 1, probe);
      if probe(pending[n - 1].url) > 0 {
        PushKeepsChained(before, pending[n - 1].url, probe(pending[n - 1].url), pending[n - 1].durationMs);
      }
    }
  }

  lemma {:induction false} RefreshesKeepChained(baseDir: string, k: Known, rs: seq<Reply>)
    requires Chained(k.space)
    ensures Chained(RefreshAll(baseDir, k, rs).space) && k.space.segments <= RefreshAll(baseDir, k, rs).space.segments
  {
    if rs != [] {
      var before, r := RefreshAll(baseDir, k, rs[..|rs| - 1]), rs[|rs| - 1];
      RefreshesKeepChained(baseDir, k, rs[..|rs| - 1]);
      if r.Fetched? {
        var pending := Pending(Items(baseDir, r.lines), |before.space.segments|);
        AppendKeepsChained(before.space, pending, |pending|, r.probe);
      }
    }
  }

  ghost predicate AllUnreachable(rs: seq<Reply>, from: nat) {
    forall j :: from <= j < |rs| ==> rs[j].Unreachable?
  }

  /** Reply `i` said the recording is over, and no later one was answered. */
  ghost predicate LastWordOver(rs: seq<Reply>, i: nat)
    requires i < |rs|
  {
    rs[i].Fetched? && !rs[i].stillInProgress && AllUnreachable(rs, i + 1)
  }

  /** A stream is finished exactly when the last answered request said so: an earlier word, right or wrong, is taken
      back by a later one. */
  lemma {:induction false} FinishedExactly(baseDir: string, k: Known, rs: seq<Reply>)
    ensures RefreshAll(baseDir, k, rs).finished <==>
      (k.finished && AllUnreachable(rs, 0)) || exists i :: 0 <= i < |rs| && LastWordOver(rs, i)
  {
    if rs != [] {
      var init, last := rs[..|rs| - 1], rs[|rs| - 1];
      FinishedExactly(baseDir, k, init);
      if last.Unreachable? {
        forall i | 0 <= i < |init|
          ensures LastWordOver(rs, i) <==> LastWordOver(init, i)
        {
          UnreachableStep(init, last, i + 1);
        }
        UnreachableStep(init, last, 0);
        assert forall i :: 0 <= i < |rs| && LastWordOver(rs, i) ==> i < |init|;
      } else {
        assert LastWordOver(rs, |rs| - 1) <==> !last.stillInProgress;
      }
    }
  }

  lemma UnreachableStep(init: seq<Reply>, last: Reply, from: nat)
    requires last.Unreachable? && from <= |init|
    ensures AllUnreachable(init + [last], from) <==> AllUnreachable(init, from)
  {
    if AllUnreachable(init + [last], from) {
      forall j | from <= j < |init|
        ensures init[j].Unreachable?
      {
        assert (init + [last])[j] == init[j];
      }
    }
  }

  // ----- The list and the playlist -----

  /** The list is the playlist's beginning, segment for segment, with its durations. */
  ghost predicate Faithful(sp: RecSpace, items: seq<Item>) {
    && |sp.segments| <= |items|
    && forall i :: 0 <= i < |sp.segments| ==>
         sp.segments[i].key == items[i].url && sp.Duration(i) == items[i].durationMs
  }

  ghost predicate Distinct(items: seq<Item>) {
    forall i, j :: 0 <= i < j < |items| ==> items[i].url != items[j].url
  }

  /** No probe succeeds after one that failed. */
  ghost predicate SuccessesFirst(probe: string -> int, pending: seq<Item>) {
    forall i: nat, j: nat :: i < j < |pending| && probe(pending[j].url) > 0 ==> probe(pending[i].url) > 0
  }

  lemma {:induction false} PrefixAppends(sp: RecSpace, items: seq<Item>, n: nat, probe: string -> int)
    requires Faithful(sp, items) && n <= |items| - |sp.segments|
    requires SuccessesFirst(probe, items[|sp.segments|..])
    ensures var pending := items[|sp.segments|..];
      var r := AppendProbed(sp, pending, n, probe);
      Faithful(r, items) && (|r.segments| == |sp.segments| + n <==> n == 0 || probe(pending[n - 1].url) > 0)
  {
    if n > 0 {
      var pending := items[|sp.segments|..];
      PrefixAppends(sp, items, n - 1, probe);
      AppendExtends(sp, pending, n - 1, probe);
      if probe(pending[n - 1].url) > 0 {
        assert n - 1 == 0 || probe(pending[n - 2].url) > 0;
      }
    }
  }

  lemma {:induction false} SuccessIsListed(sp: RecSpace, pending: seq<Item>, n: nat, probe: string -> int, j: nat)
    requires j < n <= |pending| && probe(pending[j].url) > 0
    ensures exists k :: |sp.segments| <= k < |AppendProbed(sp, pending, n, probe).segments| &&
              AppendProbed(sp, pending, n, probe).segments[k].key == pending[j].url
  {
    AppendExtends(sp, pending, n - 1, probe);
    var before, after := AppendProbed(sp, pending, n - 1, probe), AppendProbed(sp, pending, n, probe);
    if j < n - 1 {
      SuccessIsListed(sp, pending, n - 1, probe, j);
      var k :| |sp.segments| <= k < |before.segments| && before.segments[k].key == pending[j].url;
      assert after.segments[k] == before.segments[k];
    } else {
      assert after.segments[|before.segments|].key == pending[j].url;
    }
  }

  lemma {:induction false} FailureShortens(sp: RecSpace, pending: seq<Item>, n: nat, probe: string -> int, i: nat)
    requires i < n <= |pending| && probe(pending[i].url) <= 0
    ensures |AppendProbed(sp, pending, n, probe).segments| < |sp.segments| + n
  {
    AppendExtends(sp, pending, n - 1, probe);
    if i < n - 1 {
      FailureShortens(sp, pending, n - 1, probe, i);
    }
  }

  /** A refresh keeps the list a beginning of the playlist exactly when no probe succeeded after one that failed.
      Failures at the end alone do no harm: the next refresh starts with them. */
  lemma FaithfulExactly(sp: RecSpace, items: seq<Item>, probe: string -> int)
    requires Faithful(sp, items) && Distinct(items)
    ensures var pending := Pending(items, |sp.segments|);
      Faithful(AppendProbed(sp, pending, |pending|, probe), items) <==> SuccessesFirst(probe, pending)
  {
    hide AppendProbed, Faithful;
    var pending := Pending(items, |sp.segments|);
    FaithfulIsShorter(sp, items);
    if SuccessesFirst(probe, pending) {
      PrefixAppends(sp, items, |pending|, probe);
    } else {
      var i: nat, j: nat :| i < j < |pending| && probe(pending[j].url) > 0 && probe(pending[i].url) <= 0;
      OutOfPlace(sp, items, probe, i, j);
    }
  }

  lemma FaithfulIsShorter(sp: RecSpace, items: seq<Item>)
    requires Faithful(sp, items)
    ensures |sp.segments| <= |items|
  {
  }

  lemma WrongKeyNotFaithful(sp: RecSpace, items: seq<Item>, k: nat)
    requires k < |sp.segments| && k < |items| && sp.segments[k].key != items[k].url
    ensures !Faithful(sp, items)
  {
  }

  /** A success after a failure is listed too early. */
  lemma ListedTooEarly(sp: RecSpace, pending: seq<Item>, probe: string -> int, i: nat, j: nat)
    requires i < j < |pending| && probe(pending[i].url) <= 0 < probe(pending[j].url)
    ensures var after := AppendProbed(sp, pending, |pending|, probe);
      exists k :: |sp.segments| <= k < |sp.segments| + j && k < |after.segments| &&
          after.segments[k].key == pending[j].url
  {
    hide AppendProbed;
    var upTo, after := AppendProbed(sp, pending, j + 1, probe), AppendProbed(sp, pending, |pending|, probe);
    FailureShortens(sp, pending, j + 1, probe, i);
    SuccessIsListed(sp, pending, j + 1, probe, j);
    var k :| |sp.segments| <= k < |upTo.segments| && upTo.segments[k].key == pending[j].url;
    AppendMonotone(sp, pending, j + 1, |pending|, probe);
    assert after.segments[k] == upTo.segments[k];
  }

  lemma OutOfPlace(sp: RecSpace, items: seq<Item>, probe: string -> int, i: nat, j: nat)
    requires |sp.segments| <= |items| && Distinct(items)
    requires var pending := Pending(items, |sp.segments|);
      i < j < |pending| && probe(pending[i].url) <= 0 < probe(pending[j].url)
    ensures var pending := Pending(items, |sp.segments|);
      !Faithful(AppendProbed(sp, pending, |pending|, probe), items)
  {
    hide AppendProbed, Faithful, Distinct;
    var pending := Pending(items, |sp.segments|);
    var after := AppendProbed(sp, pending, |pending|, probe);
    ListedTooEarly(sp, pending, probe, i, j);
    var k: nat :| |sp.segments| <= k < |sp.segments| + j && k < |after.segments| &&
        after.segments[k].key == pending[j].url;
    UrlsDiffer(items, k, |sp.segments| + j);
    WrongKeyNotFaithful(after, items, k);
  }

  lemma UrlsDiffer(items: seq<Item>, k: nat, m: nat)
    requires Distinct(items) && k < m < |items|
    ensures items[k].url != items[m].url
  {
  }

  lemma {:induction false} AppendMonotone(sp: RecSpace, pending: seq<Item>, m: nat, n: nat, probe: string -> int)
    requires m <= n <= |pending|
    ensures AppendProbed(sp, pending, m, probe).segments <= AppendProbed(sp, pending, n, probe).segments
    decreases n
  {
    if m < n {
      AppendMonotone(sp, pending, m, n - 1, probe);
    }
  }

  /** The playlists that were answered only ever grow, and never name a segment twice. */
  ghost predicate Growing(baseDir: string, rs: seq<Reply>) {
    && (forall i :: 0 <= i < |rs| && rs[i].Fetched? ==> Distinct(Items(baseDir, rs[i].lines)))
    && forall i, j :: 0 <= i < j < |rs| && rs[i].Fetched? && rs[j].Fetched? ==>
         Items(baseDir, rs[i].lines) <= Items(baseDir, rs[j].lines)
  }

  ghost predicate FaithfulAfter(baseDir: string, k: Known, rs: seq<Reply>, i: nat)
    requires i < |rs|
  {
    rs[i].Fetched? ==> Faithful(RefreshAll(baseDir, k, rs[..i + 1]).space, Items(baseDir, rs[i].lines))
  }

  ghost predicate SuccessesFirstIn(baseDir: string, k: Known, rs: seq<Reply>, i: nat)
    requires i < |rs|
  {
    rs[i].Fetched? ==>
      SuccessesFirst(rs[i].probe,
                     Pending(Items(baseDir, rs[i].lines), |RefreshAll(baseDir, k, rs[..i]).space.segments|))
  }

  /** The last answered request of a run, if there is one. */
  function LastFetched(rs: seq<Reply>): (r: Option<nat>)
    ensures r.Some? ==> r.value < |rs| && rs[r.value].Fetched? && forall j :: r.value < j < |rs| ==> rs[j].Unreachable?
    ensures r.None? ==> forall j :: 0 <= j < |rs| ==> rs[j].Unreachable?
  {
    if rs == [] then None
    else if rs[|rs| - 1].Fetched? then Some(|rs| - 1)
    else LastFetched(rs[..|rs| - 1])
  }

  lemma {:induction false} FailuresChangeNothing(baseDir: string, k: Known, rs: seq<Reply>, n: nat)
    requires n <= |rs| && forall j :: n <= j < |rs| ==> rs[j].Unreachable?
    ensures RefreshAll(baseDir, k, rs) == RefreshAll(baseDir, k, rs[..n])
    decreases |rs|
  {
    if n < |rs| {
      FailuresChangeNothing(baseDir, k, rs[..|rs| - 1], n);
      assert rs[..|rs| - 1][..n] == rs[..n];
    } else {
      assert rs[..n] == rs;
    }
  }

  /** Over a whole session, failed requests among it or not: the list is the playlist's beginning after every refresh
      exactly when in every refresh the probes that succeeded came before those that failed. */
  lemma {:induction false} FaithfulRun(baseDir: string, k: Known, rs: seq<Reply>)
    requires Growing(baseDir, rs) && k.space.segments == []
    ensures (forall i :: 0 <= i < |rs| ==> FaithfulAfter(baseDir, k, rs, i))
            <==> (forall i :: 0 <= i < |rs| ==> SuccessesFirstIn(baseDir, k, rs, i))
  {
    hide Refresh, RefreshAll, Items, Faithful, SuccessesFirst, Pending;
    if rs != [] {
      var n := |rs| - 1;
      FaithfulRun(baseDir, k, rs[..n]);
      forall i | 0 <= i < n
        ensures FaithfulAfter(baseDir, k, rs[..n], i) == FaithfulAfter(baseDir, k, rs, i)
        ensures SuccessesFirstIn(baseDir, k, rs[..n], i) == SuccessesFirstIn(baseDir, k, rs, i)
      {
        assert rs[..n][..i + 1] == rs[..i + 1] && rs[..n][..i] == rs[..i];
      }
      if rs[n].Fetched? && forall i :: 0 <= i < n ==> FaithfulAfter(baseDir, k, rs, i) {
        FaithfulNext(baseDir, k, rs);
      }
    }
  }

  lemma FaithfulSoFar(baseDir: string, k: Known, rs: seq<Reply>, n: nat)
    requires n < |rs| && rs[n].Fetched? && Growing(baseDir, rs) && k.space.segments == []
    requires forall i :: 0 <= i < n ==> FaithfulAfter(baseDir, k, rs, i)
    ensures Faithful(RefreshAll(baseDir, k, rs[..n]).space, Items(baseDir, rs[n].lines))
  {
    hide RefreshAll, Items;
    var earlier := LastFetched(rs[..n]);
    if earlier.Some? {
      var i := earlier.value;
      assert FaithfulAfter(baseDir, k, rs, i);
      FailuresChangeNothing(baseDir, k, rs[..n], i + 1);
      assert rs[..n][..i + 1] == rs[..i + 1];
      hide Growing;
      GrowingStep(baseDir, rs, i, n);
      LongerIsFaithful(RefreshAll(baseDir, k, rs[..i + 1]).space, Items(baseDir, rs[i].lines),
          Items(baseDir, rs[n].lines));
    } else {
      FailuresChangeNothing(baseDir, k, rs[..n], 0);
      assert rs[..n][..0] == [];
      EmptyRefresh(baseDir, k);
    }
  }

  lemma EmptyRefresh(baseDir: string, k: Known)
    ensures RefreshAll(baseDir, k, []) == k
  {
  }

  lemma GrowingStep(baseDir: string, rs: seq<Reply>, i: nat, n: nat)
    requires i < n < |rs| && rs[i].Fetched? && rs[n].Fetched? && Growing(baseDir, rs)
    ensures Items(baseDir, rs[i].lines) <= Items(baseDir, rs[n].lines)
  {
    hide Items;
  }

  lemma LongerIsFaithful(sp: RecSpace, items: seq<Item>, longer: seq<Item>)
    requires Faithful(sp, items) && items <= longer
    ensures Faithful(sp, longer)
  {
  }

  lemma FaithfulNext(baseDir: string, k: Known, rs: seq<Reply>)
    requires rs != [] && rs[|rs| - 1].Fetched? && Growing(baseDir, rs) && k.space.segments == []
    requires forall i :: 0 <= i < |rs| - 1 ==> FaithfulAfter(baseDir, k, rs, i)
    ensures FaithfulAfter(baseDir, k, rs, |rs| - 1) <==> SuccessesFirstIn(baseDir, k, rs, |rs| - 1)
  {
    var n := |rs| - 1;
    FaithfulSoFar(baseDir, k, rs, n);
    var before, items := RefreshAll(baseDir, k, rs[..n]).space, Items(baseDir, rs[n].lines);
    assert Distinct(items);
    hide AppendProbed, SuccessesFirst, Items, UpdatedEntry, Faithful, Growing, Distinct, FaithfulAfter;
    assert rs[..n + 1] == rs;
    FaithfulExactly(before, items, rs[n].probe);
    assert RefreshAll(baseDir, k, rs).space
        == AppendProbed(before, Pending(items, |before.segments|), |Pending(items, |before.segments|)|, rs[n].probe);
    assert FaithfulAfter(baseDir, k, rs, n) == Faithful(RefreshAll(baseDir, k, rs).space, items) by {
      FaithfulAfterIs(baseDir, k, rs, n);
    }
  }

  lemma FaithfulAfterIs(baseDir: string, k: Known, rs: seq<Reply>, i: nat)
    requires i < |rs| && rs[i].Fetched?
    ensures FaithfulAfter(baseDir, k, rs, i)
        == Faithful(RefreshAll(baseDir, k, rs[..i + 1]).space, Items(baseDir, rs[i].lines))
  {
    hide RefreshAll, Faithful, Items;
  }

  ghost predicate ListedTwice(sp: RecSpace) {
    exists i, j :: 0 <= i < j < |sp.segments| && sp.segments[i].key == sp.segments[j].key
  }

  lemma KnownAgain(first: RecSpace, rest: seq<Item>, again: string -> int, k: nat, d: nat)
    requires k < |first.segments| && d < |rest| && rest[d].url == first.segments[k].key && again(rest[d].url) > 0
    ensures ListedTwice(AppendProbed(first, rest, |rest|, again))
  {
    AppendExtends(first, rest, |rest|, again);
    SuccessIsListed(first, rest, |rest|, again, d);
    var second := AppendProbed(first, rest, |rest|, again);
    var m :| |first.segments| <= m < |second.segments| && second.segments[m].key == rest[d].url;
    assert second.segments[k] == first.segments[k];
  }

  /** A failure followed by a success is not merely a gap: the next refresh in which no probe fails lists a segment a
      second time. */
  lemma GapThenTwice(sp: RecSpace, items: seq<Item>, probe: string -> int, later: seq<Item>, again: string -> int)
    requires |sp.segments| <= |items| && items <= later
    requires !SuccessesFirst(probe, items[|sp.segments|..]) && forall item <- later :: again(item.url) > 0
    ensures var pending := Pending(items, |sp.segments|);
      var first := AppendProbed(sp, pending, |pending|, probe);
      var rest := Pending(later, |first.segments|);
      ListedTwice(AppendProbed(first, rest, |rest|, again))
  {
    hide AppendProbed, ListedTwice, SuccessesFirst;
    var a, pending := |sp.segments|, Pending(items, |sp.segments|);
    var (i, last) := FailureBeforeLastSuccess(probe, pending);
    var first := AppendProbed(sp, pending, |pending|, probe);
    AppendExtends(sp, pending, |pending|, probe);
    SuccessIsListed(sp, pending, |pending|, probe, last);
    CountAtMost(sp, pending, |pending|, probe, i, last);
    var k: nat :| a <= k < |first.segments| && first.segments[k].key == pending[last].url;
    var d := a + last - |first.segments|;
    var rest := Pending(later, |first.segments|);
    assert rest[d] == later[a + last] == items[a + last] == pending[last];
    KnownAgain(first, rest, again, k, d);
  }

  ghost function FailureBeforeLastSuccess(probe: string -> int, pending: seq<Item>): (r: (nat, nat))
    requires !SuccessesFirst(probe, pending)
    ensures r.0 < r.1 < |pending| && probe(pending[r.0].url) <= 0 < probe(pending[r.1].url)
    ensures forall t: nat :: r.1 < t < |pending| ==> probe(pending[t].url) <= 0
  {
    var i: nat, j: nat :| i < j < |pending| && probe(pending[j].url) > 0 && probe(pending[i].url) <= 0;
    (i, LastSuccess(probe, pending, |pending|, j))
  }

  function LastSuccess(probe: string -> int, pending: seq<Item>, n: nat, j: nat): (r: nat)
    requires j < n <= |pending| && probe(pending[j].url) > 0
    ensures j <= r < n && probe(pending[r].url) > 0 && forall t: nat :: r < t < n ==> probe(pending[t].url) <= 0
  {
    if probe(pending[n - 1].url) > 0 then n - 1 else LastSuccess(probe, pending, n - 1, j)
  }

  lemma {:induction false} CountAtMost(sp: RecSpace, pending: seq<Item>, n: nat, probe: string -> int, i: nat,
                                       last: nat)
    requires i < last < n <= |pending| && probe(pending[i].url) <= 0
    requires forall t: nat :: last < t < n ==> probe(pending[t].url) <= 0
    ensures |AppendProbed(sp, pending, n, probe).segments| <= |sp.segments| + last
    decreases n
  {
    if n - 1 > last {
      CountAtMost(sp, pending, n - 1, probe, i, last);
    } else {
      FailureShortens(sp, pending, n, probe, i);
    }
  }

  // ----- The cache across openings -----

  /** What the next opening of the recording starts from. */
  function Seed(entry: Option<RecSpace>): RecSpace {
    if entry.Some? then entry.value else Empty()
  }

  ghost predicate InStep(k: Known) {
    Chained(k.space) && Seed(k.entry) == k.space
  }

  /** The entry has fallen behind: from now on it can only be a later part of the list, or nothing. */
  ghost predicate Behind(k: Known) {
    |Seed(k.entry).segments| < |k.space.segments|
  }

  /** Refresh `i` of a run found the recording still running, or there was nothing to cache anyway. */
  ghost predicate NothingLost(baseDir: string, k: Known, rs: seq<Reply>, i: nat)
    requires i < |rs|
  {
    rs[i].Unreachable? || rs[i].stillInProgress || RefreshAll(baseDir, k, rs[..i + 1]).space.segments == []
  }

  lemma RefreshInStep(baseDir: string, k: Known, r: Reply)
    requires InStep(k)
    ensures var after := Refresh(baseDir, k, r);
      if r.Unreachable? || r.stillInProgress || after.space.segments == [] then InStep(after) else Behind(after)
  {
    if r.Fetched? {
      var pending := Pending(Items(baseDir, r.lines), |k.space.segments|);
      AppendKeepsChained(k.space, pending, |pending|, r.probe);
      var after := Refresh(baseDir, k, r);
      if |after.space.segments| == |k.space.segments| {
        SameLengthSame(k.space, pending, |pending|, r.probe);
      } else if k.space.segments == [] {
        assert after.space.segments[0..] == after.space.segments;
      }
    }
  }

  lemma {:induction false} SameLengthSame(sp: RecSpace, pending: seq<Item>, n: nat, probe: string -> int)
    requires n <= |pending| && |AppendProbed(sp, pending, n, probe).segments| == |sp.segments|
    ensures AppendProbed(sp, pending, n, probe) == sp
  {
    if n > 0 {
      AppendExtends(sp, pending, n - 1, probe);
      SameLengthSame(sp, pending, n - 1, probe);
    }
  }

  lemma BehindStaysBehind(baseDir: string, k: Known, r: Reply)
    requires Behind(k)
    ensures Behind(Refresh(baseDir, k, r))
  {
  }

  /** The cached entry equals the stream's own segments and totals after a run of refreshes exactly when every refresh
      that reported the recording finished, rightly or by a failed lookup, had nothing listed. */
  lemma {:induction false} InStepExactly(baseDir: string, k: Known, rs: seq<Reply>)
    requires InStep(k)
    ensures InStep(RefreshAll(baseDir, k, rs)) <==> forall i :: 0 <= i < |rs| ==> NothingLost(baseDir, k, rs, i)
    ensures InStep(RefreshAll(baseDir, k, rs)) || Behind(RefreshAll(baseDir, k, rs))
  {
    if rs != [] {
      var n := |rs| - 1;
      var before := RefreshAll(baseDir, k, rs[..n]);
      InStepExactly(baseDir, k, rs[..n]);
      assert rs[..n + 1] == rs;
      forall i | 0 <= i < n
        ensures NothingLost(baseDir, k, rs[..n], i) == NothingLost(baseDir, k, rs, i)
      {
        assert rs[..n][..i + 1] == rs[..i + 1];
      }
      if InStep(before) {
        RefreshInStep(baseDir, before, rs[n]);
        assert NothingLost(baseDir, k, rs, n) || Behind(RefreshAll(baseDir, k, rs));
      } else {
        BehindStaysBehind(baseDir, before, rs[n]);
        assert !forall i :: 0 <= i < n ==> NothingLost(baseDir, k, rs[..n], i);
      }
    }
  }

  /** How many segments were listed when the recording's entry was last erased; 0 if it never was. */
  function ErasedAt(baseDir: string, k: Known, rs: seq<Reply>): nat {
    if rs == [] then 0
    else if EndsIt(rs[|rs| - 1]) then |RefreshAll(baseDir, k, rs).space.segments|
    else ErasedAt(baseDir, k, rs[..|rs| - 1])
  }

  /** A refresh that takes the recording for finished. */
  predicate EndsIt(r: Reply) {
    r.Fetched? && !r.stillInProgress
  }

  lemma EntryStep(baseDir: string, k: Known, r: Reply, d: nat)
    requires d <= |k.space.segments| && !EndsIt(r) && EntryFrom(k, d)
    ensures d <= |Refresh(baseDir, k, r).space.segments| && EntryFrom(Refresh(baseDir, k, r), d)
  {
    if r.Fetched? {
      var pending := Pending(Items(baseDir, r.lines), |k.space.segments|);
      var space := Listed(baseDir, k.space, r);
      hide AppendProbed, Items, Pending;
      if |space.segments| == |k.space.segments| {
        SameLengthSame(k.space, pending, |pending|, r.probe);
      } else {
        assert k.space.segments[d..] + space.segments[|k.space.segments|..] == space.segments[d..];
      }
    }
  }

  /** The entry is the list without its first `d` segments, which keep their offsets, under the full totals; if that
      would list nothing there is no entry, or an empty one. */
  ghost predicate EntryFrom(k: Known, d: nat)
    requires d <= |k.space.segments|
  {
    if d == |k.space.segments| then Seed(k.entry) == Empty()
    else k.entry == Some(Space(k.space.segments[d..], k.space.totalBytes, k.space.totalDurationMs))
  }

  /** What the entry is after any run of refreshes, failures of every kind included: what was listed when it was last
      erased is missing from it for good. */
  lemma {:induction false} EntryExactly(baseDir: string, k: Known, rs: seq<Reply>)
    requires InStep(k)
    ensures ErasedAt(baseDir, k, rs) <= |RefreshAll(baseDir, k, rs).space.segments|
    ensures EntryFrom(RefreshAll(baseDir, k, rs), ErasedAt(baseDir, k, rs))
  {
    if rs == [] {
      assert k.space.segments[0..] == k.space.segments;
    } else {
      var init, last := rs[..|rs| - 1], rs[|rs| - 1];
      hide InStep, EntryFrom;
      EntryExactly(baseDir, k, init);
      if EndsIt(last) {
        ErasedEntry(baseDir, RefreshAll(baseDir, k, init), last);
      } else {
        EntryStep(baseDir, RefreshAll(baseDir, k, init), last, ErasedAt(baseDir, k, init));
      }
    }
  }

  lemma ErasedEntry(baseDir: string, k: Known, r: Reply)
    requires EndsIt(r)
    ensures var after := Refresh(baseDir, k, r); EntryFrom(after, |after.space.segments|)
  {
  }
}
