/** The plugin's get_live_manifest: parse the rolling playlist, size each listed segment through a per-worker cache,
    lay the result out. The specification functions come first, the imperative code that computes them next, and last
    the exact condition under which the cache cannot be told from its absence. */
module TimeshiftManifest {
  import opened Basics

  datatype Stamp = Stamp(mtimeNs: int, size: int)

  /** A playlist line, classified: the one numbered tag, a segment's duration, any other tag, or a segment's name. */
  datatype Line = MediaSequence(value: Option<int>) | ExtInf(durationMs: int) | Comment | Uri(name: string)

  datatype Playlist = Playlist(stamp: Stamp, lines: seq<Line>)

  /** What one manifest call finds: the tracked state and the disk. `stat` holds the files whose stat succeeds, with
      their sizes; an empty token is a missing one. */
  datatype View = View(channel: string, token: string, playlist: Option<Playlist>, alive: bool, stat: map<string, nat>)

  datatype Listed = Listed(sequence: int, name: string, durationMs: int)

  datatype Entry = Entry(sequence: int, name: string, size: nat, durationMs: int)

  datatype CacheEntry = CacheEntry(token: string, stamp: Stamp, mediaSequence: int, ordered: seq<Entry>)

  datatype ManifestSegment =
    ManifestSegment(filename: string, sequence: int, byteOffset: int, byteSize: int, timeOffsetMs: int, durationMs: int)

  datatype Reply =
    | Fatal
    | NotReady
    | NoSegments
    | Manifest(mediaSequence: int, segments: seq<ManifestSegment>, totalBytes: int, totalDurationMs: int)

  // ----- Parsing -----

  function FirstMediaSequence(lines: seq<Line>, i: nat): int
    requires i <= |lines|
    decreases |lines| - i
  {
    if i == |lines| then 0
    else match lines[i]
      case MediaSequence(Some(n)) => n
      case MediaSequence(None) => 0
      case _ => FirstMediaSequence(lines, i + 1)
  }

  predicate EntryAt(lines: seq<Line>, i: nat) {
    i + 1 < |lines| && lines[i].ExtInf? && lines[i + 1].Uri?
  }

  function Parse(lines: seq<Line>, i: nat, next: int): (r: seq<Listed>)
    ensures forall j :: 0 <= j < |r| ==> r[j].sequence == next + j
    decreases |lines| - i
  {
    if i >= |lines| then []
    else if EntryAt(lines, i) then
      [Listed(next, lines[i + 1].name, lines[i].durationMs)] + Parse(lines, i + 2, next + 1)
    else Parse(lines, i + 1, next)
  }

  function ParsePlaylist(lines: seq<Line>): (r: seq<Listed>)
    ensures forall j :: 0 <= j < |r| ==> r[j].sequence == FirstMediaSequence(lines, 0) + j
  {
    Parse(lines, 0, FirstMediaSequence(lines, 0))
  }

  /** How many of the lines before `i` are durations directly followed by a segment's name. */
  function EntriesBefore(lines: seq<Line>, i: nat): nat
    requires i <= |lines|
  {
    if i == 0 then 0
    else EntriesBefore(lines, i - 1) + if i < |lines| && lines[i - 1].ExtInf? && lines[i].Uri? then 1 else 0
  }

  /** Parsing may go on at line `i`: it is not the name of an entry whose duration is the line before. */
  predicate Between(lines: seq<Line>, i: nat) {
    i <= |lines| && (0 < i < |lines| ==> !(lines[i - 1].ExtInf? && lines[i].Uri?))
  }

  lemma SkippedPair(lines: seq<Line>, i: nat)
    requires Between(lines, i) && EntryAt(lines, i)
    ensures Between(lines, i + 2) && EntriesBefore(lines, i + 2) == EntriesBefore(lines, i) + 1
    ensures EntriesBefore(lines, i + 1) == EntriesBefore(lines, i) + 1
  {
  }

  lemma SkippedLine(lines: seq<Line>, i: nat)
    requires Between(lines, i) && i < |lines| && !EntryAt(lines, i)
    ensures Between(lines, i + 1) && EntriesBefore(lines, i + 1) == EntriesBefore(lines, i)
  {
  }

  lemma {:induction false} ParseLength(lines: seq<Line>, i: nat, next: int)
    requires Between(lines, i)
    ensures |Parse(lines, i, next)| == EntriesBefore(lines, |lines|) - EntriesBefore(lines, i)
    decreases |lines| - i
  {
    hide EntriesBefore;
    if i < |lines| {
      if EntryAt(lines, i) {
        SkippedPair(lines, i);
        ParseLength(lines, i + 2, next + 1);
      } else {
        SkippedLine(lines, i);
        ParseLength(lines, i + 1, next);
      }
    }
  }

  lemma {:induction false} ParseAt(lines: seq<Line>, i: nat, k: nat, next: int)
    requires Between(lines, i) && i <= k && EntryAt(lines, k)
    ensures var d := EntriesBefore(lines, k) - EntriesBefore(lines, i);
      && 0 <= d < |Parse(lines, i, next)|
      && Parse(lines, i, next)[d] == Listed(next + d, lines[k + 1].name, lines[k].durationMs)
    decreases |lines| - i
  {
    hide EntriesBefore, Between;
    if EntryAt(lines, i) {
      SkippedPair(lines, i);
      if k > i {
        assert k != i + 1;
        ParseAt(lines, i + 2, k, next + 1);
      }
    } else {
      SkippedLine(lines, i);
      ParseAt(lines, i + 1, k, next);
    }
  }

  /** A playlist lists exactly the durations directly followed by a name, in order, under consecutive numbers from the
      first media sequence tag on; that one counts, 0 if it is unreadable or there is none. */
  lemma ParsePlaylistExactly(lines: seq<Line>, i: nat, k: nat)
    requires i <= |lines| && forall j :: 0 <= j < i ==> !lines[j].MediaSequence?
    ensures var first, listed := FirstMediaSequence(lines, 0), ParsePlaylist(lines);
      && (i == |lines| ==> first == 0)
      && (i < |lines| && lines[i].MediaSequence? ==> first == if lines[i].value.Some? then lines[i].value.value else 0)
      && |listed| == EntriesBefore(lines, |lines|)
      && (k + 1 < |lines| && lines[k].ExtInf? && lines[k + 1].Uri? ==>
            && EntriesBefore(lines, k) < |listed|
            && listed[EntriesBefore(lines, k)]
               == Listed(first + EntriesBefore(lines, k), lines[k + 1].name, lines[k].durationMs))
  {
    hide Parse;
    SequenceSkips(lines, i);
    ParseLength(lines, 0, FirstMediaSequence(lines, 0));
    if k + 1 < |lines| && lines[k].ExtInf? && lines[k + 1].Uri? {
      ParseAt(lines, 0, k, FirstMediaSequence(lines, 0));
    }
  }

  lemma {:induction false} SequenceSkips(lines: seq<Line>, i: nat)
    requires i <= |lines| && forall k :: 0 <= k < i ==> !lines[k].MediaSequence?
    ensures FirstMediaSequence(lines, 0) == FirstMediaSequence(lines, i)
  {
    if i > 0 {
      SequenceSkips(lines, i - 1);
    }
  }

  // ----- Sizing -----

  function Lookup(ordered: seq<Entry>, sequence: int): (r: Option<Entry>)
    ensures r.Some? ==> r.value in ordered && r.value.sequence == sequence
    ensures r.None? ==> forall e <- ordered :: e.sequence != sequence
  {
    if ordered == [] then None
    else if ordered[0].sequence == sequence then Some(ordered[0])
    else Lookup(ordered[1..], sequence)
  }

  /** A cached size is reused when sequence and name match, except for the newest entry. */
  function SizeOf(item: Listed, newest: bool, known: seq<Entry>, stat: map<string, nat>): Option<nat> {
    var hit := if newest then None else Lookup(known, item.sequence);
    if hit.Some? && hit.value.name == item.name then Some(hit.value.size)
    else if item.name in stat then Some(stat[item.name])
    else None
  }

  function Resolve(parsed: seq<Listed>, n: nat, known: seq<Entry>, stat: map<string, nat>): seq<Entry>
    requires n <= |parsed|
  {
    if n == 0 then []
    else
      var item, before := parsed[n - 1], Resolve(parsed, n - 1, known, stat);
      match SizeOf(item, n == |parsed|, known, stat)
      case Some(size) => before + [Entry(item.sequence, item.name, size, item.durationMs)]
      case None => before
  }

  function Rebuild(known: seq<Entry>, v: View): CacheEntry
    requires v.playlist.Some?
  {
    var parsed := ParsePlaylist(v.playlist.value.lines);
    CacheEntry(v.token, v.playlist.value.stamp, FirstMediaSequence(v.playlist.value.lines, 0),
               Resolve(parsed, |parsed|, known, v.stat))
  }

  // ----- Laying out -----

  function BytesIn(ordered: seq<Entry>): int {
    if ordered == [] then 0 else BytesIn(ordered[..|ordered| - 1]) + ordered[|ordered| - 1].size
  }

  function MillisecondsIn(ordered: seq<Entry>): int {
    if ordered == [] then 0 else MillisecondsIn(ordered[..|ordered| - 1]) + ordered[|ordered| - 1].durationMs
  }

  function Place(e: Entry, byteOffset: int, timeOffsetMs: int): ManifestSegment {
    ManifestSegment(e.name, e.sequence, byteOffset, e.size, timeOffsetMs, e.durationMs)
  }

  function Placed(ordered: seq<Entry>): (r: seq<ManifestSegment>)
    ensures |r| == |ordered|
  {
    if ordered == [] then []
    else
      var init, last := ordered[..|ordered| - 1], ordered[|ordered| - 1];
      Placed(init) + [Place(last, BytesIn(init), MillisecondsIn(init))]
  }

  /** Every response is laid out from 0: each entry keeps its name, sequence and size and starts where the entries
      before it end. */
  lemma {:induction false} PlacedAt(ordered: seq<Entry>, i: nat)
    requires i < |ordered|
    ensures Placed(ordered)[i] == Place(ordered[i], BytesIn(ordered[..i]), MillisecondsIn(ordered[..i]))
    decreases |ordered|
  {
    var n := |ordered| - 1;
    if i < n {
      PlacedAt(ordered[..n], i);
      assert ordered[..n][..i] == ordered[..i];
    }
  }

  /** So a manifest starts at byte 0 and millisecond 0, every segment ends where the next starts, and the totals are the
      ends of the last. */
  lemma PlacedEndToEnd(ordered: seq<Entry>, i: nat)
    requires i < |ordered|
    ensures var r, e := Placed(ordered), ordered[i];
      && (i == 0 ==> r[0].byteOffset == 0 && r[0].timeOffsetMs == 0)
      && (i + 1 < |r| ==> r[i + 1].byteOffset == r[i].byteOffset + e.size &&
                          r[i + 1].timeOffsetMs == r[i].timeOffsetMs + e.durationMs)
      && (i + 1 == |r| ==> BytesIn(ordered) == r[i].byteOffset + e.size &&
                           MillisecondsIn(ordered) == r[i].timeOffsetMs + e.durationMs)
  {
    PlacedAt(ordered, i);
    assert ordered[..i + 1][..i] == ordered[..i];
    if i + 1 < |ordered| {
      PlacedAt(ordered, i + 1);
    } else {
      assert ordered[..i + 1] == ordered;
    }
  }

  function Build(mediaSequence: int, ordered: seq<Entry>): Reply {
    if ordered == [] then NoSegments
    else Manifest(mediaSequence, Placed(ordered), BytesIn(ordered), MillisecondsIn(ordered))
  }

  // ----- One call -----

  /** A cached entry counts only for the buffer instance it was built from. */
  function Trusted(cached: Option<CacheEntry>, token: string): Option<CacheEntry> {
    if cached.Some? && token != "" && cached.value.token == token then cached else None
  }

  function Answer(cached: Option<CacheEntry>, v: View): (Reply, Option<CacheEntry>) {
    if v.playlist.None? then (if v.alive then NotReady else Fatal, cached)
    else
      var trusted := Trusted(cached, v.token);
      if trusted.Some? && trusted.value.stamp == v.playlist.value.stamp then
        (Build(trusted.value.mediaSequence, trusted.value.ordered), cached)
      else
        var entry := Rebuild(if trusted.Some? then trusted.value.ordered else [], v);
        (Build(entry.mediaSequence, entry.ordered), Some(entry))
  }

  /** Whatever is cached, a request is answered finally exactly when there is no playlist and the process is dead, and
      put off exactly when there is none yet and it is running. */
  lemma FinalExactly(cached: Option<CacheEntry>, v: View)
    ensures Answer(cached, v).0 == Fatal <==> v.playlist.None? && !v.alive
    ensures Answer(cached, v).0 == NotReady <==> v.playlist.None? && v.alive
  {
  }

  /** What a worker that has never seen the channel answers. */
  function Cold(v: View): Reply {
    Answer(None, v).0
  }

  function ColdEntry(v: View): CacheEntry
    requires v.playlist.Some?
  {
    Rebuild([], v)
  }

  // ----- The imperative code -----

  method ParseLines(lines: seq<Line>) returns (mediaSequence: int, parsed: seq<Listed>)
    ensures mediaSequence == FirstMediaSequence(lines, 0)
    ensures parsed == ParsePlaylist(lines)
  {
    mediaSequence := 0;
    for k := 0 to |lines|
      invariant FirstMediaSequence(lines, 0) == FirstMediaSequence(lines, k)
      invariant mediaSequence == 0
    {
      if lines[k].MediaSequence? {
        if lines[k].value.Some? {
          mediaSequence := lines[k].value.value;
        }
        break;
      }
    }
    parsed := [];
    var listIndex, i := 0, 0;
    while i < |lines|
      invariant listIndex == |parsed|
      invariant ParsePlaylist(lines) == parsed + Parse(lines, i, mediaSequence + listIndex)
      decreases |lines| - i
    {
      if lines[i].ExtInf? && i + 1 < |lines| && lines[i + 1].Uri? {
        parsed := parsed + [Listed(mediaSequence + listIndex, lines[i + 1].name, lines[i].durationMs)];
        listIndex := listIndex + 1;
        i := i + 2;
      } else {
        i := i + 1;
      }
    }
  }

  method ResolveSizes(parsed: seq<Listed>, known: seq<Entry>, stat: map<string, nat>) returns (ordered: seq<Entry>)
    ensures ordered == Resolve(parsed, |parsed|, known, stat)
  {
    ordered := [];
    var newestIndex := |parsed| - 1;
    for idx := 0 to |parsed|
      invariant ordered == Resolve(parsed, idx, known, stat)
    {
      var item := parsed[idx];
      var reusable := if idx == newestIndex then None else Lookup(known, item.sequence);
      if reusable.Some? && reusable.value.name == item.name {
        ordered := ordered + [Entry(item.sequence, item.name, reusable.value.size, item.durationMs)];
      } else if item.name in stat {
        ordered := ordered + [Entry(item.sequence, item.name, stat[item.name], item.durationMs)];
      }
    }
  }

  method LayOut(mediaSequence: int, ordered: seq<Entry>) returns (r: Reply)
    ensures r == Build(mediaSequence, ordered)
  {
    if ordered == [] {
      return NoSegments;
    }
    var segments, cumulativeBytes, cumulativeMs := [], 0, 0;
    for i := 0 to |ordered|
      invariant segments == Placed(ordered[..i])
      invariant cumulativeBytes == BytesIn(ordered[..i]) && cumulativeMs == MillisecondsIn(ordered[..i])
    {
      assert ordered[..i + 1][..i] == ordered[..i];
      segments := segments + [Place(ordered[i], cumulativeBytes, cumulativeMs)];
      cumulativeBytes := cumulativeBytes + ordered[i].size;
      cumulativeMs := cumulativeMs + ordered[i].durationMs;
    }
    assert ordered[..|ordered|] == ordered;
    return Manifest(mediaSequence, segments, cumulativeBytes, cumulativeMs);
  }

  function CachedFor(cache: map<string, CacheEntry>, channel: string): Option<CacheEntry> {
    if channel in cache then Some(cache[channel]) else None
  }

  /** One worker process's `_manifest_cache`. */
  class ManifestCache {
    var cache: map<string, CacheEntry>

    constructor ()
      ensures cache == map[]
    {
      cache := map[];
    }

    method GetLiveManifest(v: View) returns (r: Reply)
      modifies this
      ensures r == Answer(CachedFor(old(cache), v.channel), v).0
      ensures CachedFor(cache, v.channel) == Answer(CachedFor(old(cache), v.channel), v).1
      ensures cache - {v.channel} == old(cache) - {v.channel}
    {
      if v.playlist.None? {
        return if v.alive then NotReady else Fatal;
      }
      var found := Trusted(CachedFor(cache, v.channel), v.token);
      var mediaSequence, ordered;
      if found.Some? && found.value.stamp == v.playlist.value.stamp {
        mediaSequence, ordered := found.value.mediaSequence, found.value.ordered;
      } else {
        var parsed;
        mediaSequence, parsed := ParseLines(v.playlist.value.lines);
        ordered := ResolveSizes(parsed, if found.Some? then found.value.ordered else [], v.stat);
        cache := cache[v.channel := CacheEntry(v.token, v.playlist.value.stamp, mediaSequence, ordered)];
      }
      r := LayOut(mediaSequence, ordered);
    }

    /** What deleting a buffer's state does to the worker that deletes it. */
    method Forget(channel: string)
      modifies this
      ensures cache == old(cache) - {channel}
      ensures forall v: View ::
                if v.channel == channel then Answer(CachedFor(cache, v.channel), v).0 == Cold(v)
                else CachedFor(cache, v.channel) == CachedFor(old(cache), v.channel)
    {
      cache := cache - {channel};
    }
  }

  // ----- Manifest shape -----

  ghost predicate Ascending(ordered: seq<Entry>) {
    forall i, j :: 0 <= i < j < |ordered| ==> ordered[i].sequence < ordered[j].sequence
  }

  lemma {:induction false} ResolveAscends(parsed: seq<Listed>, first: int, n: nat, known: seq<Entry>,
                                          stat: map<string, nat>)
    requires n <= |parsed| && forall j :: 0 <= j < |parsed| ==> parsed[j].sequence == first + j
    ensures Ascending(Resolve(parsed, n, known, stat))
    ensures forall e <- Resolve(parsed, n, known, stat) :: first <= e.sequence < first + n
  {
    if n > 0 {
      ResolveAscends(parsed, first, n - 1, known, stat);
    }
  }

  lemma {:induction false} ResolveHas(parsed: seq<Listed>, n: nat, i: nat, known: seq<Entry>, stat: map<string, nat>)
    requires i < n <= |parsed|
    requires SizeOf(parsed[i], i == |parsed| - 1, known, stat).Some?
    ensures Entry(parsed[i].sequence, parsed[i].name, SizeOf(parsed[i], i == |parsed| - 1, known, stat).value,
        parsed[i].durationMs)
            in Resolve(parsed, n, known, stat)
  {
    if i < n - 1 {
      ResolveHas(parsed, n - 1, i, known, stat);
    }
  }

  lemma {:induction false} ResolveOnly(parsed: seq<Listed>, n: nat, e: Entry, known: seq<Entry>, stat: map<string, nat>)
    requires n <= |parsed| && e in Resolve(parsed, n, known, stat)
    ensures exists i :: 0 <= i < n && parsed[i].sequence == e.sequence && parsed[i].name == e.name &&
              SizeOf(parsed[i], i == |parsed| - 1, known, stat) == Some(e.size)
  {
    if e in Resolve(parsed, n - 1, known, stat) {
      ResolveOnly(parsed, n - 1, e, known, stat);
    } else {
      assert parsed[n - 1].sequence == e.sequence;
    }
  }

  lemma AscendingLookup(ordered: seq<Entry>, e: Entry)
    requires Ascending(ordered) && e in ordered
    ensures Lookup(ordered, e.sequence) == Some(e)
  {
  }

  lemma PlacedInjective(a: seq<Entry>, b: seq<Entry>)
    requires Placed(a) == Placed(b)
    ensures a == b
  {
    assert |a| == |Placed(a)| == |b|;
    forall i | 0 <= i < |a|
      ensures a[i] == b[i]
    {
      PlacedAt(a, i);
      PlacedAt(b, i);
    }
  }

  // ----- Cache transparency -----

  datatype Event = Call(worker: nat, view: View) | Drop(worker: nat, channel: string)

  type Caches = map<(nat, string), CacheEntry>

  function Slot(c: Caches, worker: nat, channel: string): Option<CacheEntry> {
    if (worker, channel) in c then Some(c[(worker, channel)]) else None
  }

  function Step(c: Caches, e: Event): Caches {
    match e
    case Drop(w, channel) => c - {(w, channel)}
    case Call(w, v) =>
      match Answer(Slot(c, w, v.channel), v).1
      case Some(entry) => c[(w, v.channel) := entry]
      case None => c
  }

  function After(run: seq<Event>): Caches {
    if run == [] then map[] else Step(After(run[..|run| - 1]), run[|run| - 1])
  }

  ghost predicate AnswersCold(run: seq<Event>, i: nat)
    requires i < |run|
  {
    run[i].Call? ==>
      Answer(Slot(After(run[..i]), run[i].worker, run[i].view.channel), run[i].view).0 == Cold(run[i].view)
  }

  ghost predicate Transparent(run: seq<Event>) {
    forall i :: 0 <= i < |run| ==> AnswersCold(run, i)
  }

  ghost predicate Over(run: seq<Event>, views: View -> bool) {
    forall e <- run :: e.Call? ==> views(e.view)
  }

  /** `u` lists that sequence number under that name, and the file is there. */
  ghost predicate Lists(u: View, sequence: int, name: string)
    requires u.playlist.Some?
  {
    && name in u.stat
    && exists j :: 0 <= j < |ParsePlaylist(u.playlist.value.lines)| &&
                   ParsePlaylist(u.playlist.value.lines)[j].sequence == sequence &&
                   ParsePlaylist(u.playlist.value.lines)[j].name == name
  }

  /** The first `n` listed segments whose files are there. */
  function Existing(parsed: seq<Listed>, n: nat, stat: map<string, nat>): (r: seq<Listed>)
    requires n <= |parsed|
    ensures forall item <- r :: item.name in stat
  {
    if n == 0 then []
    else
      var before := Existing(parsed, n - 1, stat);
      if parsed[n - 1].name in stat then before + [parsed[n - 1]] else before
  }

  function ExistingIn(v: View): (r: seq<Listed>)
    requires v.playlist.Some?
    ensures forall item <- r :: item.name in v.stat
  {
    var parsed := ParsePlaylist(v.playlist.value.lines);
    Existing(parsed, |parsed|, v.stat)
  }

  /** The same segments exist, under the same numbers, names and durations and at the same sizes, and if any do, the
      playlists count from the same number. */
  ghost predicate SameListing(u: View, v: View)
    requires u.playlist.Some? && v.playlist.Some?
  {
    && ExistingIn(u) == ExistingIn(v)
    && (forall item <- ExistingIn(u) :: u.stat[item.name] == v.stat[item.name])
    && (ExistingIn(u) != [] ==>
          FirstMediaSequence(u.playlist.value.lines, 0) == FirstMediaSequence(v.playlist.value.lines, 0))
  }

  /** Two looks at the same buffer instance: an unchanged playlist stamp means the same existing segments at the same
      sizes, and a segment listed in both under one name, below the newest of the second, has the size it had in the
      first. */
  ghost predicate Agree(u: View, v: View) {
    u.channel == v.channel && u.token == v.token != "" && u.playlist.Some? && v.playlist.Some? ==>
      if u.playlist.value.stamp == v.playlist.value.stamp then SameListing(u, v)
      else
        var parsed := ParsePlaylist(v.playlist.value.lines);
        forall i :: 0 <= i < |parsed| - 1 && Lists(u, parsed[i].sequence, parsed[i].name) ==>
          parsed[i].name in v.stat && v.stat[parsed[i].name] == u.stat[parsed[i].name]
  }

  lemma {:induction false} ColdIsExisting(parsed: seq<Listed>, n: nat, stat: map<string, nat>)
    requires n <= |parsed|
    ensures |Resolve(parsed, n, [], stat)| == |Existing(parsed, n, stat)|
    ensures forall i :: 0 <= i < |Existing(parsed, n, stat)| ==>
              var item := Existing(parsed, n, stat)[i];
              Resolve(parsed, n, [], stat)[i] == Entry(item.sequence, item.name, stat[item.name], item.durationMs)
  {
    if n > 0 {
      ColdIsExisting(parsed, n - 1, stat);
    }
  }

  /** Two looks give the same manifest without a cache exactly when they find the same listing. */
  lemma SameColdExactly(u: View, v: View)
    requires u.playlist.Some? && v.playlist.Some?
    ensures Cold(u) == Cold(v) <==> SameListing(u, v)
  {
    hide Existing, ParsePlaylist, FirstMediaSequence, Resolve, Placed;
    var a, b := ParsePlaylist(u.playlist.value.lines), ParsePlaylist(v.playlist.value.lines);
    ColdIsExisting(a, |a|, u.stat);
    ColdIsExisting(b, |b|, v.stat);
    var x, y := ColdEntry(u).ordered, ColdEntry(v).ordered;
    if Cold(u) == Cold(v) {
      assert x == y by {
        if x != [] && y != [] {
          PlacedInjective(x, y);
        }
      }
      forall i | 0 <= i < |x|
        ensures ExistingIn(u)[i] == ExistingIn(v)[i] && u.stat[ExistingIn(u)[i].name] == v.stat[ExistingIn(v)[i].name]
      {
        assert x[i] == y[i];
      }
    }
    if SameListing(u, v) {
      forall i | 0 <= i < |x|
        ensures x[i] == y[i]
      {
        assert ExistingIn(u)[i] in ExistingIn(u);
      }
      assert x == y;
      assert Cold(u) == Build(FirstMediaSequence(u.playlist.value.lines, 0), x);
      assert Cold(v) == Build(FirstMediaSequence(v.playlist.value.lines, 0), y);
    }
  }

  lemma ColdHits(u: View, sequence: int, name: string)
    requires u.playlist.Some?
    ensures var hit := Lookup(ColdEntry(u).ordered, sequence);
      (hit.Some? && hit.value.name == name) == Lists(u, sequence, name) &&
      (hit.Some? && hit.value.name == name ==> hit.value.size == u.stat[name])
  {
    var parsed := ParsePlaylist(u.playlist.value.lines);
    var ordered := Resolve(parsed, |parsed|, [], u.stat);
    var hit := Lookup(ordered, sequence);
    if hit.Some? {
      ResolveOnly(parsed, |parsed|, hit.value, [], u.stat);
    }
    if Lists(u, sequence, name) {
      var j :| 0 <= j < |parsed| && parsed[j].sequence == sequence && parsed[j].name == name;
      ResolveHas(parsed, |parsed|, j, [], u.stat);
      ResolveAscends(parsed, FirstMediaSequence(u.playlist.value.lines, 0), |parsed|, [], u.stat);
      AscendingLookup(ordered, Entry(sequence, name, u.stat[name], parsed[j].durationMs));
    }
  }

  lemma {:induction false} AgreedSizes(u: View, v: View, n: nat)
    requires u.channel == v.channel && u.token == v.token != "" && u.playlist.Some? && v.playlist.Some?
    requires u.playlist.value.stamp != v.playlist.value.stamp && Agree(u, v)
    requires n <= |ParsePlaylist(v.playlist.value.lines)|
    ensures var parsed := ParsePlaylist(v.playlist.value.lines);
      Resolve(parsed, n, ColdEntry(u).ordered, v.stat) == Resolve(parsed, n, [], v.stat)
  {
    if n > 0 {
      AgreedSizes(u, v, n - 1);
      var item := ParsePlaylist(v.playlist.value.lines)[n - 1];
      ColdHits(u, item.sequence, item.name);
    }
  }

  /** One call: a cache left by `u` answers `v` like no cache at all, and leaves what `u` or `v` would leave. */
  lemma AgreedAnswer(u: View, v: View)
    requires u.playlist.Some? && u.channel == v.channel && Agree(u, v)
    ensures Answer(Some(ColdEntry(u)), v).0 == Cold(v)
    ensures Answer(Some(ColdEntry(u)), v).1 == Some(ColdEntry(u)) ||
            (v.playlist.Some? && Answer(Some(ColdEntry(u)), v).1 == Some(ColdEntry(v)))
  {
    if v.playlist.Some? && u.token == v.token != "" {
      if u.playlist.value.stamp == v.playlist.value.stamp {
        SameColdExactly(u, v);
      } else {
        AgreedSizes(u, v, |ParsePlaylist(v.playlist.value.lines)|);
      }
    }
  }

  ghost predicate LeftByOne(entry: CacheEntry, channel: string, views: View -> bool) {
    exists u: View :: views(u) && u.channel == channel && u.playlist.Some? && entry == ColdEntry(u)
  }

  ghost predicate LeftBy(c: Caches, views: View -> bool) {
    forall key <- c :: LeftByOne(c[key], key.1, views)
  }

  lemma CallKeepsCold(c: Caches, worker: nat, v: View, views: View -> bool)
    requires LeftBy(c, views) && views(v) && AllAgree(views)
    ensures LeftBy(Step(c, Call(worker, v)), views)
    ensures Answer(Slot(c, worker, v.channel), v).0 == Cold(v)
  {
    var key := (worker, v.channel);
    var after := Step(c, Call(worker, v));
    if key in c {
      assert LeftByOne(c[key], v.channel, views);
      var u: View :| views(u) && u.channel == v.channel && u.playlist.Some? && c[key] == ColdEntry(u);
      AgreedAnswer(u, v);
    }
    forall k <- after
      ensures LeftByOne(after[k], k.1, views)
    {
      if k != key || (key in c && after[key] == c[key]) {
        assert LeftByOne(c[k], k.1, views);
      } else {
        assert after[k] == ColdEntry(v);
      }
    }
  }

  ghost predicate AllAgree(views: View -> bool) {
    forall u, v :: views(u) && views(v) ==> Agree(u, v)
  }

  lemma OneMoreAnswer(run: seq<Event>, e: Event)
    requires Transparent(run) && AnswersCold(run + [e], |run|)
    ensures Transparent(run + [e])
  {
    forall i | 0 <= i < |run|
      ensures AnswersCold(run + [e], i)
    {
      assert AnswersCold(run, i) && run[..i] == (run + [e])[..i];
    }
  }

  lemma {:induction false} CachesAreCold(run: seq<Event>, views: View -> bool)
    requires Over(run, views) && AllAgree(views)
    ensures LeftBy(After(run), views) && Transparent(run)
  {
    if run != [] {
      var init, e := run[..|run| - 1], run[|run| - 1];
      assert run == init + [e] && (init + [e])[..|init|] == init;
      assert Over(init, views) && (e.Call? ==> views(e.view)) by {
        assert e in run && forall x <- init :: x in run;
      }
      CachesAreCold(init, views);
      assert LeftBy(After(run), views) && AnswersCold(init + [e], |init|) by {
        if e.Call? {
          CallKeepsCold(After(init), e.worker, e.view, views);
        }
      }
      OneMoreAnswer(init, e);
    }
  }

  /** Two calls on one worker already tell whether the two views agree. */
  lemma DisagreementShows(u: View, v: View)
    requires u.channel == v.channel && u.token == v.token != "" && u.playlist.Some? && v.playlist.Some?
    requires Answer(Some(ColdEntry(u)), v).0 == Cold(v)
    ensures Agree(u, v)
  {
    if u.playlist.value.stamp == v.playlist.value.stamp {
      SameColdExactly(u, v);
    } else {
      var parsed := ParsePlaylist(v.playlist.value.lines);
      var known := ColdEntry(u).ordered;
      var warm, cold := Resolve(parsed, |parsed|, known, v.stat), Resolve(parsed, |parsed|, [], v.stat);
      assert warm == cold by {
        if warm != [] && cold != [] {
          PlacedInjective(warm, cold);
        }
      }
      forall i | 0 <= i < |parsed| - 1 && Lists(u, parsed[i].sequence, parsed[i].name)
        ensures parsed[i].name in v.stat && v.stat[parsed[i].name] == u.stat[parsed[i].name]
      {
        ColdHits(u, parsed[i].sequence, parsed[i].name);
        ResolveHas(parsed, |parsed|, i, known, v.stat);
        var e := Entry(parsed[i].sequence, parsed[i].name, u.stat[parsed[i].name], parsed[i].durationMs);
        assert e in warm;
        ResolveOnly(parsed, |parsed|, e, [], v.stat);
      }
    }
  }

  lemma TransparencyNeedsAgreement(u: View, v: View)
    requires Transparent([Call(0, u), Call(0, v)])
    ensures Agree(u, v)
  {
    if u.channel == v.channel && u.token == v.token != "" && u.playlist.Some? && v.playlist.Some? {
      var run := [Call(0, u), Call(0, v)];
      assert AnswersCold(run, 1);
      assert run[..1] == [Call(0, u)] && run[..1][..0] == [];
      assert After(run[..1]) == map[(0, u.channel) := ColdEntry(u)];
      DisagreementShows(u, v);
    }
  }

  /** The cache is invisible in every run over a family of views, on any workers and with any cache losses, exactly
      when the views of the family agree pairwise. */
  lemma CacheTransparency(views: View -> bool)
    ensures (forall run :: Over(run, views) ==> Transparent(run)) <==> AllAgree(views)
  {
    if AllAgree(views) {
      forall run | Over(run, views)
        ensures Transparent(run)
      {
        CachesAreCold(run, views);
      }
    }
    if forall run :: Over(run, views) ==> Transparent(run) {
      forall u, v | views(u) && views(v)
        ensures Agree(u, v)
      {
        assert Over([Call(0, u), Call(0, v)], views);
        TransparencyNeedsAgreement(u, v);
      }
    }
  }

  function ListingOne(a: string): seq<Line> {
    [MediaSequence(Some(0)), ExtInf(2000), Uri(a)]
  }

  function ListingTwo(a: string, b: string): seq<Line> {
    [MediaSequence(Some(0)), ExtInf(2000), Uri(a), ExtInf(2000), Uri(b)]
  }

  lemma ParseListings(a: string, b: string)
    ensures ParsePlaylist(ListingOne(a)) == [Listed(0, a, 2000)]
    ensures ParsePlaylist(ListingTwo(a, b)) == [Listed(0, a, 2000), Listed(1, b, 2000)]
  {
    assert Parse(ListingOne(a), 1, 0) == [Listed(0, a, 2000)];
    assert Parse(ListingTwo(a, b), 3, 1) == [Listed(1, b, 2000)];
    assert Parse(ListingTwo(a, b), 1, 0) == [Listed(0, a, 2000), Listed(1, b, 2000)];
  }

  /** The manifest of one segment, or of two. */
  function OneListed(a: string, size: nat): Reply {
    Manifest(0, [ManifestSegment(a, 0, 0, size, 0, 2000)], size, 2000)
  }

  function TwoListed(a: string, sizeA: nat, b: string, sizeB: nat): Reply {
    Manifest(0, [ManifestSegment(a, 0, 0, sizeA, 0, 2000), ManifestSegment(b, 1, sizeA, sizeB, 2000, 2000)],
             sizeA + sizeB, 4000)
  }

  lemma BuiltListings(a: string, sizeA: nat, b: string, sizeB: nat)
    ensures Build(0, [Entry(0, a, sizeA, 2000)]) == OneListed(a, sizeA)
    ensures Build(0, [Entry(0, a, sizeA, 2000), Entry(1, b, sizeB, 2000)]) == TwoListed(a, sizeA, b, sizeB)
  {
    var one, two := [Entry(0, a, sizeA, 2000)], [Entry(0, a, sizeA, 2000), Entry(1, b, sizeB, 2000)];
    assert two[..1] == one && one[..0] == [];
    assert BytesIn(one) == sizeA && MillisecondsIn(one) == 2000;
    assert BytesIn(two) == sizeA + sizeB && MillisecondsIn(two) == 4000;
    assert Placed(one) == [ManifestSegment(a, 0, 0, sizeA, 0, 2000)];
  }

  lemma ResolvedListings(u: View, known: seq<Entry>, a: string, b: string)
    requires u.playlist.Some? && a in u.stat
    ensures u.playlist.value.lines == ListingOne(a) ==>
      Rebuild(known, u).mediaSequence == 0 && Rebuild(known, u).ordered == [Entry(0, a, u.stat[a], 2000)]
    ensures u.playlist.value.lines == ListingTwo(a, b) && b in u.stat ==>
      && Rebuild(known, u).mediaSequence == 0
      && (known == [] ==> Rebuild(known, u).ordered == [Entry(0, a, u.stat[a], 2000), Entry(1, b, u.stat[b], 2000)])
      && forall size: nat :: known == [Entry(0, a, size, 2000)] ==>
           Rebuild(known, u).ordered == [Entry(0, a, size, 2000), Entry(1, b, u.stat[b], 2000)]
  {
    ParseListings(a, b);
    var one, two := [Listed(0, a, 2000)], [Listed(0, a, 2000), Listed(1, b, 2000)];
    assert Resolve(one, 0, known, u.stat) == [] && Resolve(two, 0, known, u.stat) == [];
    assert Resolve(one, 1, known, u.stat) == [Entry(0, a, u.stat[a], 2000)];
    if u.playlist.value.lines == ListingTwo(a, b) && b in u.stat {
      assert known == [] ==> Resolve(two, 1, known, u.stat) == [Entry(0, a, u.stat[a], 2000)];
      forall size: nat | known == [Entry(0, a, size, 2000)]
        ensures Resolve(two, 1, known, u.stat) == [Entry(0, a, size, 2000)]
      {
      }
    }
  }

  /** Sizes that are not final once listed do show: `a` is sampled at one size while it is the newest entry, has
      another when `b` has joined it, and the warm cache still answers the first size and places `b` by it. */
  lemma StaleSizeShows(u: View, v: View, a: string, b: string)
    requires u.channel == v.channel && u.token == v.token != "" && u.playlist.Some? && v.playlist.Some?
    requires u.playlist.value.stamp != v.playlist.value.stamp
    requires u.playlist.value.lines == ListingOne(a) && v.playlist.value.lines == ListingTwo(a, b)
    requires a in u.stat && a in v.stat && b in v.stat
    ensures Answer(Some(ColdEntry(u)), v).0 == TwoListed(a, u.stat[a], b, v.stat[b])
    ensures Cold(v) == TwoListed(a, v.stat[a], b, v.stat[b])
  {
    hide ParsePlaylist, FirstMediaSequence, Resolve, Rebuild, Build;
    RebuiltStamp(u);
    ResolvedListings(u, [], a, b);
    ResolvedListings(v, [], a, b);
    ResolvedListings(v, [Entry(0, a, u.stat[a], 2000)], a, b);
    BuiltListings(a, u.stat[a], b, v.stat[b]);
    BuiltListings(a, v.stat[a], b, v.stat[b]);
  }

  /** Nor is the newest entry always looked at again: as long as the playlist keeps its stamp, its file may grow, and
      the size it had at the first look is answered. */
  lemma StaleNewestShows(u: View, v: View, a: string)
    requires u.channel == v.channel && u.token == v.token != "" && u.playlist.Some? && u.playlist == v.playlist
    requires u.playlist.value.lines == ListingOne(a) && a in u.stat && a in v.stat
    ensures Answer(Some(ColdEntry(u)), v).0 == OneListed(a, u.stat[a])
    ensures Cold(v) == OneListed(a, v.stat[a])
  {
    hide ParsePlaylist, FirstMediaSequence, Resolve, Rebuild, Build;
    ResolvedListings(u, [], a, a);
    ResolvedListings(v, [], a, a);
    BuiltListings(a, u.stat[a], a, 0);
    BuiltListings(a, v.stat[a], a, 0);
    RebuiltStamp(u);
  }

  lemma RebuiltStamp(u: View)
    requires u.playlist.Some?
    ensures ColdEntry(u).stamp == u.playlist.value.stamp && ColdEntry(u).token == u.token
  {
  }
}
