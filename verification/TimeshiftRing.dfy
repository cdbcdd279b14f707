/** The encoder's ring of segment files, the playlist it writes, and the file server in front of them. */
module TimeshiftRing {
  import opened Basics
  import opened Decimal
  import opened TimeshiftManifest

  function SegmentName(slot: nat): string {
    "seg_" + Padded(slot, 5) + ".ts"
  }

  lemma SegmentNameInjective(a: nat, b: nat)
    requires SegmentName(a) == SegmentName(b)
    ensures a == b
  {
    ValueOfPadded(a, 5);
    ValueOfPadded(b, 5);
    var s, t := SegmentName(a), SegmentName(b);
    assert s[4..|s| - 3] == Padded(a, 5) && t[4..|t| - 3] == Padded(b, 5);
  }

  /** A name is the slot's number, in five digits up to 99999, between "seg_" and ".ts". */
  lemma SegmentNameExactly(slot: nat)
    ensures var s := SegmentName(slot);
      && |s| >= 12 && s[..4] == ['s', 'e', 'g', '_'] && s[|s| - 3..] == ['.', 't', 's']
      && AllDigits(s[4..|s| - 3]) && Value(s[4..|s| - 3]) == slot && (slot < 100000 ==> |s| == 12)
  {
    ValueOfPadded(slot, 5);
    if slot < 100000 {
      assert Pow10(5) == 10 * Pow10(4) == 100 * Pow10(3) == 1000 * Pow10(2) == 10000 * Pow10(1) == 100000;
      PaddedWidth(slot, 5);
    }
    var s := SegmentName(slot);
    assert s[4..|s| - 3] == Padded(slot, 5);
  }

  // ----- Ring sizes -----

  function FloorDiv(a: int, b: int): int
    requires b != 0
  {
    if b > 0 then a / b else (-a) / (-b)
  }

  /** How many segments the playlist shows and after how many a file name comes round again. */
  function RingSizes(bufferMinutes: int, segmentSeconds: int): Option<(nat, nat)> {
    if segmentSeconds == 0 then None
    else
      var visible := Max(1, FloorDiv(bufferMinutes * 60, segmentSeconds));
      Some((visible, visible * 2))
  }

  /** Every setting but a segment length of zero gives a ring: as many segments as fill the configured minutes, at least
      one, and twice as many file names. */
  lemma RingSizesFit(bufferMinutes: int, segmentSeconds: int, token: string)
    ensures RingSizes(bufferMinutes, segmentSeconds).Some? <==> segmentSeconds != 0
    ensures var sizes := RingSizes(bufferMinutes, segmentSeconds);
      sizes.Some? ==>
        && sizes.value.0 > 0 && StartEncoder(token, sizes.value.0).Wrap() == sizes.value.1
        && (segmentSeconds > 0 && bufferMinutes * 60 < segmentSeconds ==> sizes.value.0 == 1)
        && (segmentSeconds > 0 && bufferMinutes * 60 >= segmentSeconds ==>
              sizes.value.0 * segmentSeconds <= bufferMinutes * 60 < (sizes.value.0 + 1) * segmentSeconds)
  {
    if segmentSeconds > 0 {
      QuotientFits(bufferMinutes * 60, segmentSeconds);
    }
  }

  lemma QuotientFits(x: int, d: int)
    requires d > 0
    ensures x / d * d <= x < (x / d + 1) * d
    ensures x < d ==> x / d < 1
    ensures x >= d ==> x / d >= 1
  {
    var q := x / d;
    assert x == q * d + x % d;
    MultipleBounds(q, d);
    MultipleBounds(-q, d);
  }

  // ----- The encoder -----

  datatype Closed = Closed(body: Bytes, durationMs: int, stamp: Stamp)

  /** One buffer instance. Segment |closed| is the one being written. `stamp` is what the playlist file looked like to
      stat right after the segment was listed. */
  datatype Encoder = Encoder(token: string, visible: nat, closed: seq<Closed>, disk: map<string, Bytes>) {
    function Wrap(): nat { 2 * visible }

    function NameOf(k: nat): string
      requires visible > 0
    {
      SegmentName(k % Wrap())
    }

    function FirstListed(): nat {
      if |closed| > visible then |closed| - visible else 0
    }

    /** File names come round late enough: every segment fewer than `Wrap()` behind the writer is on disk as it was
        closed. Playlist stamps never repeat. */
    ghost predicate Valid() {
      && visible > 0 && token != ""
      && NameOf(|closed|) in disk
      && (forall k: nat :: k < |closed| && |closed| - k < Wrap() ==> Intact(k))
      && forall i, j :: 0 <= i < j < |closed| ==> closed[i].stamp != closed[j].stamp
    }

    ghost predicate Intact(k: nat)
      requires visible > 0 && k < |closed|
    {
      NameOf(k) in disk && disk[NameOf(k)] == closed[k].body
    }

    /** More bytes, or other bytes, reach the segment being written. */
    function Write(bytes: Bytes): Encoder
      requires visible > 0
    {
      this.(disk := disk[NameOf(|closed|) := bytes])
    }

    /** The segment being written is finished and listed, and the next file is opened, empty. */
    function Close(durationMs: int, stamp: Stamp): Encoder
      requires visible > 0 && NameOf(|closed|) in disk
    {
      Encoder(token, visible, closed + [Closed(disk[NameOf(|closed|)], durationMs, stamp)],
          disk[NameOf(|closed| + 1) := []])
    }
  }

  function StartEncoder(token: string, visible: nat): Encoder
    requires visible > 0
  {
    Encoder(token, visible, [], map[SegmentName(0) := []])
  }

  lemma MultipleBounds(m: int, w: int)
    requires w > 0
    ensures m >= 1 ==> m * w >= w
    ensures m <= -1 ==> m * w <= -w
  {
  }

  lemma DivisionIsUnique(x: int, m: int, r: int, w: int)
    requires 0 <= r < w && x == m * w + r
    ensures x / w == m && x % w == r
  {
    assert (x / w - m) * w == r - x % w;
    MultipleBounds(x / w - m, w);
  }

  lemma ModDiffers(a: int, b: int, w: int)
    requires w > 0
    ensures (a % w == b % w) <==> (b - a) % w == 0
    ensures 0 < b - a < w ==> a % w != b % w
  {
    if a % w == b % w {
      DivisionIsUnique(b - a, b / w - a / w, 0, w);
    }
    if (b - a) % w == 0 {
      DivisionIsUnique(b, a / w + (b - a) / w, a % w, w);
    }
    if 0 < b - a < w {
      DivisionIsUnique(b - a, 0, b - a, w);
    }
  }

  /** Segment `k`'s file is the one being written exactly when the writer is a positive multiple of the ring size
      ahead of it: first at 2 x visible, visible - 1 segments after the playlist dropped it. */
  lemma OverwrittenExactly(e: Encoder, k: nat, n: nat)
    requires e.visible > 0 && k < n
    ensures e.NameOf(n) == e.NameOf(k) <==> (n - k) % e.Wrap() == 0
  {
    ModDiffers(k, n, e.Wrap());
    if e.NameOf(n) == e.NameOf(k) {
      SegmentNameInjective(n % e.Wrap(), k % e.Wrap());
    }
  }

  lemma NamesDiffer(e: Encoder, k: nat, n: nat)
    requires e.visible > 0 && k < n && n - k < e.Wrap()
    ensures e.NameOf(k) != e.NameOf(n)
  {
    ModDiffers(k, n, e.Wrap());
    OverwrittenExactly(e, k, n);
  }

  lemma StartIsValid(token: string, visible: nat)
    requires visible > 0 && token != ""
    ensures StartEncoder(token, visible).Valid()
  {
  }

  lemma WriteKeepsValid(e: Encoder, bytes: Bytes)
    requires e.Valid()
    ensures e.Write(bytes).Valid()
  {
    hide SegmentName;
    var after := e.Write(bytes);
    forall k: nat | k < |e.closed| && |e.closed| - k < e.Wrap()
      ensures after.Intact(k)
    {
      assert e.Intact(k);
      NamesDiffer(e, k, |e.closed|);
    }
  }

  lemma CloseKeepsValid(e: Encoder, durationMs: int, stamp: Stamp)
    requires e.Valid() && forall c <- e.closed :: c.stamp != stamp
    ensures e.Close(durationMs, stamp).Valid()
  {
    hide SegmentName;
    var after, n := e.Close(durationMs, stamp), |e.closed|;
    forall k: nat | k < n + 1 && n + 1 - k < e.Wrap()
      ensures after.Intact(k)
    {
      NamesDiffer(e, k, n + 1);
      if k < n {
        assert e.Intact(k);
      }
    }
  }

  /** Ring safety: no file named in the current playlist is the one being written, all are as they were closed, and
      one that left the playlist stays so until the writer is 2 x visible past it. */
  lemma RingSafety(e: Encoder, k: nat)
    requires e.Valid() && k < |e.closed|
    ensures e.FirstListed() <= k ==> e.NameOf(k) != e.NameOf(|e.closed|) && e.Intact(k)
    ensures |e.closed| < k + 2 * e.visible ==> e.Intact(k)
  {
    if |e.closed| - k < e.Wrap() {
      NamesDiffer(e, k, |e.closed|);
    }
  }

  /** That bound is sharp: once the writer is exactly the ring size ahead, the file holds whatever was written last. */
  lemma RingBoundIsSharp(e: Encoder, k: nat, other: Bytes)
    requires e.visible > 0 && |e.closed| == k + e.Wrap()
    ensures e.NameOf(k) in e.Write(other).disk && e.Write(other).disk[e.NameOf(k)] == other
  {
    DivisionIsUnique(e.Wrap(), 1, 0, e.Wrap());
    OverwrittenExactly(e, k, |e.closed|);
  }

  // ----- The playlist -----

  function ListLines(e: Encoder, from: nat): seq<Line>
    requires e.visible > 0
    decreases |e.closed| - from
  {
    if from >= |e.closed| then []
    else [ExtInf(e.closed[from].durationMs), Uri(e.NameOf(from))] + ListLines(e, from + 1)
  }

  function PlaylistLines(e: Encoder): seq<Line>
    requires e.visible > 0
  {
    [Comment, Comment, MediaSequence(Some(e.FirstListed())), Comment, Comment] + ListLines(e, e.FirstListed())
  }

  /** What a manifest call finds on disk. The playlist appears with the first closed segment. */
  function ViewOf(e: Encoder, channel: string, alive: bool): View
    requires e.visible > 0
  {
    View(channel, e.token,
         if e.closed == [] then None else Some(Playlist(e.closed[|e.closed| - 1].stamp, PlaylistLines(e))),
         alive, map name | name in e.disk :: |e.disk[name]|)
  }

  function ListedAt(e: Encoder, k: nat): Listed
    requires e.visible > 0 && k < |e.closed|
  {
    Listed(k, e.NameOf(k), e.closed[k].durationMs)
  }

  function EntryOf(e: Encoder, k: nat): Entry
    requires e.visible > 0 && k < |e.closed|
  {
    Entry(k, e.NameOf(k), |e.closed[k].body|, e.closed[k].durationMs)
  }

  lemma {:induction false} ParseListLines(e: Encoder, before: seq<Line>, from: nat, next: int)
    requires e.visible > 0 && from <= |e.closed|
    ensures var r := Parse(before + ListLines(e, from), |before|, next);
      |r| == |e.closed| - from &&
      forall j :: 0 <= j < |r| ==> r[j] == Listed(next + j, e.NameOf(from + j), e.closed[from + j].durationMs)
    decreases |e.closed| - from
  {
    hide SegmentName;
    if from < |e.closed| {
      var pair := [ExtInf(e.closed[from].durationMs), Uri(e.NameOf(from))];
      ParseListLines(e, before + pair, from + 1, next + 1);
      assert before + pair + ListLines(e, from + 1) == before + ListLines(e, from);
      assert EntryAt(before + ListLines(e, from), |before|);
    }
  }

  lemma ParseSkipsHeader(first: int, listed: seq<Line>)
    ensures var lines := [Comment, Comment, MediaSequence(Some(first)), Comment, Comment] + listed;
      FirstMediaSequence(lines, 0) == first && Parse(lines, 0, first) == Parse(lines, 5, first)
  {
    var lines := [Comment, Comment, MediaSequence(Some(first)), Comment, Comment] + listed;
    assert FirstMediaSequence(lines, 2) == first && FirstMediaSequence(lines, 1) == first;
    assert Parse(lines, 3, first) == Parse(lines, 4, first) == Parse(lines, 5, first);
    assert Parse(lines, 0, first) == Parse(lines, 1, first) == Parse(lines, 2, first) == Parse(lines, 3, first);
  }

  /** Reading the playlist back gives the listed segments, numbered as the encoder numbers them. */
  lemma ParseInvertsPrint(e: Encoder)
    requires e.visible > 0
    ensures FirstMediaSequence(PlaylistLines(e), 0) == e.FirstListed()
    ensures |ParsePlaylist(PlaylistLines(e))| == |e.closed| - e.FirstListed()
    ensures forall j :: 0 <= j < |e.closed| - e.FirstListed() ==>
      ParsePlaylist(PlaylistLines(e))[j] == ListedAt(e, e.FirstListed() + j)
  {
    hide SegmentName, ListLines, Parse, FirstMediaSequence;
    var first := e.FirstListed();
    var header := [Comment, Comment, MediaSequence(Some(first)), Comment, Comment];
    ParseListLines(e, header, first, first);
    ParseSkipsHeader(first, ListLines(e, first));
  }

  /** `stat` shows every listed segment at its final size. */
  ghost predicate StatsTrue(e: Encoder, stat: map<string, nat>)
    requires e.visible > 0
  {
    forall k: nat :: e.FirstListed() <= k < |e.closed| ==> StatTrue(e, k, stat)
  }

  ghost predicate StatTrue(e: Encoder, k: nat, stat: map<string, nat>)
    requires e.visible > 0 && k < |e.closed|
  {
    e.NameOf(k) in stat && stat[e.NameOf(k)] == |e.closed[k].body|
  }

  lemma ViewStatsTrue(e: Encoder, channel: string, alive: bool)
    requires e.Valid()
    ensures StatsTrue(e, ViewOf(e, channel, alive).stat)
  {
    forall k: nat | e.FirstListed() <= k < |e.closed|
      ensures StatTrue(e, k, ViewOf(e, channel, alive).stat)
    {
      RingSafety(e, k);
    }
  }

  lemma {:induction false} ResolveGives(parsed: seq<Listed>, expected: seq<Entry>, n: nat, stat: map<string, nat>)
    requires n <= |parsed| == |expected|
    requires forall j :: 0 <= j < |parsed| ==>
      && parsed[j] == Listed(expected[j].sequence, expected[j].name, expected[j].durationMs)
      && expected[j].name in stat && stat[expected[j].name] == expected[j].size
    ensures Resolve(parsed, n, [], stat) == expected[..n]
  {
    if n > 0 {
      ResolveGives(parsed, expected, n - 1, stat);
      assert expected[..n] == expected[..n - 1] + [expected[n - 1]];
    }
  }

  /** The entries of the window a playlist of `visible` segments shows. */
  function WindowEntries(e: Encoder): (r: seq<Entry>)
    requires e.visible > 0
    ensures |r| == |e.closed| - e.FirstListed()
    ensures forall j :: 0 <= j < |r| ==> r[j] == EntryOf(e, e.FirstListed() + j)
  {
    hide EntryOf, SegmentName;
    var first, n := e.FirstListed(), |e.closed| - e.FirstListed();
    seq(n, j requires 0 <= j < n => EntryOf(e, first + j))
  }

  /** A cold manifest of a live buffer lists its current window with the true names and sizes. */
  lemma ColdManifestIsTrue(e: Encoder, channel: string, alive: bool)
    requires e.Valid() && e.closed != []
    ensures ColdEntry(ViewOf(e, channel, alive))
            == CacheEntry(e.token, e.closed[|e.closed| - 1].stamp, e.FirstListed(), WindowEntries(e))
  {
    hide ParsePlaylist, PlaylistLines, FirstMediaSequence, Resolve, SegmentName;
    ParseInvertsPrint(e);
    ViewStatsTrue(e, channel, alive);
    var parsed, expected, stat := ParsePlaylist(PlaylistLines(e)), WindowEntries(e), ViewOf(e, channel, alive).stat;
    forall j | 0 <= j < |parsed|
      ensures parsed[j] == Listed(expected[j].sequence, expected[j].name, expected[j].durationMs)
      ensures expected[j].name in stat && stat[expected[j].name] == expected[j].size
    {
      assert StatTrue(e, e.FirstListed() + j, stat) && parsed[j] == ListedAt(e, e.FirstListed() + j);
    }
    ResolveGives(parsed, expected, |parsed|, stat);
    assert expected[..|parsed|] == expected;
  }

  /** `earlier` is a past state of `later`. */
  ghost predicate Precedes(earlier: Encoder, later: Encoder) {
    earlier.Valid() && earlier.token == later.token && earlier.visible == later.visible &&
        earlier.closed <= later.closed
  }

  lemma SameStampSameManifest(a: Encoder, b: Encoder, channel: string, aliveA: bool, aliveB: bool)
    requires Precedes(a, b) && b.Valid() && a.closed != [] && b.closed != []
    requires a.closed[|a.closed| - 1].stamp == b.closed[|b.closed| - 1].stamp
    ensures Cold(ViewOf(a, channel, aliveA)) == Cold(ViewOf(b, channel, aliveB))
  {
    hide ParsePlaylist, PlaylistLines, FirstMediaSequence, Resolve, SegmentName, Build;
    ColdManifestIsTrue(a, channel, aliveA);
    ColdManifestIsTrue(b, channel, aliveB);
    assert a.closed[|a.closed| - 1] == b.closed[|a.closed| - 1];
    assert a.closed == b.closed && WindowEntries(a) == WindowEntries(b);
  }

  lemma ListedOnceSameSize(a: Encoder, b: Encoder, channel: string, alive: bool, k: nat)
    requires Precedes(a, b) && a.closed != [] && k < |b.closed|
    requires Lists(ViewOf(a, channel, alive), k, b.NameOf(k))
    ensures ViewOf(a, channel, alive).stat[b.NameOf(k)] == |b.closed[k].body|
  {
    ParseInvertsPrint(a);
    var parsed := ParsePlaylist(PlaylistLines(a));
    var j :| 0 <= j < |parsed| && parsed[j].sequence == k;
    assert parsed[j] == ListedAt(a, a.FirstListed() + j);
    RingSafety(a, k);
    assert a.closed[k] == b.closed[k];
  }

  lemma ListedNowSameSize(a: Encoder, b: Encoder, channel: string, alive: bool, k: nat)
    requires Precedes(a, b) && b.Valid() && a.closed != [] && k < |a.closed|
    requires Lists(ViewOf(b, channel, alive), k, a.NameOf(k))
    ensures ViewOf(b, channel, alive).stat[a.NameOf(k)] == |a.closed[k].body|
  {
    ParseInvertsPrint(b);
    var parsed := ParsePlaylist(PlaylistLines(b));
    var j :| 0 <= j < |parsed| && parsed[j].sequence == k;
    assert parsed[j] == ListedAt(b, b.FirstListed() + j);
    RingSafety(b, k);
    assert a.closed[k] == b.closed[k];
  }

  /** The same of a later look followed by an earlier one, as a cache filled from the one may come to be asked for the
      other. */
  lemma LaterAgreesWithEarlier(a: Encoder, b: Encoder, channel: string, aliveA: bool, aliveB: bool)
    requires Precedes(a, b) && b.Valid()
    ensures Agree(ViewOf(b, channel, aliveB), ViewOf(a, channel, aliveA))
  {
    hide ParsePlaylist, PlaylistLines, FirstMediaSequence, Resolve, SegmentName, Cold;
    var u, v := ViewOf(b, channel, aliveB), ViewOf(a, channel, aliveA);
    if a.closed != [] && b.closed != [] {
      if u.playlist.value.stamp == v.playlist.value.stamp {
        SameStampSameManifest(a, b, channel, aliveA, aliveB);
        SameColdExactly(u, v);
      } else {
        ParseInvertsPrint(a);
        ViewStatsTrue(a, channel, aliveA);
        var parsed := ParsePlaylist(PlaylistLines(a));
        forall i | 0 <= i < |parsed| - 1 && Lists(u, parsed[i].sequence, parsed[i].name)
          ensures parsed[i].name in v.stat && v.stat[parsed[i].name] == u.stat[parsed[i].name]
        {
          var k := a.FirstListed() + i;
          assert parsed[i] == ListedAt(a, k) && StatTrue(a, k, v.stat);
          ListedNowSameSize(a, b, channel, aliveB, k);
        }
      }
    }
  }

  /** Sizes are final once listed and stamps tell playlists apart, so an earlier look at an instance and a later one
      agree. */
  lemma SnapshotsAgree(a: Encoder, b: Encoder, channel: string, aliveA: bool, aliveB: bool)
    requires Precedes(a, b) && b.Valid()
    ensures Agree(ViewOf(a, channel, aliveA), ViewOf(b, channel, aliveB))
  {
    hide ParsePlaylist, PlaylistLines, FirstMediaSequence, Resolve, SegmentName, Cold;
    var u, v := ViewOf(a, channel, aliveA), ViewOf(b, channel, aliveB);
    if a.closed != [] && b.closed != [] {
      if u.playlist.value.stamp == v.playlist.value.stamp {
        SameStampSameManifest(a, b, channel, aliveA, aliveB);
        SameColdExactly(u, v);
      } else {
        ParseInvertsPrint(b);
        ViewStatsTrue(b, channel, aliveB);
        var parsed := ParsePlaylist(PlaylistLines(b));
        forall i | 0 <= i < |parsed| - 1 && Lists(u, parsed[i].sequence, parsed[i].name)
          ensures parsed[i].name in v.stat && v.stat[parsed[i].name] == u.stat[parsed[i].name]
        {
          var k := b.FirstListed() + i;
          assert parsed[i] == ListedAt(b, k) && StatTrue(b, k, v.stat);
          ListedOnceSameSize(a, b, channel, aliveA, k);
        }
      }
    }
  }

  // ----- The file server -----

  /** A Range header, classified: absent or unusable, "bytes=-N", "bytes=X-" or "bytes=X-Y". */
  datatype RangeHeader = NoRange | Suffix(length: int) | From(start: int) | FromTo(start: int, end: int)

  datatype RangeResult = Whole | Unsatisfiable | Slice(start: int, end: int)

  /** Byte `i` of a file of that size is among those the header asks for. */
  predicate AsksFor(header: RangeHeader, fileSize: nat, i: int) {
    && 0 <= i < fileSize
    && match header
       case NoRange => true
       case Suffix(length) => i >= fileSize - length
       case From(start) => i >= start
       case FromTo(start, end) => start <= i <= end
  }

  /** A header without a usable range; and one that starts before the file, which only a malformed header can. */
  predicate NoUsableRange(header: RangeHeader) {
    header.NoRange? || (header.Suffix? && header.length <= 0)
  }

  predicate StartsBeforeFile(header: RangeHeader) {
    (header.From? || header.FromTo?) && header.start < 0
  }

  /** The byte range to serve, both ends included: exactly the bytes of the file that are asked for, and the refusal
      exactly when there are none. */
  function ParseRange(header: RangeHeader, fileSize: nat): (r: RangeResult)
    ensures r.Whole? <==> NoUsableRange(header)
    ensures r.Slice? ==> 0 <= r.start <= r.end < fileSize
    ensures r.Slice? ==> forall i :: r.start <= i <= r.end <==> AsksFor(header, fileSize, i)
    ensures r.Unsatisfiable? <==>
      !NoUsableRange(header) && (StartsBeforeFile(header) || forall i :: !AsksFor(header, fileSize, i))
  {
    if header.NoRange? || (header.Suffix? && header.length <= 0) then Whole
    else
      var (start, end) := match header
        case Suffix(length) => (Max(0, fileSize - length), fileSize - 1)
        case From(s) => (s, fileSize - 1)
        case FromTo(s, e) => (s, e)
        case NoRange => (0, 0);
      assert 0 <= start < fileSize && start <= end ==> AsksFor(header, fileSize, start);
      if start < 0 || start >= fileSize || end < start then Unsatisfiable else Slice(start, Min(end, fileSize - 1))
  }

  datatype Served = Served(status: int, body: Bytes, total: int)

  /** Answering GET /<channel>/<name>?token=... : `live` is the tracked buffer, if any. */
  function Serve(live: Option<Encoder>, token: string, name: string, header: RangeHeader): Served {
    if live.None? || live.value.token == "" || live.value.token != token then Served(403, [], -1)
    else if name !in live.value.disk then Served(404, [], -1)
    else
      var file := live.value.disk[name];
      match ParseRange(header, |file|)
      case Whole => Served(200, file, -1)
      case Unsatisfiable => Served(416, [], |file|)
      case Slice(start, end) => Served(206, file[start..end + 1], |file|)
  }

  /** The file server: without the token of the tracked buffer, and from one that has none, nothing but 403; then 404
      for a file that is not there; then the file, its range, or 416. */
  lemma ServeExactly(live: Option<Encoder>, token: string, name: string, header: RangeHeader)
    ensures var r := Serve(live, token, name, header);
      if live == None || live.value.token == "" || live.value.token != token then r == Served(403, [], -1)
      else if name !in live.value.disk then r == Served(404, [], -1)
      else
        var file := live.value.disk[name];
        && (r.status == 200 || r.status == 206 || r.status == 416)
        && (r.status == 200 <==> NoUsableRange(header)) && (r.status == 200 ==> r.body == file)
        && (r.status == 416 ==> r.body == []) && (r.status != 200 ==> r.total == |file|)
        && var range := ParseRange(header, |file|);
           r.status == 206 ==> range.Slice? && r.body == file[range.start..range.end + 1]
  {
  }
}
