/** The recording plugin's clean-up of its scan roots: orphaned sidecar files go, then, deepest first and in one pass,
    every directory that is left empty. */
module DirectorySweep {
  import opened Basics

  /** The parts of a path below the scan root; the root itself is the empty path. */
  type Path = seq<string>

  datatype Tree = Tree(dirs: set<Path>, files: set<Path>) {
    function Entries(): set<Path> { dirs + files }

    /** Every entry lies in an existing directory. */
    ghost predicate WellFormed() {
      && [] in dirs && dirs !! files
      && forall p <- Entries() :: p != [] ==> Parent(p) in dirs
    }

    /** Nothing lies directly in `d`. */
    ghost predicate Empty(d: Path) {
      forall p <- Entries() :: p != [] ==> Parent(p) != d
    }
  }

  function Parent(p: Path): Path
    requires p != []
  {
    p[..|p| - 1]
  }

  predicate DottedName(name: string) {
    "." <= name
  }

  /** Somewhere between the root and here is a name that starts with a dot. */
  predicate Dotted(p: Path) {
    exists i :: 0 <= i < |p| && DottedName(p[i])
  }

  // ----- Empty directories -----

  /** The directories the sweep considers. */
  ghost predicate Candidate(t: Tree, d: Path) {
    d in t.dirs && d != [] && !Dotted(d)
  }

  /** Deepest first, ties in any order, each candidate once. */
  ghost predicate DeepestFirst(t: Tree, order: seq<Path>) {
    && (forall d :: d in order <==> Candidate(t, d))
    && forall i, j :: 0 <= i < j < |order| ==> |order[i]| >= |order[j]| && order[i] != order[j]
  }

  /** One directory's turn. A directory in `stuck` cannot be listed or removed. */
  ghost function PruneOne(before: Tree, d: Path, stuck: set<Path>): Tree {
    if before.Empty(d) && d !in stuck then before.(dirs := before.dirs - {d}) else before
  }

  /** One pass. */
  ghost function PruneSeq(t: Tree, order: seq<Path>, stuck: set<Path>): Tree {
    if order == [] then t
    else
      PruneOne(PruneSeq(t, order[..|order| - 1], stuck), order[|order| - 1], stuck)
  }

  /** At and below `d` there are only directories, none dotted and none stuck. */
  ghost predicate Hollow(t: Tree, d: Path, stuck: set<Path>) {
    forall p <- t.Entries() :: d <= p ==> p in t.dirs && !Dotted(p) && p !in stuck
  }

  lemma {:induction false} AncestorExists(t: Tree, p: Path, n: nat)
    requires t.WellFormed() && p in t.Entries() && n <= |p|
    ensures p[..n] in t.Entries() && (n < |p| ==> p[..n] in t.dirs)
    decreases |p|
  {
    if n < |p| {
      assert Parent(p) in t.dirs;
      AncestorExists(t, Parent(p), n);
      assert Parent(p)[..n] == p[..n];
    } else {
      assert p[..n] == p;
    }
  }

  lemma HollowBelow(t: Tree, d: Path, p: Path, stuck: set<Path>)
    requires Hollow(t, d, stuck) && d <= p
    ensures Hollow(t, p, stuck)
  {
    forall q <- t.Entries() | p <= q
      ensures q in t.dirs && !Dotted(q) && q !in stuck
    {
      assert d <= q;
    }
  }

  /** The hollow directories of the first so many of the order. */
  ghost predicate Gone(t: Tree, order: seq<Path>, stuck: set<Path>, d: Path) {
    d in order && Hollow(t, d, stuck)
  }

  ghost predicate PassSoFar(t: Tree, now: Tree, order: seq<Path>, stuck: set<Path>) {
    now.files == t.files && forall d :: d in now.dirs <==> d in t.dirs && !Gone(t, order, stuck, d)
  }

  /** What lies in a hollow directory is hollow itself and had its turn earlier. */
  lemma ChildIsGone(t: Tree, order: seq<Path>, k: nat, p: Path, stuck: set<Path>)
    requires DeepestFirst(t, order) && k < |order| && Hollow(t, order[k], stuck)
    requires p in t.Entries() && p != [] && Parent(p) == order[k]
    ensures Gone(t, order[..k], stuck, p)
  {
    HollowBelow(t, order[k], p, stuck);
    assert Candidate(t, p) && p in order;
    var i :| 0 <= i < |order| && order[i] == p;
    assert order[..k][i] == p;
  }

  /** When its turn comes a directory is empty exactly when it was hollow at the start. */
  lemma EmptyWhenHollow(t: Tree, now: Tree, order: seq<Path>, k: nat, stuck: set<Path>)
    requires t.WellFormed() && DeepestFirst(t, order) && k < |order| && PassSoFar(t, now, order[..k], stuck)
    requires Hollow(t, order[k], stuck)
    ensures now.Empty(order[k]) && order[k] !in stuck
  {
    assert order[k] in order && Candidate(t, order[k]);
    forall p <- now.Entries() | p != []
      ensures Parent(p) != order[k]
    {
      if Parent(p) == order[k] {
        assert order[k] <= p && p in t.dirs;
        ChildIsGone(t, order, k, p, stuck);
      }
    }
  }

  /** What survives so far was not hollow, or had no turn yet. */
  lemma EmptyParentIsGone(t: Tree, now: Tree, init: seq<Path>, child: Path, stuck: set<Path>)
    requires PassSoFar(t, now, init, stuck) && child in t.Entries() && child != [] && now.Empty(Parent(child))
    ensures Hollow(t, child, stuck)
  {
    hide Hollow;
    assert child !in now.Entries();
  }

  /** A path properly below an empty directory lies in or under one of its children, which are all gone. */
  lemma BelowEmptyIsFine(t: Tree, now: Tree, init: seq<Path>, d: Path, p: Path, stuck: set<Path>)
    requires t.WellFormed() && PassSoFar(t, now, init, stuck) && now.Empty(d)
    requires p in t.Entries() && d < p
    ensures p in t.dirs && !Dotted(p) && p !in stuck
  {
    hide PassSoFar, Dotted;
    hide Tree.Empty;
    var child := p[..|d| + 1];
    assert child != [] && Parent(child) == d;
    assert child in t.Entries() by {
      AncestorExists(t, p, |d| + 1);
    }
    hide Tree.WellFormed;
    EmptyParentIsGone(t, now, init, child, stuck);
    assert child <= p;
  }

  lemma HollowWhenEmpty(t: Tree, now: Tree, order: seq<Path>, k: nat, stuck: set<Path>)
    requires t.WellFormed() && DeepestFirst(t, order) && k < |order| && PassSoFar(t, now, order[..k], stuck)
    requires now.Empty(order[k]) && order[k] !in stuck
    ensures Hollow(t, order[k], stuck)
  {
    var d := order[k];
    assert d in order && Candidate(t, d);
    hide DeepestFirst, PassSoFar, Dotted;
    hide Tree.WellFormed;
    hide Tree.Empty;
    forall p <- t.Entries() | d <= p
      ensures p in t.dirs && !Dotted(p) && p !in stuck
    {
      if p != d {
        BelowEmptyIsFine(t, now, order[..k], d, p, stuck);
      }
    }
  }

  lemma {:induction false} PruneKeepsFiles(t: Tree, order: seq<Path>, stuck: set<Path>)
    ensures PruneSeq(t, order, stuck).files == t.files
  {
    if order != [] {
      PruneKeepsFiles(t, order[..|order| - 1], stuck);
    }
  }

  lemma PassStep(t: Tree, before: Tree, init: seq<Path>, d: Path, stuck: set<Path>)
    requires PassSoFar(t, before, init, stuck)
    requires Hollow(t, d, stuck) <==> before.Empty(d) && d !in stuck
    ensures PassSoFar(t, PruneOne(before, d, stuck), init + [d], stuck)
  {
    hide Hollow;
    hide Tree.Empty;
    forall e
      ensures Gone(t, init + [d], stuck, e) <==> Gone(t, init, stuck, e) || (e == d && Hollow(t, d, stuck))
    {
      assert e in init + [d] <==> e in init || e == d;
    }
  }

  lemma {:induction false} PassSoFarHolds(t: Tree, order: seq<Path>, k: nat, stuck: set<Path>)
    requires t.WellFormed() && DeepestFirst(t, order) && k <= |order|
    ensures PassSoFar(t, PruneSeq(t, order[..k], stuck), order[..k], stuck)
  {
    hide Hollow, DeepestFirst, PruneOne;
    hide Tree.Empty;
    hide Tree.WellFormed;
    if k == 0 {
      assert PruneSeq(t, order[..0], stuck) == t;
      assert forall d :: !Gone(t, order[..0], stuck, d);
    } else {
      hide PassSoFar, Gone;
      PassSoFarHolds(t, order, k - 1, stuck);
      var before, d := PruneSeq(t, order[..k - 1], stuck), order[k - 1];
      if Hollow(t, d, stuck) {
        EmptyWhenHollow(t, before, order, k - 1, stuck);
      } else if before.Empty(d) && d !in stuck {
        HollowWhenEmpty(t, before, order, k - 1, stuck);
      }
      PassStep(t, before, order[..k - 1], d, stuck);
      assert order[..k] == order[..k - 1] + [d];
      assert order[..k][..k - 1] == order[..k - 1];
    }
  }

  /** One deepest-first pass removes exactly the non-dotted directories below the root under which there was no file, no
      dotted directory and nothing stuck, in whatever order directories of equal depth come. */
  lemma OnePassExactly(t: Tree, order: seq<Path>, stuck: set<Path>)
    requires t.WellFormed() && DeepestFirst(t, order)
    ensures var after := PruneSeq(t, order, stuck);
      && after.files == t.files && after.WellFormed()
      && forall d :: d in after.dirs <==> d in t.dirs && !(Candidate(t, d) && Hollow(t, d, stuck))
  {
    PassSoFarHolds(t, order, |order|, stuck);
    assert order[..|order|] == order;
    var after := PruneSeq(t, order, stuck);
    forall d
      ensures d in after.dirs <==> d in t.dirs && !(Candidate(t, d) && Hollow(t, d, stuck))
    {
      assert d in order <==> Candidate(t, d);
    }
    forall p <- after.Entries() | p != []
      ensures Parent(p) in after.dirs
    {
      if Candidate(t, Parent(p)) && Hollow(t, Parent(p), stuck) {
        HollowBelow(t, Parent(p), p, stuck);
      }
    }
  }

  /** One pass is a fixpoint: a second one finds nothing to remove. */
  lemma SecondPassRemovesNothing(t: Tree, order: seq<Path>, again: seq<Path>, stuck: set<Path>)
    requires t.WellFormed() && DeepestFirst(t, order) && DeepestFirst(PruneSeq(t, order, stuck), again)
    ensures PruneSeq(PruneSeq(t, order, stuck), again, stuck) == PruneSeq(t, order, stuck)
  {
    var once := PruneSeq(t, order, stuck);
    OnePassExactly(t, order, stuck);
    OnePassExactly(once, again, stuck);
    forall d <- once.dirs | Candidate(once, d)
      ensures !Hollow(once, d, stuck)
    {
      var p :| p in t.Entries() && d <= p && !(p in t.dirs && !Dotted(p) && p !in stuck);
      assert p in once.Entries();
    }
    assert PruneSeq(once, again, stuck).dirs == once.dirs;
  }

  // ----- Orphaned sidecars -----

  function EndsWith(name: string, suffix: string): bool {
    |suffix| <= |name| && name[|name| - |suffix|..] == suffix
  }

  /** The recording name a sidecar was made for. */
  function SidecarBase(name: string): Option<string> {
    if EndsWith(name, ".logo.txt") then Some(name[..|name| - 9])
    else if EndsWith(name, ".edl") then Some(name[..|name| - 4])
    else None
  }

  function LastDot(name: string, n: nat): Option<nat>
    requires n <= |name|
  {
    if n == 0 then None else if name[n - 1] == '.' then Some(n - 1) else LastDot(name, n - 1)
  }

  /** A file name without its last extension. */
  function Stem(name: string): string {
    var dot := LastDot(name, |name|);
    if dot.Some? && 0 < dot.value < |name| - 1 then name[..dot.value] else name
  }

  function Name(p: Path): string
    requires p != []
  {
    p[|p| - 1]
  }

  predicate Owns(owner: Path, sidecar: Path) {
    && owner != [] && sidecar != [] && owner != sidecar && Parent(owner) == Parent(sidecar)
    && SidecarBase(Name(owner)).None? && SidecarBase(Name(sidecar)) == Some(Stem(Name(owner)))
  }

  predicate Orphan(files: set<Path>, f: Path) {
    && f in files && f != [] && !Dotted(f) && SidecarBase(Name(f)).Some?
    && forall owner <- files :: !Owns(owner, f)
  }

  /** The loop over all files, each judged by what is in its directory at that moment. */
  function ScrubSeq(files: set<Path>, order: seq<Path>, stuck: set<Path>): set<Path> {
    if order == [] then files
    else
      var before, f := ScrubSeq(files, order[..|order| - 1], stuck), order[|order| - 1];
      if Orphan(before, f) && f !in stuck then before - {f} else before
  }

  /** Whatever the order, what goes are exactly the files that were orphaned sidecars to begin with: a sidecar owns
      nothing, so removing one orphans no other. */
  lemma {:induction false} ScrubExactly(files: set<Path>, order: seq<Path>, stuck: set<Path>)
    ensures forall f :: f in ScrubSeq(files, order, stuck) <==>
        f in files && !(f in order && Orphan(files, f) && f !in stuck)
  {
    if order != [] {
      var init, f := order[..|order| - 1], order[|order| - 1];
      ScrubExactly(files, init, stuck);
      var before := ScrubSeq(files, init, stuck);
      assert order == init + [f];
      if f in before {
        forall owner <- files | Owns(owner, f)
          ensures owner in before
        {
        }
      }
    }
  }

  // ----- In terms of names -----

  lemma {:induction false} LastDotIs(name: string, n: nat)
    requires n <= |name|
    ensures var r := LastDot(name, n);
      && (r.Some? ==> r.value < n && name[r.value] == '.' && forall j :: r.value < j < n ==> name[j] != '.')
      && (r.None? ==> forall j :: 0 <= j < n ==> name[j] != '.')
  {
    if n > 0 && name[n - 1] != '.' {
      LastDotIs(name, n - 1);
    }
  }

  /** The last dot of the name has something before it and something behind it. */
  ghost predicate HasExtension(name: string) {
    exists d :: 0 < d < |name| - 1 && ExtensionAt(name, d)
  }

  ghost predicate ExtensionAt(name: string, d: nat)
    requires d < |name|
  {
    name[d] == '.' && forall j :: d < j < |name| ==> name[j] != '.'
  }

  /** The stem of a name with an extension is what comes before the dot; any other name is its own stem. */
  lemma StemExactly(base: string, ext: string, name: string)
    ensures base != "" && ext != "" && '.' !in ext ==> Stem(base + "." + ext) == base
    ensures !HasExtension(name) ==> Stem(name) == name
    ensures HasExtension(name) ==>
              |Stem(name)| < |name| - 1 && name[..|Stem(name)|] == Stem(name) && ExtensionAt(name, |Stem(name)|)
  {
    var whole := base + "." + ext;
    LastDotIs(whole, |whole|);
    LastDotIs(name, |name|);
    if base != "" && ext != "" && '.' !in ext {
      var d := LastDot(whole, |whole|);
      assert whole[|base|] == '.';
      assert forall j :: |base| < j < |whole| ==> whole[j] == ext[j - |base| - 1] && whole[j] in ext;
      assert d == Some(|base|) && whole[..|base|] == base;
    }
    if HasExtension(name) {
      var d :| 0 < d < |name| - 1 && ExtensionAt(name, d);
      assert LastDot(name, |name|) == Some(d);
    } else {
      var last := LastDot(name, |name|);
      if last.Some? && 0 < last.value < |name| - 1 {
        assert ExtensionAt(name, last.value);
      }
    }
  }

  /** The two kinds of sidecar, by their endings; no other name is one. */
  lemma SidecarsExactly(base: string, name: string)
    ensures SidecarBase(base + ".edl") == Some(base)
    ensures SidecarBase(base + ".logo.txt") == Some(base)
    ensures (|name| < 4 || name[|name| - 4..] != ".edl") && (|name| < 9 || name[|name| - 9..] != ".logo.txt") ==>
              SidecarBase(name) == None
  {
    var edl, logo := base + ".edl", base + ".logo.txt";
    assert |".edl"| == 4 && |".logo.txt"| == 9;
    assert edl[|base|..] == ".edl" && edl[..|base|] == base;
    assert logo[|base|..] == ".logo.txt" && logo[..|base|] == base;
    assert edl[|edl| - 1] == 'l' && ".logo.txt"[8] == 't';
    assert |edl| >= 9 ==> edl[|edl| - 9..][8] == edl[|edl| - 1];
  }

  /** A dotted path is one with a name that starts with a dot. */
  lemma DottedExactly(p: Path)
    ensures Dotted(p) <==> exists i :: 0 <= i < |p| && p[i] != "" && p[i][0] == '.'
  {
    assert forall name: string :: DottedName(name) <==> name != "" && name[0] == '.';
  }

  lemma NameIn(dir: Path, name: string)
    ensures Parent(dir + [name]) == dir && Name(dir + [name]) == name
  {
  }

  /** A sidecar beside its recording stays, whatever else is removed and in whatever order. */
  lemma KeptBesideRecording(files: set<Path>, order: seq<Path>, stuck: set<Path>, dir: Path, base: string, ext: string,
                            sidecar: string)
    requires base != "" && ext != "" && '.' !in ext
    requires sidecar == base + ".edl" || sidecar == base + ".logo.txt"
    requires var name := base + "." + ext;
      && dir + [name] in files && dir + [sidecar] in files
      && (|name| < 4 || name[|name| - 4..] != ".edl") && (|name| < 9 || name[|name| - 9..] != ".logo.txt")
    ensures dir + [sidecar] in ScrubSeq(files, order, stuck)
  {
    hide Stem, SidecarBase, ScrubSeq, Dotted;
    var name := base + "." + ext;
    NameIn(dir, name);
    NameIn(dir, sidecar);
    StemExactly(base, ext, name);
    SidecarsExactly(base, name);
    assert Owns(dir + [name], dir + [sidecar]);
    ScrubExactly(files, order, stuck);
  }

  /** A sidecar without a recording goes when its turn comes: one on whose path no name starts with a dot, that can be
      removed, and beside which no file has its base as whole name or before its last dot but other sidecars. */
  lemma GoneWithoutRecording(files: set<Path>, order: seq<Path>, stuck: set<Path>, dir: Path, base: string,
                             sidecar: string)
    requires sidecar == base + ".edl" || sidecar == base + ".logo.txt"
    requires dir + [sidecar] in files && dir + [sidecar] in order && dir + [sidecar] !in stuck
    requires forall i :: 0 <= i < |dir + [sidecar]| ==> (dir + [sidecar])[i] == "" || (dir + [sidecar])[i][0] != '.'
    requires forall other :: dir + [other] in files ==>
               || (|other| >= 4 && other[|other| - 4..] == ".edl")
               || (|other| >= 9 && other[|other| - 9..] == ".logo.txt")
               || (other != base && !(|base| < |other| - 1 && other[..|base|] == base && ExtensionAt(other, |base|)))
    ensures dir + [sidecar] !in ScrubSeq(files, order, stuck)
  {
    hide Stem, SidecarBase, ScrubSeq, Dotted;
    var f := dir + [sidecar];
    NameIn(dir, sidecar);
    SidecarsExactly(base, sidecar);
    DottedExactly(f);
    forall owner <- files
      ensures !Owns(owner, f)
    {
      if Owns(owner, f) {
        var other := Name(owner);
        assert owner == dir + [other];
        StemExactly("", "", other);
        SidecarKinds(other);
      }
    }
    ScrubExactly(files, order, stuck);
  }

  /** Everything else stays: what does not end like a sidecar, what lies under or is a name that starts with a dot, what
      cannot be removed, and what was not visited. */
  lemma OthersStay(files: set<Path>, order: seq<Path>, stuck: set<Path>, dir: Path, name: string)
    requires dir + [name] in files
    requires || ((|name| < 4 || name[|name| - 4..] != ".edl") && (|name| < 9 || name[|name| - 9..] != ".logo.txt"))
             || (exists i :: 0 <= i < |dir| && dir[i] != "" && dir[i][0] == '.')
             || (name != "" && name[0] == '.')
             || dir + [name] in stuck || dir + [name] !in order
    ensures dir + [name] in ScrubSeq(files, order, stuck)
  {
    hide SidecarBase, ScrubSeq, Dotted, Owns;
    var f := dir + [name];
    NameIn(dir, name);
    SidecarsExactly("", name);
    DottedExactly(f);
    if i :| 0 <= i < |dir| && dir[i] != "" && dir[i][0] == '.' {
      assert f[i] == dir[i];
    }
    assert f[|dir|] == name;
    ScrubExactly(files, order, stuck);
  }

  lemma SidecarKinds(name: string)
    ensures (|name| >= 4 && name[|name| - 4..] == ".edl") || (|name| >= 9 && name[|name| - 9..] == ".logo.txt") ==>
              SidecarBase(name).Some?
  {
    assert |".edl"| == 4 && |".logo.txt"| == 9;
  }

  /** Scrubbing, then sweeping. */
  ghost function Sweep(t: Tree, files: seq<Path>, dirs: seq<Path>, stuck: set<Path>): Tree {
    PruneSeq(t.(files := ScrubSeq(t.files, files, stuck)), dirs, stuck)
  }

  ghost predicate AllFiles(t: Tree, order: seq<Path>) {
    forall f :: f in order <==> f in t.files
  }

  /** The whole action is a fixpoint too, with or without errors: run again it finds nothing more to remove. */
  lemma SweepTwiceIsOnce(t: Tree, files: seq<Path>, dirs: seq<Path>, files2: seq<Path>, dirs2: seq<Path>,
                         stuck: set<Path>)
    requires t.WellFormed() && AllFiles(t, files)
    requires DeepestFirst(t.(files := ScrubSeq(t.files, files, stuck)), dirs)
    requires var once := Sweep(t, files, dirs, stuck); AllFiles(once, files2) && DeepestFirst(once, dirs2)
    ensures var once := Sweep(t, files, dirs, stuck);
      once.WellFormed() && Sweep(once, files2, dirs2, stuck) == once
  {
    hide DeepestFirst, Hollow;
    ScrubExactly(t.files, files, stuck);
    var scrubbed := t.(files := ScrubSeq(t.files, files, stuck));
    OnePassExactly(scrubbed, dirs, stuck);
    var once := PruneSeq(scrubbed, dirs, stuck);
    ScrubExactly(once.files, files2, stuck);
    forall f <- once.files | Orphan(once.files, f)
      ensures f in stuck
    {
      forall owner <- t.files | Owns(owner, f)
        ensures owner in once.files
      {
      }
    }
    assert ScrubSeq(once.files, files2, stuck) == once.files;
    SecondPassRemovesNothing(scrubbed, dirs, dirs2, stuck);
  }

  // ----- Scan roots -----

  /** Shorter roots first, each once. */
  ghost predicate ShortestFirst(roots: set<Path>, order: seq<Path>) {
    && (forall r :: r in order <==> r in roots)
    && forall i, j :: 0 <= i < j < |order| ==> |order[i]| <= |order[j]| && order[i] != order[j]
  }

  predicate Covered(kept: seq<Path>, root: Path) {
    exists q <- kept :: q <= root
  }

  function DedupSeq(order: seq<Path>): seq<Path> {
    if order == [] then []
    else
      var before, root := DedupSeq(order[..|order| - 1]), order[|order| - 1];
      if Covered(before, root) then before else before + [root]
  }

  /** No other root lies above this one. */
  ghost predicate Topmost(roots: seq<Path>, r: Path) {
    r in roots && forall q <- roots :: !(q < r)
  }

  lemma CoveredBy(kept: seq<Path>, q: Path, root: Path)
    requires Covered(kept, q) && q <= root
    ensures Covered(kept, root)
  {
    var k :| k in kept && k <= q;
    assert k <= root;
  }

  lemma StillCovered(kept: seq<Path>, root: Path, r: Path)
    ensures Covered(kept, r) ==> Covered(kept + [root], r)
    ensures Covered(kept + [root], root)
  {
    if Covered(kept, r) {
      var q :| q in kept && q <= r;
      assert q in kept + [root];
    }
    assert root in kept + [root] && root <= root;
  }

  /** A root not above any earlier one is topmost exactly when nothing kept covers it. */
  lemma TopmostExactly(init: seq<Path>, before: seq<Path>, root: Path)
    requires (forall r <- before :: r in init) && forall r <- init :: Covered(before, r) && r != root
    ensures Topmost(init + [root], root) <==> !Covered(before, root)
  {
    var all := init + [root];
    if Covered(before, root) {
      var q :| q in before && q <= root;
      assert q in all && q < root;
    } else {
      forall q <- all
        ensures !(q < root)
      {
        if q in init && q < root {
          CoveredBy(before, q, root);
        }
      }
    }
  }

  lemma TopmostStays(init: seq<Path>, root: Path, r: Path)
    requires r in init && !(root < r)
    ensures Topmost(init + [root], r) <==> Topmost(init, r)
  {
    assert forall q :: q in init + [root] <==> q in init || q == root;
  }

  lemma {:induction false} DedupKeepsTopmost(roots: set<Path>, order: seq<Path>, k: nat)
    requires ShortestFirst(roots, order) && k <= |order|
    ensures forall r :: r in DedupSeq(order[..k]) <==> Topmost(order[..k], r)
    ensures forall r <- order[..k] :: Covered(DedupSeq(order[..k]), r)
  {
    hide Covered, Topmost;
    if k > 0 {
      DedupKeepsTopmost(roots, order, k - 1);
      var init, root := order[..k - 1], order[k - 1];
      var before, after := DedupSeq(init), DedupSeq(order[..k]);
      assert order[..k] == init + [root] && order[..k][..k - 1] == init;
      assert after == if Covered(before, root) then before else before + [root];
      forall r
        ensures r in init ==> r != root && (Topmost(order[..k], r) <==> Topmost(init, r)) && Covered(after, r)
        ensures Topmost(init, r) ==> r in init
        ensures Topmost(order[..k], r) ==> r in init || r == root
      {
        TopmostIsListed(init, r);
        TopmostIsListed(order[..k], r);
        if r in init {
          var i :| 0 <= i < k - 1 && init[i] == r;
          assert order[i] == r;
          TopmostStays(init, root, r);
          StillCovered(before, root, r);
        }
      }
      TopmostExactly(init, before, root);
      StillCovered(before, root, root);
    } else {
      assert order[..k] == [];
      forall r
        ensures !Topmost([], r)
      {
        TopmostIsListed([], r);
      }
    }
  }

  lemma TopmostIsListed(roots: seq<Path>, r: Path)
    ensures Topmost(roots, r) ==> r in roots
  {
  }

  /** What is kept are exactly the roots with no other root above them, so none covers another and together they cover
      every root. */
  lemma ScanRootsExactly(roots: set<Path>, order: seq<Path>)
    requires ShortestFirst(roots, order)
    ensures forall r :: r in DedupSeq(order) <==> r in roots && forall q <- roots :: !(q < r)
    ensures forall a, b :: a in DedupSeq(order) && b in DedupSeq(order) && a <= b ==> a == b
    ensures forall r <- roots :: Covered(DedupSeq(order), r)
  {
    DedupKeepsTopmost(roots, order, |order|);
    assert order[..|order|] == order;
  }

  /** Keeps a root unless it is, or lies under, one already kept. */
  method DedupRoots(order: seq<Path>) returns (deduped: seq<Path>)
    ensures deduped == DedupSeq(order)
  {
    deduped := [];
    for k := 0 to |order|
      invariant deduped == DedupSeq(order[..k])
    {
      assert order[..k + 1][..k] == order[..k];
      var root := order[k];
      if !exists kept <- deduped :: root == kept || kept < root {
        assert !Covered(deduped, root);
        deduped := deduped + [root];
      }
    }
    assert order[..|order|] == order;
  }

  // ----- Several roots -----

  /** Neither of two different places in the list lies at or below the other. */
  ghost predicate Antichain(roots: seq<Path>) {
    forall i, j :: 0 <= i < j < |roots| ==> !(roots[i] <= roots[j]) && !(roots[j] <= roots[i])
  }

  lemma {:induction false} DedupIsAntichain(roots: set<Path>, order: seq<Path>, k: nat)
    requires ShortestFirst(roots, order) && k <= |order|
    ensures Antichain(DedupSeq(order[..k])) && forall r <- DedupSeq(order[..k]) :: r in order[..k]
  {
    if k > 0 {
      DedupIsAntichain(roots, order, k - 1);
      assert order[..k][..k - 1] == order[..k - 1];
      var before, root := DedupSeq(order[..k - 1]), order[k - 1];
      forall r <- before
        ensures r in order[..k] && !(root <= r && !Covered(before, root))
      {
        var i :| 0 <= i < k - 1 && order[..k - 1][i] == r;
        assert order[i] == r && order[..k][i] == r;
      }
      if !Covered(before, root) {
        forall i | 0 <= i < |before|
          ensures !(before[i] <= root) && !(root <= before[i])
        {
          assert before[i] in before;
        }
        assert DedupSeq(order[..k]) == before + [root];
      }
    }
  }

  /** What lies at and below `root`, seen from there. */
  function Within(ps: set<Path>, root: Path): set<Path> {
    set p <- ps | root <= p :: p[|root|..]
  }

  function Sub(t: Tree, root: Path): Tree {
    Tree(Within(t.dirs, root), Within(t.files, root))
  }

  function PutPaths(ps: set<Path>, root: Path, below: set<Path>): set<Path> {
    (set p <- ps | !(root <= p)) + (set q <- below :: root + q)
  }

  /** The tree with everything at and below `root` replaced. */
  function Put(t: Tree, root: Path, s: Tree): Tree {
    Tree(PutPaths(t.dirs, root, s.dirs), PutPaths(t.files, root, s.files))
  }

  lemma WithinHas(ps: set<Path>, root: Path, q: Path)
    ensures q in Within(ps, root) <==> root + q in ps
  {
    if root + q in ps {
      assert root <= root + q && (root + q)[|root|..] == q;
    }
    if q in Within(ps, root) {
      var p :| p in ps && root <= p && p[|root|..] == q;
      assert p == root + q;
    }
  }

  lemma WithinPut(ps: set<Path>, root: Path, below: set<Path>, other: Path)
    ensures Within(PutPaths(ps, root, below), root) == below
    ensures !(root <= other) && !(other <= root) ==> Within(PutPaths(ps, root, below), other) == Within(ps, other)
    ensures PutPaths(ps, root, Within(ps, root)) == ps
  {
    var after := PutPaths(ps, root, below);
    forall q
      ensures q in Within(after, root) <==> q in below
      ensures !(root <= other) && !(other <= root) ==> (q in Within(after, other) <==> q in Within(ps, other))
    {
      WithinHas(after, root, q);
      WithinHas(after, other, q);
      WithinHas(ps, other, q);
      assert root <= root + q && (root + q)[|root|..] == q;
      if root <= other + q {
        assert (other + q)[..|root|] == root && (|root| <= |other| ==> other[..|root|] == root);
        assert |other| <= |root| ==> root[..|other|] == other;
      }
    }
    forall p
      ensures p in PutPaths(ps, root, Within(ps, root)) <==> p in ps
    {
      if root <= p {
        var q := p[|root|..];
        assert p == root + q;
        WithinHas(ps, root, q);
      }
      if p in PutPaths(ps, root, Within(ps, root)) && root <= p {
        var q :| q in Within(ps, root) && p == root + q;
        WithinHas(ps, root, q);
      }
    }
  }

  lemma SubPut(t: Tree, root: Path, s: Tree, other: Path)
    ensures Sub(Put(t, root, s), root) == s
    ensures !(root <= other) && !(other <= root) ==> Sub(Put(t, root, s), other) == Sub(t, other)
    ensures Put(t, root, Sub(t, root)) == t
  {
    hide Within, PutPaths;
    WithinPut(t.dirs, root, s.dirs, other);
    WithinPut(t.files, root, s.files, other);
  }

  lemma SubIsWellFormed(t: Tree, root: Path)
    requires t.WellFormed() && root in t.dirs
    ensures Sub(t, root).WellFormed()
  {
    var s := Sub(t, root);
    hide Within;
    WithinHas(t.dirs, root, []);
    assert root + [] == root;
    forall q
      ensures !(q in s.dirs && q in s.files)
      ensures q in s.Entries() && q != [] ==> Parent(q) in s.dirs
    {
      WithinHas(t.dirs, root, q);
      WithinHas(t.files, root, q);
      if q in s.Entries() && q != [] {
        assert Parent(root + q) == root + Parent(q);
        WithinHas(t.dirs, root, Parent(q));
      }
    }
  }

  /** In which order the files and directories of each root are visited. */
  datatype Visit = Visit(files: seq<Path>, dirs: seq<Path>)

  ghost predicate Fits(s: Tree, v: Visit, stuck: set<Path>) {
    AllFiles(s, v.files) && DeepestFirst(s.(files := ScrubSeq(s.files, v.files, stuck)), v.dirs)
  }

  /** One root's turn. A root that is no directory is passed over. */
  ghost function SweepRoot(t: Tree, root: Path, v: Visit, stuck: set<Path>): Tree {
    if root in t.dirs then Put(t, root, Sweep(Sub(t, root), v.files, v.dirs, Within(stuck, root))) else t
  }

  ghost function SweepRoots(t: Tree, roots: seq<Path>, visits: Path -> Visit, stuck: set<Path>): Tree {
    if roots == [] then t
    else
      var before, root := SweepRoots(t, roots[..|roots| - 1], visits, stuck), roots[|roots| - 1];
      SweepRoot(before, root, visits(root), stuck)
  }

  ghost predicate AllFit(t: Tree, roots: seq<Path>, visits: Path -> Visit, stuck: set<Path>) {
    forall r <- roots :: r in t.dirs ==> Fits(Sub(t, r), visits(r), Within(stuck, r))
  }

  /** A root's subtree is what its own sweep makes of it, whatever happened at the other roots. */
  lemma {:induction false} RootsAreIndependent(t: Tree, roots: seq<Path>, n: nat, visits: Path -> Visit,
                                               stuck: set<Path>, k: nat)
    requires t.WellFormed() && Antichain(roots) && AllFit(t, roots, visits, stuck) && n <= |roots| && k < |roots|
    ensures var after, r := SweepRoots(t, roots[..n], visits, stuck), roots[k];
      && (r in after.dirs <==> r in t.dirs)
      && Sub(after, r) ==
         if k < n && r in t.dirs then Sweep(Sub(t, r), visits(r).files, visits(r).dirs, Within(stuck, r))
         else Sub(t, r)
  {
    hide Sub, Put, Sweep, Within, Fits;
    hide Tree.WellFormed;
    if n > 0 {
      RootsAreIndependent(t, roots, n - 1, visits, stuck, k);
      RootsAreIndependent(t, roots, n - 1, visits, stuck, n - 1);
      assert roots[..n][..n - 1] == roots[..n - 1];
      var before, root, r := SweepRoots(t, roots[..n - 1], visits, stuck), roots[n - 1], roots[k];
      if root in before.dirs {
        var s := Sweep(Sub(t, root), visits(root).files, visits(root).dirs, Within(stuck, root));
        SubPut(before, root, s, r);
        SubIsWellFormed(t, root);
        assert Fits(Sub(t, root), visits(root), Within(stuck, root));
        SweepKeepsRoot(Sub(t, root), visits(root), Within(stuck, root));
        RootsStay(before, root, s, r);
      }
    }
  }

  lemma SweepKeepsRoot(s: Tree, v: Visit, stuck: set<Path>)
    requires s.WellFormed() && Fits(s, v, stuck)
    ensures [] in Sweep(s, v.files, v.dirs, stuck).dirs
  {
    hide DeepestFirst, Hollow;
    ScrubExactly(s.files, v.files, stuck);
    OnePassExactly(s.(files := ScrubSeq(s.files, v.files, stuck)), v.dirs, stuck);
  }

  lemma RootsStay(t: Tree, root: Path, s: Tree, r: Path)
    requires [] in s.dirs && root in t.dirs
    ensures root in Put(t, root, s).dirs
    ensures !(root <= r) ==> (r in Put(t, root, s).dirs <==> r in t.dirs)
  {
    assert root + [] == root;
  }

  /** The whole action, over all scan roots, is a fixpoint: run again it removes nothing more under any of them. */
  lemma {:induction false} SweepRootsTwiceIsOnce(t: Tree, roots: seq<Path>, n: nat, visits: Path -> Visit,
                                                 visits': Path -> Visit, stuck: set<Path>)
    requires t.WellFormed() && Antichain(roots) && AllFit(t, roots, visits, stuck) && n <= |roots|
    requires AllFit(SweepRoots(t, roots, visits, stuck), roots, visits', stuck)
    ensures var once := SweepRoots(t, roots, visits, stuck);
      SweepRoots(once, roots[..n], visits', stuck) == once
  {
    hide Sub, Put, Sweep, Within, SweepRoots;
    hide Tree.WellFormed;
    var once := SweepRoots(t, roots, visits, stuck);
    SweptNone(once, visits', stuck);
    if n > 0 {
      SweepRootsTwiceIsOnce(t, roots, n - 1, visits, visits', stuck);
      SweptOneMore(once, roots, n, visits', stuck);
      var root := roots[n - 1];
      assert roots[..|roots|] == roots;
      RootsAreIndependent(t, roots, |roots|, visits, stuck, n - 1);
      if root in once.dirs {
        SubIsWellFormed(t, root);
        assert Fits(Sub(t, root), visits(root), Within(stuck, root));
        assert Fits(Sub(once, root), visits'(root), Within(stuck, root));
        SweepTwiceIsOnce(Sub(t, root), visits(root).files, visits(root).dirs, visits'(root).files, visits'(root).dirs,
                         Within(stuck, root));
        SubPut(once, root, Sub(once, root), root);
      }
    }
  }

  lemma SweptNone(t: Tree, visits: Path -> Visit, stuck: set<Path>)
    ensures forall roots: seq<Path> :: roots == [] ==> SweepRoots(t, roots, visits, stuck) == t
  {
  }

  lemma SweptOneMore(t: Tree, roots: seq<Path>, n: nat, visits: Path -> Visit, stuck: set<Path>)
    requires 0 < n <= |roots|
    ensures SweepRoots(t, roots[..n], visits, stuck)
            == SweepRoot(SweepRoots(t, roots[..n - 1], visits, stuck), roots[n - 1], visits(roots[n - 1]), stuck)
  {
    hide SweepRoot;
    assert roots[..n][..n - 1] == roots[..n - 1];
  }

  /** For the scan roots in particular, which are made an antichain. */
  lemma ScrubTwiceIsOnce(t: Tree, roots: set<Path>, order: seq<Path>, visits: Path -> Visit, visits': Path -> Visit,
                         stuck: set<Path>)
    requires t.WellFormed() && ShortestFirst(roots, order) && AllFit(t, DedupSeq(order), visits, stuck)
    requires AllFit(SweepRoots(t, DedupSeq(order), visits, stuck), DedupSeq(order), visits', stuck)
    ensures var once := SweepRoots(t, DedupSeq(order), visits, stuck);
      SweepRoots(once, DedupSeq(order), visits', stuck) == once
  {
    hide SweepRoots, AllFit;
    hide Tree.WellFormed;
    DedupIsAntichain(roots, order, |order|);
    assert order[..|order|] == order;
    var kept := DedupSeq(order);
    assert kept[..|kept|] == kept;
    SweepRootsTwiceIsOnce(t, kept, |kept|, visits, visits', stuck);
  }

  // ----- The imperative code -----

  class ScanRoot {
    var dirs: set<Path>
    var files: set<Path>

    ghost function State(): Tree
      reads this
    {
      Tree(dirs, files)
    }

    method IsEmpty(d: Path) returns (empty: bool)
      ensures empty == State().Empty(d)
    {
      empty := forall p <- dirs + files :: p != [] ==> Parent(p) != d;
    }

    method PruneEmptyDirectories(order: seq<Path>, stuck: set<Path>) returns (removed: seq<Path>)
      requires DeepestFirst(State(), order)
      modifies this
      ensures State() == PruneSeq(old(State()), order, stuck)
      ensures forall d :: d in removed <==> d in old(dirs) && d !in dirs
    {
      removed := [];
      for i := 0 to |order|
        invariant State() == PruneSeq(old(State()), order[..i], stuck)
        invariant forall d :: d in removed <==> d in old(dirs) && d !in dirs
        invariant forall d <- removed :: d in order[..i]
      {
        assert order[..i + 1] == order[..i] + [order[i]] && order[..i + 1][..i] == order[..i];
        var d := order[i];
        assert d in order && d !in order[..i];
        var empty := IsEmpty(d);
        if !empty || d in stuck {
          continue;
        }
        dirs := dirs - {d};
        removed := removed + [d];
      }
      assert order[..|order|] == order;
    }

    method ScrubSidecars(order: seq<Path>, stuck: set<Path>) returns (removed: seq<Path>)
      modifies this
      ensures dirs == old(dirs) && files == ScrubSeq(old(files), order, stuck)
      ensures forall f :: f in removed <==> f in old(files) && f !in files
    {
      removed := [];
      for i := 0 to |order|
        invariant dirs == old(dirs) && files == ScrubSeq(old(files), order[..i], stuck)
        invariant files <= old(files) && forall f :: f in removed <==> f in old(files) && f !in files
      {
        assert order[..i + 1][..i] == order[..i];
        var path := order[i];
        if path !in files || path == [] || Dotted(path) {
          continue;
        }
        var base := SidecarBase(Name(path));
        if base.None? {
          continue;
        }
        var hasOwningRecording := exists other <- files ::
          other != [] && Parent(other) == Parent(path) && other != path &&
          SidecarBase(Name(other)).None? && Stem(Name(other)) == base.value;
        if hasOwningRecording || path in stuck {
          continue;
        }
        files := files - {path};
        removed := removed + [path];
      }
      assert order[..|order|] == order;
    }

    method Scrub(fileOrder: seq<Path>, dirOrder: seq<Path>, stuck: set<Path>)
        returns (removedFiles: seq<Path>, removedDirs: seq<Path>)
      requires DeepestFirst(State(), dirOrder)
      modifies this
      ensures State() == Sweep(old(State()), fileOrder, dirOrder, stuck)
      ensures forall f :: f in removedFiles <==> f in old(files) && f !in files
      ensures forall d :: d in removedDirs <==> d in old(dirs) && d !in dirs
    {
      ghost var before := State();
      removedFiles := ScrubSidecars(fileOrder, stuck);
      assert forall d :: Candidate(State(), d) <==> Candidate(before, d);
      ghost var scrubbed := files;
      removedDirs := PruneEmptyDirectories(dirOrder, stuck);
      PruneKeepsFiles(Tree(before.dirs, scrubbed), dirOrder, stuck);
    }
  }
}
