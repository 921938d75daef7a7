/** What the steps of a licence installation do to the directory of generations, and the invariant they keep. */
module LicenceSteps {
  import opened Durability
  import opened LicenceTree
  import opened Options

  datatype Place = Staging | Generation

  /** The directory of all generations: the published ones and the stagings, both by hash. */
  datatype Media = Media(generations: map<string, Tree>, stagings: map<string, Tree>) {
    predicate Has(place: Place, h: string) { h in if place.Staging? then stagings else generations }

    function At(place: Place, h: string): Tree
      requires Has(place, h)
    {
      if place.Staging? then stagings[h] else generations[h]
    }

    function With(place: Place, h: string, t: Tree): Media {
      if place.Staging? then Media(generations, stagings[h := t]) else Media(generations[h := t], stagings)
    }
  }

  /** `m` is `before` but for the tree of `h` in `place`. */
  ghost predicate OnlyTree(before: Media, m: Media, place: Place, h: string) {
    before.Has(place, h) && m.Has(place, h) && m == before.With(place, h, m.At(place, h))
  }

  /** No directory is there but those of the bundle. */
  ghost predicate Shape(b: Bundle, t: Tree) { ROOT in t.dirs && t.dirs.Keys <= DirPaths(b) + {ROOT} }

  ghost predicate Ready(b: Bundle, m: Media) {
    WellFormed(b) && m.Has(Staging, b.hash) && Shape(b, m.At(Staging, b.hash))
  }

  /** The staging of a clean bundle holds residues of it and nothing else. */
  ghost predicate Steady(b: Bundle, m: Media) {
    WellFormed(b) && Clean(b) && m.Has(Staging, b.hash) && StagingOk(b, m.At(Staging, b.hash))
  }

  /** Work on the files of entry `e` in the staging of `b`, which leaves a residue of `e`. */
  ghost predicate EntryWork(b: Bundle, e: Entry, before: Media, m: Media)
    requires HasReceipt(e)
  {
    && OnlyTree(before, m, Staging, b.hash)
    && OnlyFilesOf(before.At(Staging, b.hash), m.At(Staging, b.hash), e)
    && ResidueOf(m.At(Staging, b.hash), e).Some?
  }

  /** Directories appear and get their mode; files stay. */
  ghost predicate DirWork(b: Bundle, before: Media, m: Media) {
    && OnlyTree(before, m, Staging, b.hash) && Ready(b, m)
    && var t, u := before.At(Staging, b.hash), m.At(Staging, b.hash);
       u.files == t.files && forall p | p in t.dirs :: p in u.dirs && (t.dirs[p] ==> u.dirs[p])
  }

  lemma OnlyTreeStep(before: Media, m: Media, place: Place, h: string, t: Tree)
    requires OnlyTree(before, m, place, h)
    ensures OnlyTree(before, m.With(place, h, t), place, h) && m.With(place, h, t).At(place, h) == t
  {
    assert m.With(place, h, t) == before.With(place, h, t);
  }

  lemma EntryWorkStep(b: Bundle, e: Entry, before: Media, m: Media, t: Tree)
    requires HasReceipt(e) && EntryWork(b, e, before, m)
    requires OnlyFilesOf(m.At(Staging, b.hash), t, e) && ResidueOf(t, e).Some?
    ensures EntryWork(b, e, before, m.With(Staging, b.hash, t))
  {
    OnlyFilesTrans(before.At(Staging, b.hash), m.At(Staging, b.hash), t, e);
    OnlyTreeStep(before, m, Staging, b.hash, t);
    hide ResidueOf, OnlyFilesOf, TempPath, OnlyTree;
  }

  lemma DirWorkStep(b: Bundle, before: Media, m: Media, p: Path, right: bool)
    requires DirWork(b, before, m) && p in DirPaths(b) + {ROOT}
    requires var t := m.At(Staging, b.hash); p in t.dirs && t.dirs[p] ==> right
    ensures var t := m.At(Staging, b.hash); DirWork(b, before, m.With(Staging, b.hash, t.(dirs := t.dirs[p := right])))
  {
    var t := m.At(Staging, b.hash);
    OnlyTreeStep(before, m, Staging, b.hash, t.(dirs := t.dirs[p := right]));
    hide WellFormed, OnlyTree;
  }

  lemma SteadyDirs(b: Bundle, before: Media, m: Media)
    requires Steady(b, before) && DirWork(b, before, m)
    ensures Steady(b, m)
  {
    DirStep(b, before.At(Staging, b.hash), m.At(Staging, b.hash));
    hide StagingOk, WellFormed, Clean;
  }

  lemma SteadyEntry(b: Bundle, e: Entry, before: Media, m: Media)
    requires Steady(b, before) && IsFile(b, e) && EntryWork(b, e, before, m)
    ensures Steady(b, m)
  {
    EntryStep(b, before.At(Staging, b.hash), m.At(Staging, b.hash), e);
    hide StagingOk, WellFormed, Clean, OnlyFilesOf, ResidueOf, Published;
  }

  // ------------------------------------------------------------------------------------------
  // System calls
  // ------------------------------------------------------------------------------------------

  /** A run of life `before` that has made `calls` system calls is left with `after`. */
  predicate Made(before: Life, after: Life, calls: nat) {
    match before
    case Forever => after == Forever
    case Calls(left) => calls <= left && after == Calls(left - calls)
  }

  /** The calls that publishing `e` takes when nothing is left of it: create, write each byte, chmod, move. */
  function PublishCost(e: Entry, noreplace: bool): nat
    requires e.Regular?
  {
    |e.content| + if noreplace then 3 else 4
  }

  function Cost(entries: seq<Entry>, noreplace: bool): nat {
    if entries == [] then 0 else
      var last := entries[|entries| - 1];
      Cost(entries[..|entries| - 1], noreplace) + if last.Regular? then PublishCost(last, noreplace) else 0
  }

  lemma CostNext(entries: seq<Entry>, i: nat, noreplace: bool)
    requires i < |entries|
    ensures Cost(entries[..i + 1], noreplace)
         == Cost(entries[..i], noreplace) + if entries[i].Regular? then PublishCost(entries[i], noreplace) else 0
  {
    assert entries[..i + 1][..i] == entries[..i];
  }

  lemma {:induction false} CostGrows(entries: seq<Entry>, i: nat, j: nat, noreplace: bool)
    requires i <= j <= |entries|
    ensures Cost(entries[..i], noreplace) <= Cost(entries[..j], noreplace)
  {
    if i < j {
      CostGrows(entries, i, j - 1, noreplace);
      CostNext(entries, j - 1, noreplace);
    }
  }

  /** Killed before a publication from nothing was over: the temporary is there, unless no call was made or the last one
      was. */
  predicate CutShort(life: Life, e: Entry, t: Tree, noreplace: bool)
    requires HasReceipt(e)
  {
    && life.Calls? && life.left < PublishCost(e, noreplace)
    && (1 <= life.left <= |e.content| + 2 ==> TempPath(e) in t.files)
  }

  /** What is left of a life after `calls` system calls. */
  function LifeAfter(life: Life, calls: nat): Life {
    match life
    case Forever => Forever
    case Calls(left) => if calls <= left then Calls(left - calls) else Calls(0)
  }

  /** A publication of all files from nothing is killed right after the temporary of file `j` was created. */
  predicate CutIn(b: Bundle, j: nat, life: Life, noreplace: bool) {
    j < |b.entries| && HasReceipt(b.entries[j]) && life == Calls(Cost(b.entries[..j], noreplace) + 1)
  }

  /** If the life is cut in the publication of some file, that is where the run ended, and its temporary is there. */
  ghost predicate LeavesTemp(b: Bundle, life: Life, t: Tree, killed: bool, noreplace: bool) {
    forall j: nat | CutIn(b, j, life, noreplace) :: killed && TempPath(b.entries[j]) in t.files
  }

  lemma CutHere(b: Bundle, i: nat, life0: Life, life: Life, t: Tree, noreplace: bool)
    requires i < |b.entries| && HasReceipt(b.entries[i])
    ensures Made(life0, life, Cost(b.entries[..i], noreplace)) && CutShort(life, b.entries[i], t, noreplace) ==>
              LeavesTemp(b, life0, t, true, noreplace)
  {
    hide TempPath;
    if Made(life0, life, Cost(b.entries[..i], noreplace)) && CutShort(life, b.entries[i], t, noreplace) {
      forall j: nat | CutIn(b, j, life0, noreplace) ensures j == i {
        CostNext(b.entries, i, noreplace);
        if i < j {
          CostGrows(b.entries, i + 1, j, noreplace);
        } else if j < i {
          CostNext(b.entries, j, noreplace);
          CostGrows(b.entries, j + 1, i, noreplace);
        }
      }
    }
  }

  lemma NotCut(b: Bundle, life0: Life, life: Life, t: Tree, noreplace: bool)
    ensures Made(life0, life, Cost(b.entries, noreplace)) ==> LeavesTemp(b, life0, t, false, noreplace)
  {
    hide TempPath;
    forall j: nat | CutIn(b, j, life0, noreplace) ensures Cost(b.entries, noreplace) > life0.left {
      CostNext(b.entries, j, noreplace);
      CostGrows(b.entries, j + 1, |b.entries|, noreplace);
      assert b.entries[..|b.entries|] == b.entries;
    }
  }

  lemma DeadBefore(b: Bundle, t: Tree, noreplace: bool)
    ensures LeavesTemp(b, Calls(0), t, true, noreplace)
  {
  }

  /** The directories there, and those whose mode is right: each call on a directory adds one. */
  function Progress(t: Tree): nat { |t.dirs.Keys| + |RightDirs(t)| }

  function RightDirs(t: Tree): set<Path> { set p | p in t.dirs && t.dirs[p] }

  function AllProgress(b: Bundle): nat { 2 * (|DirPaths(b)| + 1) }

  /** Some directory is missing or does not have its mode. */
  predicate Unfinished(b: Bundle, t: Tree) { exists p | p in DirPaths(b) + {ROOT} :: p !in t.dirs || !t.dirs[p] }

  /** Work on directories makes one call for each step of progress, and a kill leaves some undone. */
  ghost predicate DirCalls(b: Bundle, before: Media, m: Media, life0: Life, life: Life, killed: bool)
    requires before.Has(Staging, b.hash) && m.Has(Staging, b.hash)
  {
    var t, u := before.At(Staging, b.hash), m.At(Staging, b.hash);
    && Progress(t) <= Progress(u) && Made(life0, life, Progress(u) - Progress(t))
    && (killed ==> life == Calls(0) && Unfinished(b, u))
  }

  lemma DirCallsStart(b: Bundle, m: Media, life: Life)
    requires m.Has(Staging, b.hash)
    ensures DirCalls(b, m, m, life, life, false)
  {
    hide Progress;
  }

  lemma DirCallsTrans(b: Bundle, m0: Media, m1: Media, m2: Media, l0: Life, l1: Life, l2: Life, killed: bool)
    requires m0.Has(Staging, b.hash) && m1.Has(Staging, b.hash) && m2.Has(Staging, b.hash)
    requires DirCalls(b, m0, m1, l0, l1, false) && DirCalls(b, m1, m2, l1, l2, killed)
    ensures DirCalls(b, m0, m2, l0, l2, killed)
  {
    hide Progress, Unfinished;
  }

  /** The call of `ensure_directory_mode`, if it makes one. */
  lemma DirModeCalls(b: Bundle, m0: Media, m: Media, p: Path, life0: Life, life: Life, killed: bool)
    requires m0.Has(Staging, b.hash) && p in m0.At(Staging, b.hash).dirs && p in DirPaths(b) + {ROOT}
    requires var t := m0.At(Staging, b.hash);
      m == if killed then m0 else m0.With(Staging, b.hash, t.(dirs := t.dirs[p := true]))
    requires if m0.At(Staging, b.hash).dirs[p] then !killed && life == life0
             else if killed then life0 == life == Calls(0) else Made(life0, life, 1)
    ensures DirCalls(b, m0, m, life0, life, killed)
  {
    var t := m0.At(Staging, b.hash);
    if t.dirs[p] {
      assert t.dirs[p := true] == t.dirs;
    } else {
      ProgressRight(t, p);
    }
    hide Progress;
  }

  lemma ProgressNew(t: Tree, p: Path)
    requires p !in t.dirs
    ensures Progress(t.(dirs := t.dirs[p := false])) == Progress(t) + 1
  {
    var u := t.(dirs := t.dirs[p := false]);
    assert u.dirs.Keys == t.dirs.Keys + {p};
    assert p !in RightDirs(u) && p !in RightDirs(t);
    forall q | q != p ensures q in RightDirs(u) <==> q in RightDirs(t) {
    }
    assert RightDirs(u) == RightDirs(t);
  }

  lemma ProgressRight(t: Tree, p: Path)
    requires p in t.dirs && !t.dirs[p]
    ensures Progress(t.(dirs := t.dirs[p := true])) == Progress(t) + 1
  {
    var u := t.(dirs := t.dirs[p := true]);
    assert u.dirs.Keys == t.dirs.Keys;
    assert RightDirs(u) == RightDirs(t) + {p};
  }

  lemma ProgressBound(b: Bundle, t: Tree)
    requires WellFormed(b) && Shape(b, t)
    ensures if Unfinished(b, t) then Progress(t) < AllProgress(b) else Progress(t) == AllProgress(b)
    ensures !Unfinished(b, t) ==> t.dirs.Keys == DirPaths(b) + {ROOT}
  {
    NoRootListed(b);
    var all := DirPaths(b) + {ROOT};
    assert |all| == |DirPaths(b)| + 1;
    SubsetSize(t.dirs.Keys, all);
    SubsetSize(RightDirs(t), all);
    if p :| p in all && (p !in t.dirs || !t.dirs[p]) {
      assert p !in RightDirs(t);
    } else {
      assert forall p | p in all :: p in RightDirs(t);
      assert RightDirs(t) == all && t.dirs.Keys == all;
    }
  }

  lemma SubsetSize<T>(a: set<T>, b: set<T>)
    requires a <= b
    ensures |a| <= |b| && (a != b ==> |a| < |b|)
  {
    assert b == a + (b - a);
  }

  // ------------------------------------------------------------------------------------------
  // Bounded reads
  // ------------------------------------------------------------------------------------------

  /** A read of at most `limit + 1` bytes. */
  function Observed(content: string, limit: nat): string {
    if |content| <= limit then content else content[..limit + 1]
  }

  /** One byte more than expected is enough to compare. */
  lemma ObservedIsEnough(content: string, expected: string)
    ensures Observed(content, |expected|) == expected <==> content == expected
    ensures Observed(content, |expected|) <= expected <==> content <= expected
  {
  }

  // ------------------------------------------------------------------------------------------
  // The order of the directories
  // ------------------------------------------------------------------------------------------

  function AtDepth(entries: seq<Entry>, depth: nat): seq<Entry> {
    if entries == [] then []
    else
      var rest := AtDepth(entries[1..], depth);
      if entries[0].Directory? && |entries[0].path| == depth then [entries[0]] + rest else rest
  }

  function Deepest(entries: seq<Entry>): (d: nat)
    ensures forall e | e in entries :: |e.path| <= d
  {
    if entries == [] then 0 else
      var d := Deepest(entries[1..]);
      if |entries[0].path| > d then |entries[0].path| else d
  }

  /** The directories, stably sorted by the number of their components. */
  function ByDepth(entries: seq<Entry>, depth: nat): seq<Entry>
    decreases Deepest(entries) + 1 - depth
  {
    if depth > Deepest(entries) then [] else AtDepth(entries, depth) + ByDepth(entries, depth + 1)
  }

  lemma {:induction false} AtDepthAre(entries: seq<Entry>, depth: nat)
    ensures forall e :: e in AtDepth(entries, depth) <==> e in entries && e.Directory? && |e.path| == depth
  {
    if entries != [] {
      AtDepthAre(entries[1..], depth);
    }
  }

  lemma {:induction false} ByDepthAre(entries: seq<Entry>, depth: nat)
    ensures forall e :: e in ByDepth(entries, depth) <==> e in entries && e.Directory? && |e.path| >= depth
    decreases Deepest(entries) + 1 - depth
  {
    if depth <= Deepest(entries) {
      AtDepthAre(entries, depth);
      ByDepthAre(entries, depth + 1);
    }
  }

  /** The ancestors of a directory of the bundle are directories of the bundle. */
  lemma {:induction false} AncestorsListed(b: Bundle, p: Path, k: nat)
    requires WellFormed(b) && p in DirPaths(b) + {ROOT} && k <= |p|
    ensures p[..k] in DirPaths(b) + {ROOT}
    decreases |p| - k
  {
    if k == |p| {
      assert p[..k] == p;
    } else {
      AncestorsListed(b, p, k + 1);
      assert Parent(p[..k + 1]) == p[..k];
    }
  }

  lemma EntryWorkStart(b: Bundle, e: Entry, m: Media)
    requires m.Has(Staging, b.hash) && HasReceipt(e) && ResidueOf(m.At(Staging, b.hash), e).Some?
    ensures EntryWork(b, e, m, m)
  {
    assert m.With(Staging, b.hash, m.At(Staging, b.hash)) == m;
  }

  lemma DirWorkStart(b: Bundle, m: Media)
    requires Ready(b, m)
    ensures DirWork(b, m, m)
  {
    hide WellFormed;
    assert m.With(Staging, b.hash, m.At(Staging, b.hash)) == m;
  }

  lemma DirWorkReady(b: Bundle, before: Media, m: Media)
    requires DirWork(b, before, m)
    ensures Ready(b, m) && OnlyTree(before, m, Staging, b.hash)
    ensures ROOT in m.At(Staging, b.hash).dirs && WellFormed(b)
    ensures m.At(Staging, b.hash).files == before.At(Staging, b.hash).files
  {
    hide WellFormed;
  }

  // ------------------------------------------------------------------------------------------
  // Repair of modes
  // ------------------------------------------------------------------------------------------

  /** `u` is `t` with some modes set right. */
  ghost predicate ModesRepaired(t: Tree, u: Tree) {
    && u.dirs.Keys == t.dirs.Keys && u.files.Keys == t.files.Keys
    && (forall p | p in t.dirs :: t.dirs[p] ==> u.dirs[p])
    && (forall p | p in t.files :: u.files[p] == t.files[p] || u.files[p] == t.files[p].(right := true))
  }

  /** Nothing but modes of the one tree changes. */
  ghost predicate ModeWork(before: Media, m: Media, place: Place, h: string) {
    OnlyTree(before, m, place, h) && ModesRepaired(before.At(place, h), m.At(place, h))
  }

  lemma ModeWorkStart(m: Media, place: Place, h: string)
    requires m.Has(place, h)
    ensures ModeWork(m, m, place, h)
  {
    assert m.With(place, h, m.At(place, h)) == m;
  }

  lemma ModeWorkDir(before: Media, m: Media, place: Place, h: string, p: Path)
    requires ModeWork(before, m, place, h) && p in m.At(place, h).dirs
    ensures var t := m.At(place, h); ModeWork(before, m.With(place, h, t.(dirs := t.dirs[p := true])), place, h)
  {
    var t := m.At(place, h);
    OnlyTreeStep(before, m, place, h, t.(dirs := t.dirs[p := true]));
    hide OnlyTree;
  }

  lemma ModeWorkFile(before: Media, m: Media, place: Place, h: string, e: Entry)
    requires ModeWork(before, m, place, h) && e.path in m.At(place, h).files
    ensures ModeWork(before, m.With(place, h, WithRightMode(m.At(place, h), e)), place, h)
  {
    OnlyTreeStep(before, m, place, h, WithRightMode(m.At(place, h), e));
    hide OnlyTree;
  }

  lemma StillWhole(b: Bundle, before: Media, m: Media, place: Place)
    requires ModeWork(before, m, place, b.hash) && Whole(b, before.At(place, b.hash))
    ensures m.Has(place, b.hash) && Whole(b, m.At(place, b.hash))
  {
  }

  /** A tree whose modes are right does not change. */
  lemma NothingToRepair(before: Media, m: Media, place: Place, h: string)
    requires ModeWork(before, m, place, h) && RightModes(before.At(place, h))
    ensures m == before
  {
    var t, u := before.At(place, h), m.At(place, h);
    assert u.dirs == t.dirs && u.files == t.files;
    assert before.With(place, h, t) == before;
  }

  lemma FileNotADirectory(b: Bundle, e: Entry)
    requires WellFormed(b) && IsFile(b, e)
    ensures e.path !in DirPaths(b) + {ROOT}
  {
    forall d | d in b.entries && d.Directory? ensures d.path != e.path {
      EntriesByPath(b, d, e);
    }
  }

  lemma NoRootListed(b: Bundle)
    requires WellFormed(b)
    ensures ROOT !in DirPaths(b)
  {
  }

  lemma WholeFile(b: Bundle, t: Tree, e: Entry)
    requires WellFormed(b) && Whole(b, t) && e in b.entries && e.Regular?
    ensures e.path != ROOT && e.path !in t.dirs && e.path in t.files && Matches(t.files[e.path], e)
  {
    FileNotADirectory(b, e);
    assert e.path in FilePaths(b);
  }

  lemma WholeDirs(b: Bundle, t: Tree)
    requires Whole(b, t)
    ensures t.dirs.Keys == DirPaths(b) + {ROOT}
  {
  }

  ghost predicate DirsRight(dirs: seq<Entry>, t: Tree) {
    ROOT in t.dirs && t.dirs[ROOT] && forall e | e in dirs :: e.path in t.dirs && t.dirs[e.path]
  }

  lemma DirsRightStay(b: Bundle, dirs: seq<Entry>, i: nat, before: Media, m: Media)
    requires i < |dirs| && DirWork(b, before, m) && DirsRight(dirs[..i], before.At(Staging, b.hash))
    requires var t := m.At(Staging, b.hash); dirs[i].path in t.dirs && t.dirs[dirs[i].path]
    ensures DirsRight(dirs[..i + 1], m.At(Staging, b.hash))
  {
    hide OnlyTree, Ready;
    assert dirs[..i + 1] == dirs[..i] + [dirs[i]];
  }

  lemma AllDirsFinished(b: Bundle, dirs: seq<Entry>, t: Tree)
    requires DirsRight(dirs, t) && forall e | e in b.entries && e.Directory? :: e in dirs
    ensures !Unfinished(b, t)
  {
    forall p | p in DirPaths(b) ensures p in t.dirs && t.dirs[p] {
      var e :| e in b.entries && e.Directory? && e.path == p;
    }
  }

  lemma RootRight(dirs: seq<Entry>, t: Tree)
    requires ROOT in t.dirs && t.dirs[ROOT]
    ensures DirsRight(dirs[..0], t)
  {
  }

  lemma DirsRightStep(dirs: seq<Entry>, i: nat, t: Tree)
    requires i < |dirs| && DirsRight(dirs[..i], t)
    ensures DirsRight(dirs[..i + 1], t.(dirs := t.dirs[dirs[i].path := true]))
  {
    assert dirs[..i + 1] == dirs[..i] + [dirs[i]];
  }

  /** The directories in the order of their depth are directories of the bundle. */
  lemma ListedAt(b: Bundle, i: nat)
    requires i < |ByDepth(b.entries, 0)|
    ensures ByDepth(b.entries, 0)[i].path in DirPaths(b) + {ROOT}
  {
    ByDepthAre(b.entries, 0);
    assert ByDepth(b.entries, 0)[i] in ByDepth(b.entries, 0);
  }

  lemma AllDirsRight(b: Bundle, dirs: seq<Entry>, t: Tree)
    requires t.dirs.Keys == DirPaths(b) + {ROOT} && dirs == ByDepth(b.entries, 0) && DirsRight(dirs[..|dirs|], t)
    ensures RightDirModes(t)
  {
    assert dirs[..|dirs|] == dirs;
    ByDepthAre(b.entries, 0);
    forall p | p in t.dirs && p != ROOT ensures t.dirs[p] {
      var e :| e in b.entries && e.Directory? && e.path == p;
      assert e in dirs;
    }
  }

  ghost predicate FilesRight(entries: seq<Entry>, t: Tree) {
    forall e | e in entries && e.Regular? :: e.path in t.files && t.files[e.path].right
  }

  lemma FilesRightStep(entries: seq<Entry>, i: nat, t: Tree)
    requires i < |entries| && FilesRight(entries[..i], t) && entries[i].path in t.files
    ensures FilesRight(entries[..i + 1], WithRightMode(t, entries[i]))
  {
    assert entries[..i + 1] == entries[..i] + [entries[i]];
  }

  lemma FilesRightSkip(entries: seq<Entry>, i: nat, t: Tree)
    requires i < |entries| && FilesRight(entries[..i], t) && entries[i].Directory?
    ensures FilesRight(entries[..i + 1], t)
  {
    assert entries[..i + 1] == entries[..i] + [entries[i]];
  }

  lemma AllFilesRight(b: Bundle, t: Tree)
    requires Whole(b, t) && FilesRight(b.entries, t)
    ensures forall p | p in t.files :: t.files[p].right
  {
    forall p | p in t.files ensures t.files[p].right {
      var e :| e in b.entries && e.Regular? && e.path == p;
    }
  }

  // ------------------------------------------------------------------------------------------
  // Steps of an installation
  // ------------------------------------------------------------------------------------------

  lemma OnlyTreeTrans(a: Media, b: Media, c: Media, place: Place, h: string)
    requires OnlyTree(a, b, place, h) && OnlyTree(b, c, place, h)
    ensures OnlyTree(a, c, place, h)
  {
    OnlyTreeStep(a, b, place, h, c.At(place, h));
  }

  lemma DirWorkTrans(b: Bundle, m0: Media, m1: Media, m2: Media)
    requires DirWork(b, m0, m1) && DirWork(b, m1, m2)
    ensures DirWork(b, m0, m2)
  {
    OnlyTreeTrans(m0, m1, m2, Staging, b.hash);
    hide OnlyTree, WellFormed;
  }

  lemma EntryPaths(b: Bundle, e: Entry)
    requires WellFormed(b) && e in b.entries
    ensures e.path != ROOT && Parent(e.path) in DirPaths(b) + {ROOT}
  {
  }

  ghost predicate FilesPublished(entries: seq<Entry>, t: Tree) {
    forall e | e in entries && HasReceipt(e) :: Published(t, e)
  }

  lemma PublishedStep(b: Bundle, i: nat, t: Tree, u: Tree)
    requires WellFormed(b) && Clean(b) && StagingOk(b, t) && i < |b.entries| && IsFile(b, b.entries[i])
    requires FilesPublished(b.entries[..i], t) && OnlyFilesOf(t, u, b.entries[i])
    requires Published(u, b.entries[i]) && ResidueOf(u, b.entries[i]).Some?
    ensures FilesPublished(b.entries[..i + 1], u)
  {
    EntryStep(b, t, u, b.entries[i]);
    SliceFiles(b, i);
    hide *;
    PublishedMore(b.entries[..i], b.entries[i], t, u);
  }

  lemma SliceFiles(b: Bundle, i: nat)
    requires i < |b.entries|
    ensures forall f | f in b.entries[..i] && HasReceipt(f) :: IsFile(b, f)
    ensures b.entries[..i + 1] == b.entries[..i] + [b.entries[i]]
    ensures IsFile(b, b.entries[i]) ==> HasReceipt(b.entries[i])
  {
  }

  lemma PublishedMore(entries: seq<Entry>, e: Entry, t: Tree, u: Tree)
    requires HasReceipt(e) && Published(u, e) && FilesPublished(entries, t)
    requires forall f | f in entries && HasReceipt(f) && f != e :: Published(u, f) == Published(t, f)
    ensures FilesPublished(entries + [e], u)
  {
    hide Published;
  }

  lemma PublishedSkip(entries: seq<Entry>, i: nat, t: Tree)
    requires i < |entries| && FilesPublished(entries[..i], t) && entries[i].Directory?
    ensures FilesPublished(entries[..i + 1], t)
  {
    assert entries[..i + 1] == entries[..i] + [entries[i]];
  }

  // ------------------------------------------------------------------------------------------
  // A run over the files
  // ------------------------------------------------------------------------------------------

  /** The first time: no file of a bundle in order is there yet. */
  ghost predicate New(b: Bundle, t: Tree) { InOrder(b) && t.files == map[] }

  /** No file and no directory of the bundle are in each other's place. */
  ghost predicate FilesApart(b: Bundle, t: Tree) { forall p | p in t.files :: p !in DirPaths(b) }

  ghost predicate NoReceiptDirs(b: Bundle, i: nat)
    requires i <= |b.entries|
  {
    forall j | 0 <= j < i && HasReceipt(b.entries[j]) :: TempPath(b.entries[j]) !in DirPaths(b)
  }

  /** The first `i` entries are published, in a tree that was `t0`. */
  ghost predicate FilesRun(b: Bundle, i: nat, t0: Tree, t: Tree)
    requires i <= |b.entries|
  {
    && (New(b, t0) ==> Exactly(b.entries[..i], t)) && ReceiptsGone(b, i, t) && NoReceiptDirs(b, i)
    && (Clean(b) && StagingOk(b, t0) ==> FilesPublished(b.entries[..i], t))
  }

  lemma FilesRunStart(b: Bundle, m: Media)
    requires Ready(b, m)
    ensures var t := m.At(Staging, b.hash); FilesRun(b, 0, t, t)
    ensures OnlyTree(m, m, Staging, b.hash)
  {
    assert m.With(Staging, b.hash, m.At(Staging, b.hash)) == m;
    hide StagingOk, WellFormed, Clean, InOrder;
  }

  lemma FilesRunNext(b: Bundle, i: nat, m0: Media, m: Media)
    requires Ready(b, m) && m0.Has(Staging, b.hash) && i < |b.entries| && IsFile(b, b.entries[i])
    requires FilesRun(b, i, m0.At(Staging, b.hash), m.At(Staging, b.hash))
    ensures New(b, m0.At(Staging, b.hash)) ==> ResidueOf(m.At(Staging, b.hash), b.entries[i]) == Some(Empty)
    ensures Steady(b, m) ==> ResidueOf(m.At(Staging, b.hash), b.entries[i]).Some?
  {
    if New(b, m0.At(Staging, b.hash)) {
      NextIsFree(b, i, m.At(Staging, b.hash));
    }
    hide WellFormed, Clean, InOrder, ResidueOf, Exactly, ReceiptsGone, FilesPublished;
  }

  /** What one publication does to the run. */
  lemma EntrySteps(b: Bundle, i: nat, m0: Media, m1: Media, m: Media, done: bool)
    requires Ready(b, m1) && OnlyTree(m0, m1, Staging, b.hash) && i < |b.entries| && IsFile(b, b.entries[i])
    requires !Unfinished(b, m1.At(Staging, b.hash)) && FilesRun(b, i, m0.At(Staging, b.hash), m1.At(Staging, b.hash))
    requires Steady(b, m0) ==> Steady(b, m1)
    requires if ResidueOf(m1.At(Staging, b.hash), b.entries[i]).None? then !done && m == m1
             else EntryWork(b, b.entries[i], m1, m)
    requires done ==> Published(m.At(Staging, b.hash), b.entries[i])
    ensures OnlyTree(m0, m, Staging, b.hash) && Ready(b, m)
    ensures m.At(Staging, b.hash).dirs == m1.At(Staging, b.hash).dirs
    ensures Steady(b, m0) ==> Steady(b, m)
    ensures done ==> FilesRun(b, i + 1, m0.At(Staging, b.hash), m.At(Staging, b.hash))
  {
    if ResidueOf(m1.At(Staging, b.hash), b.entries[i]).Some? {
      OnlyTreeTrans(m0, m1, m, Staging, b.hash);
      EntryWorkParts(b, b.entries[i], m1, m);
      if Steady(b, m1) {
        SteadyEntry(b, b.entries[i], m1, m);
      }
      if done {
        FilesRunStep(b, i, m0, m1, m);
      }
    }
    hide *;
  }

  /** What one publication does to the calls of a first run. */
  lemma EntryCalls(b: Bundle, i: nat, m0: Media, m: Media, life0: Life, life1: Life, life: Life, done: bool,
                   noreplace: bool)
    requires i < |b.entries| && HasReceipt(b.entries[i]) && m0.Has(Staging, b.hash) && m.Has(Staging, b.hash)
    requires New(b, m0.At(Staging, b.hash)) ==>
               && Made(life0, life1, Cost(b.entries[..i], noreplace))
               && if done then Made(life1, life, PublishCost(b.entries[i], noreplace))
                  else CutShort(life1, b.entries[i], m.At(Staging, b.hash), noreplace)
    ensures New(b, m0.At(Staging, b.hash)) ==>
              if done then Made(life0, life, Cost(b.entries[..i + 1], noreplace))
              else LeavesTemp(b, life0, m.At(Staging, b.hash), true, noreplace)
  {
    CostNext(b.entries, i, noreplace);
    CutHere(b, i, life0, life1, m.At(Staging, b.hash), noreplace);
    hide New, LeavesTemp, CutShort, Cost, PublishCost;
  }

  lemma EntryWorkParts(b: Bundle, e: Entry, m1: Media, m: Media)
    requires HasReceipt(e) && EntryWork(b, e, m1, m) && Ready(b, m1)
    ensures Ready(b, m) && m.At(Staging, b.hash).dirs == m1.At(Staging, b.hash).dirs
  {
    hide WellFormed, ResidueOf;
  }

  lemma FilesRunStep(b: Bundle, i: nat, m0: Media, m1: Media, m: Media)
    requires Ready(b, m1) && m0.Has(Staging, b.hash) && i < |b.entries| && IsFile(b, b.entries[i])
    requires !Unfinished(b, m1.At(Staging, b.hash)) && FilesRun(b, i, m0.At(Staging, b.hash), m1.At(Staging, b.hash))
    requires Steady(b, m0) ==> Steady(b, m1)
    requires ResidueOf(m1.At(Staging, b.hash), b.entries[i]).Some? && EntryWork(b, b.entries[i], m1, m)
    requires Published(m.At(Staging, b.hash), b.entries[i])
    ensures FilesRun(b, i + 1, m0.At(Staging, b.hash), m.At(Staging, b.hash))
  {
    var e, t0, t, u := b.entries[i], m0.At(Staging, b.hash), m1.At(Staging, b.hash), m.At(Staging, b.hash);
    FilesRunNext(b, i, m0, m1);
    if New(b, t0) {
      NextPublished(b, i, t, u);
    }
    ReceiptsStayGone(b, i, t, u);
    NoReceiptDir(b, i, t);
    if Clean(b) && StagingOk(b, t0) {
      PublishedStep(b, i, t, u);
    }
    hide *;
    hide ResidueOf, EntryWork, Published, Unfinished, TempPath;
  }

  lemma NoReceiptDir(b: Bundle, i: nat, t: Tree)
    requires i < |b.entries| && HasReceipt(b.entries[i]) && NoReceiptDirs(b, i) && !Unfinished(b, t)
    requires ResidueOf(t, b.entries[i]).Some?
    ensures NoReceiptDirs(b, i + 1)
  {
    hide TempPath;
  }

  lemma FilesRunSkip(b: Bundle, i: nat, t0: Tree, t: Tree)
    requires WellFormed(b) && i < |b.entries| && b.entries[i].Directory? && FilesRun(b, i, t0, t)
    ensures FilesRun(b, i + 1, t0, t)
  {
    if New(b, t0) {
      NextSkipped(b, i, t);
    }
    if Clean(b) && StagingOk(b, t0) {
      PublishedSkip(b.entries, i, t);
    }
    SkipGone(b, i, t);
    hide WellFormed, Clean, StagingOk, InOrder, Exactly, FilesPublished, ReceiptsGone, NoReceiptDirs;
  }

  lemma SkipGone(b: Bundle, i: nat, t: Tree)
    requires i < |b.entries| && b.entries[i].Directory? && ReceiptsGone(b, i, t) && NoReceiptDirs(b, i)
    ensures ReceiptsGone(b, i + 1, t) && NoReceiptDirs(b, i + 1)
  {
    hide TempPath;
  }

  /** A run over the files is at entry `i`. */
  ghost predicate RunAt(b: Bundle, i: nat, m0: Media, m: Media, life0: Life, life: Life, noreplace: bool) {
    && i <= |b.entries| && Ready(b, m) && !Unfinished(b, m.At(Staging, b.hash)) && OnlyTree(m0, m, Staging, b.hash)
    && FilesRun(b, i, m0.At(Staging, b.hash), m.At(Staging, b.hash)) && (Steady(b, m0) ==> Steady(b, m))
    && (New(b, m0.At(Staging, b.hash)) ==> Made(life0, life, Cost(b.entries[..i], noreplace)))
  }

  /** What a run over the files leaves, however it ended. */
  ghost predicate RunLeft(b: Bundle, m0: Media, m: Media, life0: Life, killed: bool, noreplace: bool) {
    && Ready(b, m) && OnlyTree(m0, m, Staging, b.hash) && (Steady(b, m0) ==> Steady(b, m))
    && (New(b, m0.At(Staging, b.hash)) ==> LeavesTemp(b, life0, m.At(Staging, b.hash), killed, noreplace))
  }

  lemma RunStart(b: Bundle, m: Media, life: Life, noreplace: bool)
    requires Ready(b, m) && !Unfinished(b, m.At(Staging, b.hash))
    ensures RunAt(b, 0, m, m, life, life, noreplace)
  {
    FilesRunStart(b, m);
    NoCost(b.entries, noreplace);
    hide Ready, Unfinished, OnlyTree, FilesRun, Steady, New, Cost;
  }

  lemma NoCost(entries: seq<Entry>, noreplace: bool)
    ensures Cost(entries[..0], noreplace) == 0
  {
  }

  lemma RunEntry(b: Bundle, i: nat, m0: Media, m: Media, life0: Life, life: Life, noreplace: bool)
    requires i < |b.entries| && RunAt(b, i, m0, m, life0, life, noreplace)
    ensures b.entries[i].Regular? ==> HasReceipt(b.entries[i])
  {
    EntryPaths(b, b.entries[i]);
  }

  lemma RunSkip(b: Bundle, i: nat, m0: Media, m: Media, life0: Life, life: Life, noreplace: bool)
    requires i < |b.entries| && b.entries[i].Directory? && RunAt(b, i, m0, m, life0, life, noreplace)
    ensures RunAt(b, i + 1, m0, m, life0, life, noreplace)
  {
    FilesRunSkip(b, i, m0.At(Staging, b.hash), m.At(Staging, b.hash));
    CostNext(b.entries, i, noreplace);
    hide WellFormed, Unfinished, OnlyTree, FilesRun, Steady, New, Cost;
  }

  lemma RunEnd(b: Bundle, m0: Media, m: Media, life0: Life, life: Life, noreplace: bool)
    requires RunAt(b, |b.entries|, m0, m, life0, life, noreplace)
    ensures RunLeft(b, m0, m, life0, false, noreplace)
  {
    RunCalls(b, m0, m, life0, life, noreplace);
    NotCut(b, life0, life, m.At(Staging, b.hash), noreplace);
    hide Ready, Unfinished, OnlyTree, FilesRun, Steady, New, Cost, LeavesTemp, Made;
  }

  lemma RunCalls(b: Bundle, m0: Media, m: Media, life0: Life, life: Life, noreplace: bool)
    requires RunAt(b, |b.entries|, m0, m, life0, life, noreplace)
    ensures m0.Has(Staging, b.hash) && m.Has(Staging, b.hash)
    ensures New(b, m0.At(Staging, b.hash)) ==> Made(life0, life, Cost(b.entries, noreplace))
  {
    hide *;
    RunMade(b, |b.entries|, m0, m, life0, life, noreplace);
    WholeSlice(b.entries);
  }

  lemma WholeSlice(entries: seq<Entry>)
    ensures entries[..|entries|] == entries
  {
  }

  lemma RunMade(b: Bundle, i: nat, m0: Media, m: Media, life0: Life, life: Life, noreplace: bool)
    requires RunAt(b, i, m0, m, life0, life, noreplace)
    ensures i <= |b.entries| && m0.Has(Staging, b.hash) && m.Has(Staging, b.hash)
    ensures New(b, m0.At(Staging, b.hash)) ==> Made(life0, life, Cost(b.entries[..i], noreplace))
  {
    hide Ready, Unfinished, FilesRun, Steady, New, Cost, Made;
  }

  lemma RunParts(b: Bundle, m0: Media, m: Media, life0: Life, life: Life, done: bool, killed: bool, noreplace: bool)
    requires RunLeft(b, m0, m, life0, killed, noreplace)
    requires done ==> RunAt(b, |b.entries|, m0, m, life0, life, noreplace)
    ensures Ready(b, m) && OnlyTree(m0, m, Staging, b.hash) && (Steady(b, m0) ==> Steady(b, m))
    ensures New(b, m0.At(Staging, b.hash)) ==> LeavesTemp(b, life0, m.At(Staging, b.hash), killed, noreplace)
    ensures done ==> !Unfinished(b, m.At(Staging, b.hash))
    ensures done ==> FilesRun(b, |b.entries|, m0.At(Staging, b.hash), m.At(Staging, b.hash))
  {
    hide WellFormed, Unfinished, OnlyTree, FilesRun, Steady, New, Cost, LeavesTemp;
  }

  lemma FinishedHas(b: Bundle, t: Tree, p: Path)
    requires p in DirPaths(b) + {ROOT}
    ensures !Unfinished(b, t) ==> p in t.dirs
  {
  }

  lemma SameDirsFinished(b: Bundle, t: Tree, u: Tree)
    requires u.dirs == t.dirs
    ensures Unfinished(b, u) <==> Unfinished(b, t)
  {
  }

  lemma SameFilesApart(b: Bundle, m0: Media, m: Media)
    requires DirWork(b, m0, m)
    ensures FilesApart(b, m0.At(Staging, b.hash)) <==> FilesApart(b, m.At(Staging, b.hash))
  {
    hide WellFormed, DirPaths;
  }

  lemma DirMode(b: Bundle, before: Media, m: Media, p: Path)
    requires DirWork(b, before, m) && p in m.At(Staging, b.hash).dirs
    ensures var t := m.At(Staging, b.hash); DirWork(b, before, m.With(Staging, b.hash, t.(dirs := t.dirs[p := true])))
  {
    DirWorkStep(b, before, m, p, true);
  }

  lemma PreflightFits(b: Bundle, m: Media)
    requires Ready(b, m)
    ensures Steady(b, m) || m.At(Staging, b.hash) == NEW_STAGING ==> Accepts(b, m.At(Staging, b.hash))
    ensures Steady(b, m) || m.At(Staging, b.hash) == NEW_STAGING ==> FilesApart(b, m.At(Staging, b.hash))
  {
    if Steady(b, m) {
      PreflightAcceptsResidues(b, m.At(Staging, b.hash));
      forall p | p in m.At(Staging, b.hash).files ensures p !in DirPaths(b) {
        var e :| IsFile(b, e) && (p == e.path || p == TempPath(e));
        NotADirectory(b, e, DirPaths(b));
      }
    }
  }

  /** After the directories: how far a first run is. */
  lemma DirectoriesDone(b: Bundle, m0: Media, m: Media, life0: Life, life: Life, killed: bool)
    requires DirWork(b, m0, m) && m0.At(Staging, b.hash) == NEW_STAGING && DirCalls(b, m0, m, life0, life, killed)
    ensures killed ==> LifeAfter(life0, AllProgress(b) - 1) == Calls(0)
    ensures !killed && !Unfinished(b, m.At(Staging, b.hash)) ==> life == LifeAfter(life0, AllProgress(b) - 1)
    ensures m.At(Staging, b.hash).files == map[]
  {
    DirWorkReady(b, m0, m);
    ProgressBound(b, m.At(Staging, b.hash));
    ProgressOfNew();
    hide WellFormed, DirWork, Unfinished, Progress, NEW_STAGING;
  }

  lemma ProgressOfNew()
    ensures Progress(NEW_STAGING) == 1 && NEW_STAGING.files == map[]
  {
    assert NEW_STAGING.dirs.Keys == {ROOT};
    assert RightDirs(NEW_STAGING) == {};
  }

  lemma FilesDone(b: Bundle, m0: Media, m: Media)
    requires Ready(b, m) && m0.Has(Staging, b.hash) && !Unfinished(b, m.At(Staging, b.hash))
    requires FilesRun(b, |b.entries|, m0.At(Staging, b.hash), m.At(Staging, b.hash))
    requires Steady(b, m0) ==> Steady(b, m)
    ensures Whole(b, m.At(Staging, b.hash)) ==> InOrder(b)
    ensures Steady(b, m0) || New(b, m0.At(Staging, b.hash)) ==> Whole(b, m.At(Staging, b.hash))
  {
    var t := m.At(Staging, b.hash);
    assert b.entries[..|b.entries|] == b.entries;
    ProgressBound(b, t);
    NoneInDirs(b);
    if Whole(b, t) {
      PublishedInOrder(b, t);
    }
    if Steady(b, m0) {
      FilesAllPublished(b, t);
      AllPublished(b, t);
    }
    if New(b, m0.At(Staging, b.hash)) {
      ExactlyIsWhole(b, t);
    }
  }

  lemma NoneInDirs(b: Bundle)
    ensures NoReceiptDirs(b, |b.entries|) ==> forall e | IsFile(b, e) :: TempPath(e) !in DirPaths(b)
  {
    hide TempPath, DirPaths;
  }

  lemma FilesAllPublished(b: Bundle, t: Tree)
    requires FilesPublished(b.entries, t)
    ensures forall e :: IsFile(b, e) ==> Published(t, e)
  {
    hide Published;
  }

  lemma ModesOnly(b: Bundle, m0: Media, m: Media)
    requires Ready(b, m0) && ModeWork(m0, m, Staging, b.hash)
    ensures OnlyTree(m0, m, Staging, b.hash) && Ready(b, m)
    ensures Steady(b, m0) && Whole(b, m0.At(Staging, b.hash)) ==> Steady(b, m)
  {
    if Steady(b, m0) && Whole(b, m0.At(Staging, b.hash)) {
      StillWhole(b, m0, m, Staging);
      WholeIsStaging(b, m.At(Staging, b.hash));
    }
    hide Whole, StagingOk, WellFormed, Clean;
  }

  // ------------------------------------------------------------------------------------------
  // The invariant of the directory of generations
  // ------------------------------------------------------------------------------------------

  /** A generation is exactly the bundle whose hash names it, and only bundles in order get that far; a staging is a
      residue of its bundle, if that is clean. */
  ghost predicate Inv(m: Media, known: string -> Bundle) {
    && (forall h | h in m.generations :: IsGeneration(known(h), m.generations[h]) && InOrder(known(h)))
    && (forall h | h in m.stagings :: h !in m.generations && StagedOk(known(h), m.stagings[h]))
  }

  ghost predicate StagedOk(b: Bundle, t: Tree) { Shape(b, t) && (Clean(b) ==> StagingOk(b, t)) }

  /** Nothing changes under any other hash. */
  ghost predicate Elsewhere(before: Media, m: Media, h: string) {
    && m.generations - {h} == before.generations - {h}
    && m.stagings - {h} == before.stagings - {h}
  }

  lemma ElsewhereTrans(a: Media, b: Media, c: Media, h: string)
    requires Elsewhere(a, b, h) && Elsewhere(b, c, h)
    ensures Elsewhere(a, c, h)
  {
  }

  lemma InvOf(b: Bundle, m: Media, known: string -> Bundle)
    requires WellFormed(b) && known(b.hash) == b && Inv(m, known)
    ensures b.hash in m.generations ==> IsGeneration(b, m.generations[b.hash]) && InOrder(b) && b.hash !in m.stagings
    ensures b.hash in m.stagings ==> Ready(b, m) && StagedOk(b, m.stagings[b.hash])
    ensures b.hash in m.stagings && Clean(b) ==> Steady(b, m) && Accepts(b, m.stagings[b.hash])
  {
    if b.hash in m.stagings && Clean(b) {
      PreflightAcceptsResidues(b, m.stagings[b.hash]);
    }
  }

  const NEW_STAGING := Tree(map[ROOT := false], map[])

  lemma EmptyStaging(b: Bundle)
    requires WellFormed(b)
    ensures StagedOk(b, NEW_STAGING) && Shape(b, NEW_STAGING)
  {
    var t := NEW_STAGING;
    if Clean(b) {
      forall e | IsFile(b, e) ensures ResidueOf(t, e) == Some(Empty) {
        NotADirectory(b, e, t.dirs.Keys);
      }
    }
  }

  lemma NewStaging(b: Bundle, m: Media, known: string -> Bundle)
    requires WellFormed(b) && known(b.hash) == b && Inv(m, known) && b.hash !in m.generations
    ensures var n := m.With(Staging, b.hash, NEW_STAGING); Inv(n, known) && Elsewhere(m, n, b.hash) && Ready(b, n)
  {
    EmptyStaging(b);
    hide StagedOk, IsGeneration, WellFormed, Clean, InOrder, Shape, NEW_STAGING, Inv;
    InvWith(m, known, b.hash, NEW_STAGING);
  }

  lemma InvWith(m: Media, known: string -> Bundle, h: string, t: Tree)
    requires Inv(m, known) && h !in m.generations && StagedOk(known(h), t)
    ensures Inv(m.With(Staging, h, t), known) && Elsewhere(m, m.With(Staging, h, t), h)
  {
    hide StagedOk, IsGeneration, InOrder;
    var n := m.With(Staging, h, t);
    assert n.stagings - {h} == m.stagings - {h};
  }

  lemma StagingWork(b: Bundle, before: Media, m: Media, known: string -> Bundle)
    requires known(b.hash) == b && Inv(before, known) && OnlyTree(before, m, Staging, b.hash)
    requires Ready(b, m) && (Clean(b) ==> Steady(b, m))
    ensures Inv(m, known) && Elsewhere(before, m, b.hash) && m.generations == before.generations
  {
    hide StagingOk, IsGeneration, WellFormed, Clean, InOrder;
    assert m.stagings - {b.hash} == before.stagings - {b.hash};
  }

  /** Nothing of the bundle is there. */
  predicate Untouched(b: Bundle, m: Media) { b.hash !in m.generations && b.hash !in m.stagings }

  /** In the staging of `b` a file stands where the receipt of a file goes that is also the name of an entry. */
  ghost predicate Jammed(b: Bundle, m: Media) {
    b.hash in m.stagings && exists j: nat :: Blocked(b, m.stagings[b.hash], j)
  }

  lemma JammedRefused(b: Bundle, m: Media)
    ensures InOrder(b) && Jammed(b, m) ==> !Accepts(b, m.stagings[b.hash])
  {
    hide InOrder, Blocked, Accepts;
    if InOrder(b) && Jammed(b, m) {
      var j: nat :| Blocked(b, m.stagings[b.hash], j);
      BlockedRefused(b, m.stagings[b.hash], j);
    }
  }

  lemma TempJams(b: Bundle, m: Media, j: nat)
    requires ReceiptTaken(b, j) && b.hash in m.stagings && TempPath(b.entries[j]) in m.stagings[b.hash].files
    ensures Jammed(b, m)
  {
    hide ReceiptTaken, TempPath;
    assert Blocked(b, m.stagings[b.hash], j);
  }

  /** Installing another bundle does not clear it. */
  lemma StillJammed(b: Bundle, m0: Media, m: Media, h: string)
    requires Jammed(b, m0) && Elsewhere(m0, m, h) && h != b.hash
    ensures Jammed(b, m)
  {
    hide Blocked;
    assert b.hash in m0.stagings - {h};
  }

  /** The system calls of a first installation up to the creation of the temporary of file `j`: the staging, its
      directories and modes, the files before, and the temporary. */
  function KillAt(b: Bundle, j: nat, noreplace: bool): nat
    requires j < |b.entries|
  {
    AllProgress(b) + Cost(b.entries[..j], noreplace) + 1
  }

  /** A first installation that is cut in the publication of a file leaves the temporary of it. */
  ghost predicate FirstCut(b: Bundle, life: Life, m: Media, noreplace: bool) {
    forall j: nat | j < |b.entries| && HasReceipt(b.entries[j]) && life == Calls(KillAt(b, j, noreplace)) ::
      b.hash in m.stagings && TempPath(b.entries[j]) in m.stagings[b.hash].files
  }

  lemma FirstCutLeaves(b: Bundle, life0: Life, life: Life, m: Media, killed: bool, noreplace: bool)
    requires b.hash in m.stagings && Made(life0, life, 1)
    requires LeavesTemp(b, LifeAfter(life, AllProgress(b) - 1), m.stagings[b.hash], killed, noreplace)
    ensures FirstCut(b, life0, m, noreplace)
    ensures !killed ==>
              forall j: nat | j < |b.entries| && HasReceipt(b.entries[j]) :: life0 != Calls(KillAt(b, j, noreplace))
  {
    hide TempPath;
    forall j: nat | j < |b.entries| && HasReceipt(b.entries[j]) && life0 == Calls(KillAt(b, j, noreplace))
      ensures CutIn(b, j, LifeAfter(life, AllProgress(b) - 1), noreplace)
    {
    }
  }

  lemma DeadAtOnce(b: Bundle, m: Media, noreplace: bool)
    ensures FirstCut(b, Calls(0), m, noreplace)
  {
  }

  lemma NeverCut(b: Bundle, life: Life, m: Media, noreplace: bool)
    requires forall j: nat | j < |b.entries| && HasReceipt(b.entries[j]) :: life != Calls(KillAt(b, j, noreplace))
    ensures FirstCut(b, life, m, noreplace)
  {
  }

  /** The rename of a staging to the name of its hash. */
  function Moved(m: Media, h: string): Media
    requires h in m.stagings
  {
    Media(m.generations[h := m.stagings[h]], m.stagings - {h})
  }

  lemma PublishedInv(b: Bundle, m: Media, known: string -> Bundle)
    requires known(b.hash) == b && Inv(m, known) && m.Has(Staging, b.hash) && IsGeneration(b, m.At(Staging, b.hash))
    requires InOrder(b)
    ensures var n := Moved(m, b.hash);
      Inv(n, known) && Elsewhere(m, n, b.hash) && IsGeneration(b, n.generations[b.hash])
  {
    hide StagedOk, IsGeneration, InOrder;
    var n := Moved(m, b.hash);
    assert n.generations - {b.hash} == m.generations - {b.hash};
  }
}
