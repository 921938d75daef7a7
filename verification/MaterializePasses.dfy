/** The phases of `write_entries`, the second reading of the archive among them, and both ways of materialising one. */
module MaterializePasses {
  import opened Extraction
  import opened ExtractionWrite
  import opened Materialize
  import opened Options

  // ------------------------------------------------------------------------------------------
  // Which entries a phase writes
  // ------------------------------------------------------------------------------------------

  datatype Phase = Directories | Kept | Measured | Links

  function PhaseOf(k: Kind): Phase {
    match k
    case Directory => Directories
    case Regular(_) => Kept
    case Sized(_) => Measured
    case Symlink(_) => Links
  }

  ghost function PathsOf(es: seq<Entry>, ph: Phase): set<Path> { set e | e in es && PhaseOf(e.kind) == ph :: e.path }

  lemma PathsStep(es: seq<Entry>, i: nat, ph: Phase)
    requires i < |es|
    ensures PathsOf(es[..i + 1], ph) == PathsOf(es[..i], ph) + if PhaseOf(es[i].kind) == ph then {es[i].path} else {}
  {
    assert es[..i + 1] == es[..i] + [es[i]];
  }

  /** An entry is in no other phase, and not yet in what was done of its own. */
  lemma NotYet(es: seq<Entry>, i: nat, ph: Phase)
    requires EntriesOk(es) && i < |es|
    ensures es[i].path !in PathsOf(es[..i], ph)
    ensures PhaseOf(es[i].kind) != ph ==> es[i].path !in PathsOf(es, ph)
  {
    forall e | e in es[..i] ensures e.path != es[i].path {
      var j :| 0 <= j < i && es[j] == e;
    }
    forall e | e in es && PhaseOf(e.kind) != PhaseOf(es[i].kind) ensures e.path != es[i].path {
      hide PhaseOf;
      if e.path == es[i].path {
        ByPath(es, e, es[i]);
      }
    }
  }

  lemma AllPhases(es: seq<Entry>, e: Entry)
    requires e in es
    ensures e.path in PathsOf(es, PhaseOf(e.kind))
  {
  }

  /** The directory that holds `p` is there. */
  predicate HasParent(t: Tree, p: Path) { p != [] && (|p| == 1 || p[..|p| - 1] in t) }

  lemma ParentReady(es: seq<Entry>, t: Tree, e: Entry)
    requires EntriesOk(es) && Partial(es, t) && e in es && HasParent(t, e.path)
    ensures |e.path| == 1 || t[e.path[..|e.path| - 1]].DirNode?
    ensures forall k | 0 < k < |e.path| :: e.path[..k] in t
  {
    var q := e.path[..|e.path| - 1];
    if |e.path| > 1 {
      AboveIsDir(es, t, q, e);
      forall k | 0 < k < |e.path| ensures e.path[..k] in t {
        if k < |q| {
          assert q[..k] == e.path[..k];
        } else {
          assert q == e.path[..k];
        }
      }
    }
  }

  /** What was there stays, the files as they were. */
  ghost predicate Grown(t: Tree, u: Tree) {
    && (forall p | p in t :: p in u)
    && (forall p | p in t && t[p].FileNode? :: u[p] == t[p])
  }

  lemma GrownDirs(t: Tree, q: Path)
    ensures Grown(t, WithDirs(t, q))
  {
    forall p | p in t ensures p in WithDirs(t, q) && WithDirs(t, q)[p] == t[p] {
      WithDirsAt(t, q, p);
    }
  }

  // ------------------------------------------------------------------------------------------
  // Directories, files, links, modes
  // ------------------------------------------------------------------------------------------

  lemma ParentOnTheWay(e: Entry)
    requires e.path != []
    ensures OnTheWay(e.path[..|e.path| - 1], e)
  {
  }

  /** `create_dir_all` of what holds an entry. */
  method MakeParent(d: Destination, ghost es: seq<Entry>, ghost done: set<Path>, e: Entry) returns (ok: bool)
    requires EntriesOk(es) && Stage(es, d.nodes, done) && e in es && e.path != []
    modifies d
    ensures ok && Stage(es, d.nodes, done) && HasParent(d.nodes, e.path) && Grown(old(d.nodes), d.nodes)
    ensures d.HasDir(e.path[..|e.path| - 1])
  {
    hide EntriesOk, Partial, ClearWay;
    var q := e.path[..|e.path| - 1];
    ParentOnTheWay(e);
    WayIsClear(es, d.nodes, e, q);
    StageDirs(es, d.nodes, done, e, q);
    GrownDirs(d.nodes, q);
    ok := d.CreateDirAll(q);
  }

  method MakeDirectory(d: Destination, ghost es: seq<Entry>, ghost done: set<Path>, e: Entry) returns (ok: bool)
    requires EntriesOk(es) && Stage(es, d.nodes, done) && e in es && e.path != [] && e.kind.Directory?
    modifies d
    ensures ok && Stage(es, d.nodes, done + {e.path}) && Grown(old(d.nodes), d.nodes)
  {
    hide EntriesOk, Partial;
    ok := MakeParent(d, es, done, e);
    ghost var t := d.nodes;
    ParentReady(es, t, e);
    if e.path in t {
      AboveIsDir(es, t, e.path, e);
    } else {
      StageOneDir(es, t, done, e, e.path);
    }
    var made := d.CreateDir(e.path);
    if made == None || (made == Some(false) && !d.HasDir(e.path)) {
      return false;
    }
    StageDirDone(es, d.nodes, done, e);
  }

  lemma NoPathsYet(s: seq<Entry>, ph: Phase)
    ensures PathsOf(s[..0], ph) == {}
  {
  }

  method MakeDirectories(d: Destination, s: seq<Entry>) returns (ok: bool)
    requires EntriesOk(s) && d.nodes == map[]
    modifies d
    ensures ok && Stage(s, d.nodes, PathsOf(s, Directories))
  {
    hide Stage, PathsOf, EntriesOk, Grown;
    StageEmpty(s);
    NoPathsYet(s, Directories);
    for i := 0 to |s|
      invariant Stage(s, d.nodes, PathsOf(s[..i], Directories))
    {
      PathsStep(s, i, Directories);
      assert PathsOf(s[..i], Directories) == PathsOf(s[..i], Directories) + {};
      if s[i].kind.Directory? {
        NotRoot(s, s[i]);
        ok := MakeDirectory(d, s, PathsOf(s[..i], Directories), s[i]);
        if !ok {
          return false;
        }
      }
    }
    assert s[..|s|] == s;
    return true;
  }

  /** A file or a link at its place, below a directory that is there. */
  lemma LeafDone(es: seq<Entry>, t: Tree, done: set<Path>, e: Entry, n: Node)
    requires EntriesOk(es) && Stage(es, t, done) && e in es && !e.kind.Directory? && e.path !in done && Fits(e, n)
    requires HasParent(t, e.path)
    ensures e.path !in t && Stage(es, t[e.path := n], done + {e.path}) && Grown(t, t[e.path := n])
    ensures |e.path| == 1 || t[e.path[..|e.path| - 1]].DirNode?
  {
    hide EntriesOk, Partial, Fits;
    ParentReady(es, t, e);
    StageLeaf(es, t, done, e, n);
  }

  /** The parents of the files whose content comes later. */
  ghost predicate ParentsMade(es: seq<Entry>, t: Tree) { forall e | e in es && e.kind.Sized? :: HasParent(t, e.path) }

  lemma ParentsStay(es: seq<Entry>, t: Tree, u: Tree)
    requires ParentsMade(es, t) && Grown(t, u)
    ensures ParentsMade(es, u)
  {
  }

  lemma ParentsStep(es: seq<Entry>, i: nat, t: Tree)
    requires i < |es| && ParentsMade(es[..i], t) && (es[i].kind.Sized? ==> HasParent(t, es[i].path))
    ensures ParentsMade(es[..i + 1], t)
  {
    assert es[..i + 1] == es[..i] + [es[i]];
  }

  lemma DirectoriesThenKept(s: seq<Entry>, i: nat)
    requires EntriesOk(s) && i < |s|
    ensures s[i].kind.Regular? ==> s[i].path !in PathsOf(s, Directories) + PathsOf(s[..i], Kept)
    ensures s[i].kind.Symlink? ==> s[i].path !in PathsOf(s, Directories) + PathsOf(s, Kept) + PathsOf(s, Measured)
                                                 + PathsOf(s[..i], Links)
  {
    NotYet(s, i, Directories);
    NotYet(s, i, Kept);
    NotYet(s, i, Measured);
    NotYet(s, i, Links);
  }

  /** One file of the first pass: its parents, and its content if it is at hand. */
  method MakeFile(d: Destination, ghost es: seq<Entry>, ghost done: set<Path>, e: Entry) returns (ok: bool)
    requires EntriesOk(es) && Stage(es, d.nodes, done) && e in es && e.path != []
    requires e.kind.Sized? || (e.kind.Regular? && e.path !in done)
    modifies d
    ensures ok && Stage(es, d.nodes, done + if e.kind.Regular? then {e.path} else {}) && Grown(old(d.nodes), d.nodes)
    ensures HasParent(d.nodes, e.path)
  {
    hide EntriesOk, Partial, Stage;
    ok := MakeParent(d, es, done, e);
    if !d.HasDir(e.path[..|e.path| - 1]) {
      return false;
    }
    assert done + {} == done;
    if e.kind.Regular? {
      LeafDone(es, d.nodes, done, e, FileNode(e.kind.content, e.mode));
      ok := d.WriteFile(e.path, e.kind.content, e.mode);
    }
  }

  method MakeFiles(d: Destination, s: seq<Entry>) returns (ok: bool)
    requires EntriesOk(s) && Stage(s, d.nodes, PathsOf(s, Directories))
    modifies d
    ensures ok && Stage(s, d.nodes, PathsOf(s, Directories) + PathsOf(s, Kept)) && ParentsMade(s, d.nodes)
  {
    hide Stage, PathsOf, EntriesOk, Grown, HasParent;
    NoPathsYet(s, Kept);
    ghost var dirs := PathsOf(s, Directories);
    assert dirs + {} == dirs;
    for i := 0 to |s|
      invariant Stage(s, d.nodes, dirs + PathsOf(s[..i], Kept)) && ParentsMade(s[..i], d.nodes)
    {
      PathsStep(s, i, Kept);
      ghost var done := dirs + PathsOf(s[..i], Kept);
      assert done + {s[i].path} == dirs + (PathsOf(s[..i], Kept) + {s[i].path});
      assert done == done + {} == dirs + (PathsOf(s[..i], Kept) + {});
      ghost var t := d.nodes;
      if s[i].kind.Regular? || s[i].kind.Sized? {
        NotRoot(s, s[i]);
        DirectoriesThenKept(s, i);
        ok := MakeFile(d, s, done, s[i]);
        if !ok {
          return false;
        }
        ParentsStay(s[..i], t, d.nodes);
      }
      ParentsStep(s, i, d.nodes);
    }
    assert s[..|s|] == s;
    return true;
  }

  method MakeLinks(d: Destination, s: seq<Entry>, ghost done: set<Path>) returns (ok: bool)
    requires EntriesOk(s) && Stage(s, d.nodes, done)
    requires done == PathsOf(s, Directories) + PathsOf(s, Kept) + PathsOf(s, Measured)
    modifies d
    ensures ok && Stage(s, d.nodes, done + PathsOf(s, Links)) && Grown(old(d.nodes), d.nodes)
  {
    hide Stage, PathsOf, EntriesOk, HasParent;
    NoPathsYet(s, Links);
    assert done + {} == done;
    for i := 0 to |s|
      invariant Stage(s, d.nodes, done + PathsOf(s[..i], Links)) && Grown(old(d.nodes), d.nodes)
    {
      PathsStep(s, i, Links);
      ghost var so := done + PathsOf(s[..i], Links);
      assert so + {s[i].path} == done + (PathsOf(s[..i], Links) + {s[i].path});
      assert so == done + (PathsOf(s[..i], Links) + {});
      match s[i].kind {
        case Symlink(target) =>
          NotRoot(s, s[i]);
          DirectoriesThenKept(s, i);
          ok := MakeParent(d, s, so, s[i]);
          if !d.HasDir(s[i].path[..|s[i].path| - 1]) {
            return false;
          }
          LeafDone(s, d.nodes, so, s[i], LinkNode(target));
          ok := d.Link(s[i].path, target);
          if !ok {
            return false;
          }
        case _ =>
      }
    }
    assert s[..|s|] == s;
    return true;
  }

  /** The modes, from the deepest directories up. */
  method SetModes(d: Destination, s: seq<Entry>, ghost done: set<Path>)
    requires EntriesOk(s) && Stage(s, d.nodes, done) && PathsOf(s, Directories) <= done
    modifies d
    ensures Stage(s, d.nodes, done) && Grown(old(d.nodes), d.nodes)
    ensures forall e | e in s && e.kind.Directory? :: e.path in d.nodes && d.nodes[e.path] == DirNode(Some(e.mode))
  {
    hide Stage, EntriesOk;
    for i := |s| downto 0
      invariant Stage(s, d.nodes, done) && Grown(old(d.nodes), d.nodes)
      invariant forall j | i <= j < |s| && s[j].kind.Directory? ::
        s[j].path in d.nodes && d.nodes[s[j].path] == DirNode(Some(s[j].mode))
    {
      if s[i].kind.Directory? {
        AllPhases(s, s[i]);
        StageMode(s, d.nodes, done, s[i]);
        d.SetMode(s[i].path, s[i].mode);
        Apart(s, i);
      }
    }
  }

  lemma Apart(s: seq<Entry>, i: nat)
    requires EntriesOk(s) && i < |s|
    ensures forall j | i < j < |s| :: s[j].path != s[i].path
  {
  }
}
