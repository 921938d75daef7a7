/** `write_entries` step by step on a fresh directory, and the two ways of materialising an archive: from entries that
    hold their contents, and in two passes over a file that may have changed between them. */
module Materialize {
  import opened Extraction
  import opened ExtractionWrite
  import opened Options

  const CREATE_MODE: nat := 384

  // ------------------------------------------------------------------------------------------
  // Directories and stages
  // ------------------------------------------------------------------------------------------

  /** `t` after `p` and everything above it has been made where it was missing. */
  function WithDirs(t: Tree, p: Path): Tree {
    if p == [] then t
    else
      var u := WithDirs(t, p[..|p| - 1]);
      if p in u then u else u[p := DirNode(None)]
  }

  /** Nothing on the way to `p`, nor at it, is anything but a directory. */
  ghost predicate ClearWay(t: Tree, p: Path) { forall k | 0 < k <= |p| && p[..k] in t :: t[p[..k]].DirNode? }

  /** `q` is, or stands above, the directory entry `e`; or it stands above the file or link `e`. */
  predicate OnTheWay(q: Path, e: Entry) { q == [] || Above(q, e.path) || (q == e.path && e.kind.Directory?) }

  /** Part of the tree is there: the entries in `done`, and of the files and links no others. */
  ghost predicate Stage(es: seq<Entry>, t: Tree, done: set<Path>) {
    && Partial(es, t)
    && (forall e | e in es && e.path in done :: e.path in t)
    && (forall e | e in es && !e.kind.Directory? && e.path in t :: e.path in done)
  }

  lemma {:induction false} WithDirsAt(t: Tree, p: Path, q: Path)
    ensures q in WithDirs(t, p) <==> q in t || (0 < |q| <= |p| && q == p[..|q|])
    ensures q in WithDirs(t, p) ==> WithDirs(t, p)[q] == if q in t then t[q] else DirNode(None)
    decreases |p|
  {
    if p != [] {
      var p' := p[..|p| - 1];
      WithDirsAt(t, p', q);
      WithDirsAt(t, p', p);
      if 0 < |q| < |p| {
        assert p'[..|q|] == p[..|q|];
      }
      if |q| == |p| {
        assert p[..|q|] == p;
      }
    }
  }

  lemma WayIsClear(es: seq<Entry>, t: Tree, e: Entry, q: Path)
    requires EntriesOk(es) && Partial(es, t) && e in es && OnTheWay(q, e)
    ensures ClearWay(t, q)
  {
    forall k | 0 < k <= |q| && q[..k] in t ensures t[q[..k]].DirNode? {
      PrefixOnTheWay(q, k, e);
      hide *;
      AboveIsDir(es, t, q[..k], e);
    }
  }

  lemma PrefixOnTheWay(q: Path, k: nat, e: Entry)
    requires OnTheWay(q, e) && 0 < k <= |q|
    ensures Above(q[..k], e.path) || (q[..k] == e.path && e.kind.Directory?)
  {
    if k == |q| {
      assert q[..k] == q;
    } else {
      assert q[..k] == e.path[..k];
    }
  }

  /** Making directories towards an entry keeps the stage. */
  lemma {:induction false} StageDirs(es: seq<Entry>, t: Tree, done: set<Path>, e: Entry, q: Path)
    requires EntriesOk(es) && Stage(es, t, done) && e in es && OnTheWay(q, e)
    ensures Stage(es, WithDirs(t, q), done)
    ensures q != [] ==> q in WithDirs(t, q)
    decreases |q|
  {
    if q != [] {
      var up := q[..|q| - 1];
      assert OnTheWay(up, e) by {
        if up != [] {
          PrefixOnTheWay(q, |q| - 1, e);
        }
      }
      StageDirs(es, t, done, e, up);
      var u := WithDirs(t, up);
      if q !in u {
        forall k | 0 < k < |q| ensures q[..k] in u {
          WithDirsAt(t, up, q[..k]);
          assert up[..k] == q[..k];
        }
        StageOneDir(es, u, done, e, q);
      }
    }
  }

  lemma StageOneDir(es: seq<Entry>, t: Tree, done: set<Path>, e: Entry, q: Path)
    requires EntriesOk(es) && Stage(es, t, done) && e in es && OnTheWay(q, e) && q != [] && q !in t
    requires forall k | 0 < k < |q| :: q[..k] in t
    ensures Stage(es, t[q := DirNode(None)], done)
  {
    hide EntriesOk, Partial;
    var u := t[q := DirNode(None)];
    DirAppears(es, t, q, e);
    forall d | d in es && !d.kind.Directory? && d.path in u ensures d.path in done {
      if d.path !in t {
        LeafStaysFree(es, t, u, d);
      }
    }
  }

  lemma StageLeaf(es: seq<Entry>, t: Tree, done: set<Path>, e: Entry, n: Node)
    requires EntriesOk(es) && Stage(es, t, done) && e in es && !e.kind.Directory? && e.path !in done && Fits(e, n)
    requires forall k | 0 < k < |e.path| :: e.path[..k] in t
    ensures e.path !in t && Stage(es, t[e.path := n], done + {e.path})
  {
    hide EntriesOk, Partial, Fits;
    LeafAppears(es, t, e, n);
  }

  lemma StageDirDone(es: seq<Entry>, t: Tree, done: set<Path>, e: Entry)
    requires EntriesOk(es) && Stage(es, t, done) && e in es && e.path in t
    ensures Stage(es, t, done + {e.path})
  {
  }

  lemma StageMode(es: seq<Entry>, t: Tree, done: set<Path>, e: Entry)
    requires EntriesOk(es) && Stage(es, t, done) && e in es && e.kind.Directory? && e.path in done
    ensures e.path in t && t[e.path].DirNode? && Stage(es, t[e.path := DirNode(Some(e.mode))], done)
  {
    assert Legit(es, e.path, t[e.path]) && e.path in t;
    hide EntriesOk, Partial, Legit;
    ModeSet(es, t, e);
  }

  lemma StageEmpty(es: seq<Entry>)
    ensures Stage(es, map[], {})
  {
  }

  /** With every entry done and every mode set, the tree is the one described. */
  lemma StageIsTree(es: seq<Entry>, s: seq<Entry>, t: Tree, done: set<Path>)
    requires Stage(s, t, done) && (forall e :: e in s <==> e in es) && (forall e | e in s :: e.path in done)
    requires forall e | e in s && e.kind.Directory? :: e.path in t && t[e.path] == DirNode(Some(e.mode))
    ensures IsTree(es, t)
  {
    hide Fits;
    forall p | p in t ensures Legit(es, p, t[p]) {
      assert Legit(s, p, t[p]);
      if Implied(s, p) {
        var e :| e in s && Above(p, e.path);
        assert e in es;
      }
    }
  }

  // ------------------------------------------------------------------------------------------
  // The second reading
  // ------------------------------------------------------------------------------------------

  /** `raw` spells the path `p`, as the comparison of paths by components sees it. */
  predicate Spells(raw: RawPath, p: Path) {
    raw.utf8 && (forall c | c in raw.components :: c.Normal?) && PathOf(raw) == p
  }

  /** The item brings the content of entry `e`, all of it. */
  predicate Brings(i: Item, e: Entry) {
    i.itemType == RegularItem && e.kind == Sized(i.size) && |i.data| == i.size && Spells(i.path, e.path)
  }

  /** The regular files of the archive are, each once, those that were promised. Nothing else of it matters. */
  ghost predicate Delivers(es: seq<Entry>, items: seq<Item>) {
    && (forall i | i in items && i.itemType == RegularItem :: exists e | e in es :: Brings(i, e))
    && (forall j, k | 0 <= j < k < |items| && items[j].itemType == items[k].itemType == RegularItem ::
          PathOf(items[j].path) != PathOf(items[k].path))
    && (forall e | e in es && e.kind.Sized? :: exists i | i in items :: Brings(i, e))
  }

  /** The promised files hold what the archive brought for them. */
  ghost predicate HasContents(es: seq<Entry>, items: seq<Item>, t: Tree) {
    forall i, e | i in items && e in es && Brings(i, e) :: e.path in t && t[e.path] == FileNode(i.data, e.mode)
  }

  // ------------------------------------------------------------------------------------------
  // The destination
  // ------------------------------------------------------------------------------------------

  class Destination {
    var nodes: Tree

    /** `fs::create_dir(destination)` made it; nothing is in it. */
    constructor ()
      ensures nodes == map[]
    {
      nodes := map[];
    }

    predicate HasDir(p: Path)
      reads this
    {
      p == [] || (p in nodes && nodes[p].DirNode?)
    }

    /** One directory: `Some(true)` if it is new, `Some(false)` if something is there, `None` without a parent. */
    method CreateDir(p: Path) returns (made: Option<bool>)
      requires p != []
      modifies this
      ensures made == if p in old(nodes) then Some(false) else if old(HasDir(p[..|p| - 1])) then Some(true) else None
      ensures nodes == if made == Some(true) then old(nodes)[p := DirNode(None)] else old(nodes)
    {
      if p in nodes {
        return Some(false);
      }
      if !HasDir(p[..|p| - 1]) {
        return None;
      }
      nodes := nodes[p := DirNode(None)];
      return Some(true);
    }

    /** A directory and all above it. */
    method CreateDirAll(p: Path) returns (ok: bool)
      modifies this
      ensures ok <==> ClearWay(old(nodes), p)
      ensures ok ==> nodes == WithDirs(old(nodes), p) && HasDir(p)
    {
      ghost var t := nodes;
      for k := 1 to |p| + 1
        invariant nodes == WithDirs(t, p[..k - 1]) && ClearWay(t, p[..k - 1]) && HasDir(p[..k - 1])
      {
        assert p[..k][..k - 1] == p[..k - 1];
        WithDirsAt(t, p[..k - 1], p[..k]);
        var made := CreateDir(p[..k]);
        if made == None || (made == Some(false) && !HasDir(p[..k])) {
          ClearPrefix(t, p, k);
          return false;
        }
        ClearStep(t, p, k);
      }
      assert p[..|p|] == p;
      return true;
    }

    method CreateNew(p: Path) returns (ok: bool)
      requires p != []
      modifies this
      ensures ok <==> p !in old(nodes) && old(HasDir(p[..|p| - 1]))
      ensures nodes == if ok then old(nodes)[p := FileNode("", CREATE_MODE)] else old(nodes)
    {
      ok := p !in nodes && HasDir(p[..|p| - 1]);
      if ok {
        nodes := nodes[p := FileNode("", CREATE_MODE)];
      }
    }

    method Append(p: Path, data: Bytes)
      requires p in nodes && nodes[p].FileNode?
      modifies this
      ensures nodes == old(nodes)[p := FileNode(old(nodes[p].content) + data, old(nodes[p].mode))]
    {
      nodes := nodes[p := nodes[p].(content := nodes[p].content + data)];
    }

    /** `set_permissions` on a file or a directory. */
    method SetMode(p: Path, mode: nat)
      requires p in nodes && !nodes[p].LinkNode?
      modifies this
      ensures nodes == old(nodes)[p := if old(nodes[p].DirNode?) then DirNode(Some(mode))
                                       else FileNode(old(nodes[p].content), mode)]
    {
      nodes := nodes[p := if nodes[p].DirNode? then DirNode(Some(mode)) else nodes[p].(mode := mode)];
    }

    method Link(p: Path, target: RawPath) returns (ok: bool)
      requires p != []
      modifies this
      ensures ok <==> p !in old(nodes) && old(HasDir(p[..|p| - 1]))
      ensures nodes == if ok then old(nodes)[p := LinkNode(target)] else old(nodes)
    {
      ok := p !in nodes && HasDir(p[..|p| - 1]);
      if ok {
        nodes := nodes[p := LinkNode(target)];
      }
    }

    /** A new file with its content and mode. */
    method WriteFile(p: Path, data: Bytes, mode: nat) returns (ok: bool)
      requires p != []
      modifies this
      ensures ok <==> p !in old(nodes) && old(HasDir(p[..|p| - 1]))
      ensures nodes == if ok then old(nodes)[p := FileNode(data, mode)] else old(nodes)
    {
      ok := CreateNew(p);
      if ok {
        Append(p, data);
        assert "" + data == data;
        SetMode(p, mode);
      }
    }
  }

  lemma ClearStep(t: Tree, p: Path, k: nat)
    requires 0 < k <= |p| && ClearWay(t, p[..k - 1]) && (p[..k] in t ==> t[p[..k]].DirNode?)
    ensures ClearWay(t, p[..k])
  {
    forall j | 0 < j <= k && p[..k][..j] in t ensures t[p[..k][..j]].DirNode? {
      assert p[..k][..j] == p[..j];
      if j < k {
        assert p[..k - 1][..j] == p[..j];
      }
    }
  }

  lemma ClearPrefix(t: Tree, p: Path, k: nat)
    requires 0 < k <= |p| && p[..k] in t && !t[p[..k]].DirNode?
    ensures !ClearWay(t, p)
  {
  }
}
