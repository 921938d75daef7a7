/** `write_entries` into a fresh directory: directories, files, links and modes, in one pass or with a second reading of
    the archive. */
module ExtractionWrite {
  import opened Extraction
  import opened Options

  /** A node of the destination. A directory that nobody asked for has the default mode. */
  datatype Node = DirNode(given: Option<nat>) | FileNode(content: Bytes, mode: nat) | LinkNode(target: RawPath)

  type Tree = map<Path, Node>

  // ------------------------------------------------------------------------------------------
  // The tree that entries describe
  // ------------------------------------------------------------------------------------------

  ghost predicate DistinctPaths(es: seq<Entry>) {
    forall i, j :: 0 <= i < j < |es| ==> es[i].path != es[j].path
  }

  /** The decoded entries of an acceptable archive, as the two passes see them. */
  ghost predicate EntriesOk(es: seq<Entry>) {
    && (forall e | e in es :: e.path != [])
    && DistinctPaths(es)
    && (forall d, e | d in es && e in es && Above(d.path, e.path) :: d.kind.Directory?)
  }

  predicate Implied(es: seq<Entry>, p: Path) { exists e | e in es :: Above(p, e.path) }

  /** `n` is what entry `e` asks for; the mode of a directory may still be missing. */
  predicate Fits(e: Entry, n: Node) {
    match e.kind
    case Directory => n.DirNode? && (n.given == None || n.given == Some(e.mode))
    case Regular(content) => n == FileNode(content, e.mode)
    case Sized(length) => n.FileNode? && |n.content| == length && n.mode == e.mode
    case Symlink(target) => n == LinkNode(target)
  }

  ghost predicate Legit(es: seq<Entry>, p: Path, n: Node) {
    && (forall e | e in es && e.path == p :: Fits(e, n))
    && ((exists e | e in es :: e.path == p) || (Implied(es, p) && n == DirNode(None)))
  }

  /** Everything there is asked for or implied, and every ancestor of it is there. */
  ghost predicate Partial(es: seq<Entry>, t: Tree) {
    && (forall p | p in t :: p != [] && Legit(es, p, t[p]))
    && (forall p, k | p in t && 0 < k < |p| :: p[..k] in t)
  }

  /** Exactly the listed nodes, with their modes, and the directories that they imply. */
  ghost predicate IsTree(es: seq<Entry>, t: Tree) {
    && Partial(es, t) && (forall e | e in es :: e.path in t)
    && (forall e | e in es && e.kind.Directory? :: t[e.path] == DirNode(Some(e.mode)))
  }

  /** A tree is determined by entries that carry their contents. */
  lemma TreeUnique(es: seq<Entry>, t: Tree, u: Tree)
    requires EntriesOk(es) && IsTree(es, t) && IsTree(es, u) && forall e | e in es :: !e.kind.Sized?
    ensures t == u
  {
    forall p ensures p in t <==> p in u {
      TreeDomain(es, t, p);
      TreeDomain(es, u, p);
    }
    forall p | p in t ensures t[p] == u[p] {
      assert Legit(es, p, t[p]) && Legit(es, p, u[p]);
    }
  }

  lemma TreeDomain(es: seq<Entry>, t: Tree, p: Path)
    requires EntriesOk(es) && IsTree(es, t)
    ensures p in t <==> (exists e | e in es :: e.path == p) || Implied(es, p)
  {
    if Implied(es, p) {
      var e :| e in es && Above(p, e.path);
      assert e.path in t && p == e.path[..|p|];
    }
    if p in t {
      assert Legit(es, p, t[p]);
    }
  }

  // ------------------------------------------------------------------------------------------
  // Steps
  // ------------------------------------------------------------------------------------------

  lemma ByPath(es: seq<Entry>, d: Entry, e: Entry)
    requires EntriesOk(es) && d in es && e in es && d.path == e.path
    ensures d == e
  {
    var i :| 0 <= i < |es| && es[i] == d;
    var j :| 0 <= j < |es| && es[j] == e;
  }

  /** A new directory on the way to an entry, below directories that are there. */
  lemma DirAppears(es: seq<Entry>, t: Tree, p: Path, e: Entry)
    requires EntriesOk(es) && Partial(es, t) && e in es && p !in t && p != [] && forall k | 0 < k < |p| :: p[..k] in t
    requires Above(p, e.path) || (p == e.path && e.kind.Directory?)
    ensures Partial(es, t[p := DirNode(None)])
  {
    forall d | d in es && d.path == p ensures Fits(d, DirNode(None)) {
      if p == e.path {
        ByPath(es, d, e);
      }
    }
    assert Legit(es, p, DirNode(None)) by {
      if p == e.path {
        assert exists d | d in es :: d.path == p;
      } else {
        assert Implied(es, p);
      }
    }
    hide Legit, EntriesOk;
    var u := t[p := DirNode(None)];
    forall q, k | q in u && 0 < k < |q| ensures q[..k] in u {
      if q != p {
        assert q[..k] in t;
      }
    }
  }

  /** What stands above an entry is a directory. */
  lemma AboveIsDir(es: seq<Entry>, t: Tree, p: Path, e: Entry)
    requires EntriesOk(es) && Partial(es, t) && e in es && p in t
    requires Above(p, e.path) || (p == e.path && e.kind.Directory?)
    ensures t[p].DirNode?
  {
    assert Legit(es, p, t[p]);
    if d :| d in es && d.path == p {
      if p == e.path {
        ByPath(es, d, e);
      } else {
        assert Above(d.path, e.path);
      }
      assert d.kind.Directory?;
    }
  }

  /** A file or link appears where its entry says. */
  lemma LeafAppears(es: seq<Entry>, t: Tree, e: Entry, n: Node)
    requires EntriesOk(es) && Partial(es, t) && e in es && e.path !in t && Fits(e, n)
    requires forall k | 0 < k < |e.path| :: e.path[..k] in t
    ensures Partial(es, t[e.path := n])
  {
    forall d | d in es && d.path == e.path ensures Fits(d, n) {
      ByPath(es, d, e);
    }
    hide Fits, EntriesOk;
    assert exists d | d in es :: d.path == e.path;
    assert e.path != [] by { NotRoot(es, e); }
    var u := t[e.path := n];
    forall q, k | q in u && 0 < k < |q| ensures q[..k] in u {
      if q != e.path {
        assert q[..k] in t;
      }
    }
  }

  lemma NotRoot(es: seq<Entry>, e: Entry)
    requires EntriesOk(es) && e in es
    ensures e.path != []
  {
  }

  /** The mode of a directory entry. */
  lemma ModeSet(es: seq<Entry>, t: Tree, e: Entry)
    requires EntriesOk(es) && Partial(es, t) && e in es && e.kind.Directory? && e.path in t
    ensures Partial(es, t[e.path := DirNode(Some(e.mode))])
  {
    forall d | d in es && d.path == e.path ensures Fits(d, DirNode(Some(e.mode))) {
      ByPath(es, d, e);
    }
    assert exists d | d in es :: d.path == e.path;
  }

  /** Directories alone never take the place of a file or a link. */
  lemma LeafStaysFree(es: seq<Entry>, t: Tree, u: Tree, e: Entry)
    requires Partial(es, u) && e in es && !e.kind.Directory? && e.path !in t
    requires forall p | p in u && p !in t :: u[p].DirNode?
    ensures e.path !in u
  {
    assert forall p | p in u :: Legit(es, p, u[p]);
  }

  // ------------------------------------------------------------------------------------------
  // The order in which entries are written
  // ------------------------------------------------------------------------------------------

  function Spelled(p: Path): string { if p == [] then "" else if |p| == 1 then p[0] else p[0] + "/" + Spelled(p[1..]) }

  predicate LessText(a: string, b: string) {
    b != "" && (a == "" || a[0] < b[0] || (a[0] == b[0] && LessText(a[1..], b[1..])))
  }

  /** Fewer components first, then by spelling. */
  predicate Before(a: Entry, b: Entry) {
    |a.path| < |b.path| || (|a.path| == |b.path| && LessText(Spelled(a.path), Spelled(b.path)))
  }

  function Insert(e: Entry, es: seq<Entry>): seq<Entry> {
    if es == [] || Before(e, es[0]) then [e] + es else [es[0]] + Insert(e, es[1..])
  }

  function Sort(es: seq<Entry>): seq<Entry> { if es == [] then [] else Insert(es[0], Sort(es[1..])) }

  lemma {:induction false} InsertKeeps(e: Entry, es: seq<Entry>)
    requires DistinctPaths(es) && forall d | d in es :: d.path != e.path
    ensures forall d :: d in Insert(e, es) <==> d == e || d in es
    ensures DistinctPaths(Insert(e, es))
  {
    hide Before;
    if es != [] && !Before(e, es[0]) {
      assert forall i | 0 <= i < |es[1..]| :: es[1..][i] == es[i + 1];
      assert forall d | d in es[1..] :: d in es && d.path != es[0].path;
      InsertKeeps(e, es[1..]);
      var more := Insert(e, es[1..]);
      assert forall i | 0 <= i < |more| :: more[i] in more;
      assert es[0] in es;
    } else {
      assert forall i | 0 <= i < |es| :: es[i] in es;
    }
  }

  lemma {:induction false} SortKeeps(es: seq<Entry>)
    requires DistinctPaths(es)
    ensures DistinctPaths(Sort(es)) && forall e :: e in Sort(es) <==> e in es
  {
    hide Insert;
    if es != [] {
      assert forall i | 0 <= i < |es[1..]| :: es[1..][i] == es[i + 1];
      SortKeeps(es[1..]);
      InsertKeeps(es[0], Sort(es[1..]));
      assert forall e :: e in es <==> e == es[0] || e in es[1..];
    }
  }

  lemma SortedOk(es: seq<Entry>)
    requires EntriesOk(es)
    ensures EntriesOk(Sort(es)) && forall e :: e in Sort(es) <==> e in es
  {
    hide Sort;
    SortKeeps(es);
  }
}
