/** The second reading of the archive, the whole of `write_entries`, and both ways of materialising an archive. */
module MaterializeArchive {
  import opened Extraction
  import opened ExtractionWrite
  import opened Materialize
  import opened MaterializePasses
  import opened Options

  // ------------------------------------------------------------------------------------------
  // What was promised
  // ------------------------------------------------------------------------------------------

  datatype Promise = Promise(mode: nat, length: nat)

  ghost predicate Promised(es: seq<Entry>, m: map<Path, Promise>) {
    && (forall p | p in m :: exists e | e in es :: e.path == p && e.kind.Sized?)
    && (forall e | e in es && e.kind.Sized? :: e.path in m && m[e.path] == Promise(e.mode, e.kind.length))
  }

  lemma PromiseOne(es: seq<Entry>, i: nat, m: map<Path, Promise>)
    requires EntriesOk(es) && i < |es| && Promised(es[..i], m)
    ensures Promised(es[..i + 1],
                     if es[i].kind.Sized? then m[es[i].path := Promise(es[i].mode, es[i].kind.length)] else m)
  {
    assert es[..i + 1] == es[..i] + [es[i]];
    forall e | e in es[..i] ensures e.path != es[i].path {
      var j :| 0 <= j < i && es[j] == e;
    }
  }

  /** `esperados` */
  method Promises(es: seq<Entry>) returns (m: map<Path, Promise>)
    requires EntriesOk(es)
    ensures Promised(es, m)
  {
    hide EntriesOk;
    m := map[];
    for i := 0 to |es|
      invariant Promised(es[..i], m)
    {
      PromiseOne(es, i, m);
      match es[i].kind {
        case Sized(length) => m := m[es[i].path := Promise(es[i].mode, length)];
        case _ =>
      }
    }
    assert es[..|es|] == es;
  }

  // ------------------------------------------------------------------------------------------
  // The second reading
  // ------------------------------------------------------------------------------------------

  ghost function RegularPaths(items: seq<Item>): set<Path> {
    set i | i in items && i.itemType == RegularItem :: PathOf(i.path)
  }

  ghost predicate AllBrought(es: seq<Entry>, items: seq<Item>) {
    forall i | i in items && i.itemType == RegularItem :: exists e | e in es :: Brings(i, e)
  }

  ghost predicate NoneTwice(items: seq<Item>) {
    forall j, k | 0 <= j < k < |items| && items[j].itemType == items[k].itemType == RegularItem ::
      PathOf(items[j].path) != PathOf(items[k].path)
  }

  /** What has been copied of the archive, in a tree that already held `done`. */
  ghost predicate Copied(es: seq<Entry>, items: seq<Item>, done: set<Path>, t: Tree) {
    && Stage(es, t, done + RegularPaths(items)) && AllBrought(es, items) && NoneTwice(items)
    && HasContents(es, items, t)
    && ParentsMade(es, t)
  }

  lemma NothingCopied(es: seq<Entry>, items: seq<Item>, done: set<Path>, t: Tree)
    requires Stage(es, t, done) && ParentsMade(es, t)
    ensures Copied(es, items[..0], done, t)
  {
    hide Stage, ParentsMade;
    assert done + RegularPaths(items[..0]) == done;
  }

  /** The archive does not deliver what was promised: it brings an unknown file, or a wrong amount, or a file twice. */
  lemma NotBrought(es: seq<Entry>, items: seq<Item>, n: nat)
    requires n < |items| && items[n].itemType == RegularItem && forall e | e in es :: !Brings(items[n], e)
    ensures !Delivers(es, items)
  {
    assert items[n] in items;
  }

  lemma UnknownFile(es: seq<Entry>, m: map<Path, Promise>, i: Item, e: Entry)
    requires Promised(es, m) && e in es && Brings(i, e)
    ensures Spells(i.path, PathOf(i.path)) && PathOf(i.path) in m && m[PathOf(i.path)] == Promise(e.mode, i.size)
    ensures |i.data| == i.size
  {
  }

  lemma PromisedEntry(es: seq<Entry>, m: map<Path, Promise>, i: Item) returns (e: Entry)
    requires EntriesOk(es) && Promised(es, m) && i.itemType == RegularItem && Spells(i.path, PathOf(i.path))
    requires PathOf(i.path) in m && i.size == m[PathOf(i.path)].length
    ensures e in es && e.path == PathOf(i.path) && e.kind == Sized(i.size) && e.mode == m[e.path].mode
    ensures |i.data| == i.size ==> Brings(i, e)
  {
    e :| e in es && e.path == PathOf(i.path) && e.kind.Sized?;
  }

  lemma TwiceThere(items: seq<Item>, n: nat)
    requires n < |items| && items[n].itemType == RegularItem && PathOf(items[n].path) in RegularPaths(items[..n])
    ensures !NoneTwice(items)
  {
    var j :| 0 <= j < n && items[j].itemType == RegularItem && PathOf(items[j].path) == PathOf(items[n].path);
  }

  lemma SkipOne(es: seq<Entry>, items: seq<Item>, n: nat, done: set<Path>, t: Tree)
    requires n < |items| && items[n].itemType != RegularItem && Copied(es, items[..n], done, t)
    ensures Copied(es, items[..n + 1], done, t)
  {
    hide Stage, ParentsMade;
    assert items[..n + 1] == items[..n] + [items[n]];
    assert RegularPaths(items[..n + 1]) == RegularPaths(items[..n]);
  }

  lemma CopyOne(es: seq<Entry>, items: seq<Item>, n: nat, done: set<Path>, t: Tree, e: Entry)
    requires EntriesOk(es) && n < |items| && Copied(es, items[..n], done, t) && e in es && Brings(items[n], e)
    requires e.path !in done && PathOf(items[n].path) !in RegularPaths(items[..n])
    ensures Copied(es, items[..n + 1], done, t[e.path := FileNode(items[n].data, e.mode)])
    ensures e.path !in t && (|e.path| == 1 || t[e.path[..|e.path| - 1]].DirNode?)
  {
    hide Stage, EntriesOk, ParentsMade;
    var got := RegularPaths(items[..n]);
    var node := FileNode(items[n].data, e.mode);
    var u := t[e.path := node];
    ParentThere(es, t, e);
    LeafDone(es, t, done + got, e, node);
    assert items[..n + 1] == items[..n] + [items[n]];
    assert RegularPaths(items[..n + 1]) == got + {e.path};
    assert done + got + {e.path} == done + (got + {e.path});
    ParentsStay(es, t, u);
    assert NoneTwice(items[..n + 1]) by {
      NoneTwiceYet(items, n);
    }
    assert HasContents(es, items[..n + 1], u) by {
      ContentsOne(es, items, n, t, e);
    }
  }

  lemma ParentThere(es: seq<Entry>, t: Tree, e: Entry)
    requires ParentsMade(es, t) && e in es && e.kind.Sized?
    ensures HasParent(t, e.path)
  {
  }

  lemma NoneTwiceYet(items: seq<Item>, n: nat)
    requires n < |items| && NoneTwice(items[..n]) && PathOf(items[n].path) !in RegularPaths(items[..n])
    ensures NoneTwice(items[..n + 1])
  {
    forall j | 0 <= j < n && items[j].itemType == RegularItem ensures PathOf(items[j].path) != PathOf(items[n].path) {
      assert items[..n][j] in items[..n];
    }
    forall j, k | 0 <= j < k < n && items[j].itemType == items[k].itemType == RegularItem
      ensures PathOf(items[j].path) != PathOf(items[k].path)
    {
      assert items[..n][j] == items[j] && items[..n][k] == items[k];
    }
  }

  lemma ContentsOne(es: seq<Entry>, items: seq<Item>, n: nat, t: Tree, e: Entry)
    requires EntriesOk(es) && n < |items| && HasContents(es, items[..n], t) && e in es && Brings(items[n], e)
    requires e.path !in t
    ensures HasContents(es, items[..n + 1], t[e.path := FileNode(items[n].data, e.mode)])
  {
    hide EntriesOk;
    forall d | d in es && Brings(items[n], d) ensures d == e {
      ByPath(es, d, e);
    }
    assert items[..n + 1] == items[..n] + [items[n]];
  }

  /** Once everything is copied, a promised file is there exactly if the archive brought it. */
  lemma PromisedThere(es: seq<Entry>, items: seq<Item>, done: set<Path>, t: Tree, e: Entry)
    requires EntriesOk(es) && Copied(es, items, done, t) && e in es && e.kind.Sized? && e.path !in done
    ensures e.path in t <==> exists i | i in items :: Brings(i, e)
  {
    if e.path in t {
      assert e.path in RegularPaths(items);
      var i :| i in items && i.itemType == RegularItem && PathOf(i.path) == e.path;
      var d :| d in es && Brings(i, d);
      ByPath(es, d, e);
    }
    if i :| i in items && Brings(i, e) {
      assert PathOf(i.path) in RegularPaths(items);
    }
  }

  /** One item of the second reading. */
  method CopyItem(d: Destination, ghost es: seq<Entry>, m: map<Path, Promise>, items: seq<Item>, n: nat,
                  ghost done: set<Path>) returns (ok: bool)
    requires EntriesOk(es) && Promised(es, m) && n < |items| && Copied(es, items[..n], done, d.nodes)
    requires items[n].itemType == RegularItem && forall e | e in es && e.kind.Sized? :: e.path !in done
    modifies d
    ensures ok ==> Copied(es, items[..n + 1], done, d.nodes)
    ensures !ok ==> !Delivers(es, items)
  {
    hide EntriesOk, Copied, Promised, Brings, Spells, Stage;
    var item := items[n];
    var path := PathOf(item.path);
    forall e | e in es && Brings(item, e)
      ensures Spells(item.path, path) && path in m && m[path] == Promise(e.mode, item.size) && |item.data| == item.size
    {
      UnknownFile(es, m, item, e);
    }
    if !Spells(item.path, path) || path !in m || item.size != m[path].length {
      NotBrought(es, items, n);
      return false;
    }
    ghost var e := PromisedEntry(es, m, item);
    if path in d.nodes {
      AlreadyCopied(es, items, n, done, d.nodes, e);
      return false;
    }
    NotYetCopied(es, items, n, done, d.nodes, e);
    ok := d.WriteFile(path, item.data, m[path].mode);
    if |item.data| != m[path].length {
      NotBrought(es, items, n);
      return false;
    }
    CopyOne(es, items, n, done, old(d.nodes), e);
  }

  lemma AlreadyCopied(es: seq<Entry>, items: seq<Item>, n: nat, done: set<Path>, t: Tree, e: Entry)
    requires n < |items| && Copied(es, items[..n], done, t) && e in es && e.kind.Sized? && e.path !in done
    requires e.path in t
    requires e.path == PathOf(items[n].path) && items[n].itemType == RegularItem
    ensures !Delivers(es, items)
  {
    TwiceThere(items, n);
  }

  lemma NotYetCopied(es: seq<Entry>, items: seq<Item>, n: nat, done: set<Path>, t: Tree, e: Entry)
    requires EntriesOk(es) && n < |items| && Copied(es, items[..n], done, t) && e in es && e.kind.Sized?
    requires e.path !in t
    ensures e.path !in RegularPaths(items[..n]) && e.path != []
    ensures |e.path| == 1 || (e.path[..|e.path| - 1] in t && t[e.path[..|e.path| - 1]].DirNode?)
  {
    CopiedIsThere(es, items[..n], done, t);
    ParentThere(es, t, e);
    ParentReady(es, t, e);
  }

  lemma CopiedIsThere(es: seq<Entry>, items: seq<Item>, done: set<Path>, t: Tree)
    requires Copied(es, items, done, t)
    ensures forall p | p in RegularPaths(items) :: p in t
  {
    hide EntriesOk, Stage;
    forall p | p in RegularPaths(items) ensures p in t {
      var i :| i in items && i.itemType == RegularItem && PathOf(i.path) == p;
      var e :| e in es && Brings(i, e);
    }
  }

  /** The second reading writes the promised files and nothing else, and succeeds exactly if the archive brings every
      one of them, whole, once, and no other file. */
  method SecondPass(d: Destination, es: seq<Entry>, items: seq<Item>, ghost done: set<Path>) returns (ok: bool)
    requires EntriesOk(es) && Stage(es, d.nodes, done) && ParentsMade(es, d.nodes)
    requires forall e | e in es && e.kind.Sized? :: e.path !in done
    modifies d
    ensures ok <==> Delivers(es, items)
    ensures ok ==> Stage(es, d.nodes, done + PathsOf(es, Measured)) && HasContents(es, items, d.nodes)
  {
    hide EntriesOk, Copied, Promised, Stage, Brings;
    var m := Promises(es);
    NothingCopied(es, items, done, d.nodes);
    for n := 0 to |items|
      invariant Copied(es, items[..n], done, d.nodes)
    {
      if items[n].itemType == RegularItem {
        ok := CopyItem(d, es, m, items, n, done);
        if !ok {
          return false;
        }
      } else {
        SkipOne(es, items, n, done, d.nodes);
      }
    }
    assert items[..|items|] == items;
    var rest := m.Keys;
    while rest != {}
      invariant rest <= m.Keys && forall p | p in m && p !in rest :: p in d.nodes
    {
      var p :| p in rest;
      if p !in d.nodes {
        NotDelivered(es, m, items, done, d.nodes, p);
        return false;
      }
      rest := rest - {p};
    }
    AllDelivered(es, m, items, done, d.nodes);
    return true;
  }

  lemma NotDelivered(es: seq<Entry>, m: map<Path, Promise>, items: seq<Item>, done: set<Path>, t: Tree, p: Path)
    requires EntriesOk(es) && Promised(es, m) && Copied(es, items, done, t) && p in m && p !in t
    requires forall e | e in es && e.kind.Sized? :: e.path !in done
    ensures !Delivers(es, items)
  {
    hide EntriesOk, Copied, Brings;
    var e :| e in es && e.path == p && e.kind.Sized?;
    PromisedThere(es, items, done, t, e);
  }

  lemma AllDelivered(es: seq<Entry>, m: map<Path, Promise>, items: seq<Item>, done: set<Path>, t: Tree)
    requires EntriesOk(es) && Promised(es, m) && Copied(es, items, done, t) && forall p | p in m :: p in t
    requires forall e | e in es && e.kind.Sized? :: e.path !in done
    ensures Delivers(es, items) && Stage(es, t, done + PathsOf(es, Measured)) && HasContents(es, items, t)
  {
    hide EntriesOk, Brings, Stage;
    forall e | e in es && e.kind.Sized? ensures exists i | i in items :: Brings(i, e) {
      PromisedThere(es, items, done, t, e);
    }
    RegularAreMeasured(es, items);
  }

  lemma RegularAreMeasured(es: seq<Entry>, items: seq<Item>)
    requires AllBrought(es, items) && forall e | e in es && e.kind.Sized? :: exists i | i in items :: Brings(i, e)
    ensures RegularPaths(items) == PathsOf(es, Measured)
  {
    hide Brings, PathOf, PhaseOf;
    forall p | p in RegularPaths(items) ensures p in PathsOf(es, Measured) {
      var i :| i in items && i.itemType == RegularItem && PathOf(i.path) == p;
      var e :| e in es && Brings(i, e);
      BringsParts(i, e);
    }
    forall p | p in PathsOf(es, Measured) ensures p in RegularPaths(items) {
      var e :| e in es && PhaseOf(e.kind) == Measured && e.path == p;
      MeasuredIsSized(e);
      var i :| i in items && Brings(i, e);
      BringsParts(i, e);
    }
  }

  lemma MeasuredIsSized(e: Entry)
    ensures PhaseOf(e.kind) == Measured <==> e.kind.Sized?
  {
  }

  lemma BringsParts(i: Item, e: Entry)
    requires Brings(i, e)
    ensures i.itemType == RegularItem && PathOf(i.path) == e.path && PhaseOf(e.kind) == Measured
  {
  }

  // ------------------------------------------------------------------------------------------
  // `write_entries`
  // ------------------------------------------------------------------------------------------

  ghost predicate SameEntries(es: seq<Entry>, s: seq<Entry>) { forall e :: e in s <==> e in es }

  lemma SortedDelivers(es: seq<Entry>, s: seq<Entry>, items: seq<Item>, t: Tree)
    requires SameEntries(es, s)
    ensures Delivers(s, items) <==> Delivers(es, items)
    ensures HasContents(s, items, t) <==> HasContents(es, items, t)
  {
    hide Brings;
  }

  lemma ContentsStay(es: seq<Entry>, items: seq<Item>, t: Tree, u: Tree)
    requires HasContents(es, items, t) && Grown(t, u)
    ensures HasContents(es, items, u)
  {
    hide Brings;
  }

  lemma GrownTwice(t: Tree, u: Tree, v: Tree)
    requires Grown(t, u) && Grown(u, v)
    ensures Grown(t, v)
  {
  }

  /** Nothing was promised, so the second reading is not needed. */
  lemma NothingMeasured(es: seq<Entry>)
    requires forall e | e in es :: !e.kind.Sized?
    ensures PathsOf(es, Measured) == {}
  {
    hide EntriesOk;
  }

  lemma MeasuredLater(es: seq<Entry>)
    requires EntriesOk(es)
    ensures forall e | e in es && e.kind.Sized? :: e.path !in PathsOf(es, Directories) + PathsOf(es, Kept)
  {
    hide EntriesOk;
    forall e | e in es && e.kind.Sized? ensures e.path !in PathsOf(es, Directories) + PathsOf(es, Kept) {
      var i :| 0 <= i < |es| && es[i] == e;
      NotYet(es, i, Directories);
      NotYet(es, i, Kept);
    }
  }

  lemma AllDone(es: seq<Entry>, done: set<Path>)
    requires done == PathsOf(es, Directories) + PathsOf(es, Kept) + PathsOf(es, Measured) + PathsOf(es, Links)
    ensures forall e | e in es :: e.path in done
  {
    hide PathsOf;
    forall e | e in es ensures e.path in done {
      AllPhases(es, e);
    }
  }

  /** Into a fresh directory: nothing collides, so the only failure is an archive that changed between the passes; and
      what is there at the end is exactly what the entries say, with the contents of the second reading. */
  method WriteEntries(d: Destination, es: seq<Entry>, second: Option<seq<Item>>) returns (ok: bool)
    requires EntriesOk(es) && d.nodes == map[] && (second.None? ==> forall e | e in es :: !e.kind.Sized?)
    modifies d
    ensures ok <==> second.None? || Delivers(es, second.value)
    ensures ok ==> IsTree(es, d.nodes) && (second.Some? ==> HasContents(es, second.value, d.nodes))
  {
    hide *;
    var s := Sort(es);
    SortedOk(es);
    assert SameEntries(es, s) by { SameAfterSort(es); }
    ok := MakeDirectories(d, s);
    if !ok {
      return false;
    }
    ok := MakeFiles(d, s);
    if !ok {
      return false;
    }
    ghost var done := PathsOf(s, Directories) + PathsOf(s, Kept);
    MeasuredLater(s);
    if second.Some? {
      SortedDelivers(es, s, second.value, d.nodes);
      ok := SecondPass(d, s, second.value, done);
      if !ok {
        return false;
      }
    } else {
      NothingMeasured(s);
      assert done == done + PathsOf(s, Measured);
    }
    done := done + PathsOf(s, Measured);
    ghost var t := d.nodes;
    ok := MakeLinks(d, s, done);
    if !ok {
      return false;
    }
    done := done + PathsOf(s, Links);
    ghost var u := d.nodes;
    assert PathsOf(s, Directories) <= done;
    SetModes(d, s, done);
    AllDone(s, done);
    GrownTwice(t, u, d.nodes);
    StageIsTree(es, s, d.nodes, done);
    if second.Some? {
      ContentsStay(s, second.value, t, d.nodes);
      SortedDelivers(es, s, second.value, d.nodes);
    }
    return true;
  }

  lemma SameAfterSort(es: seq<Entry>)
    requires EntriesOk(es)
    ensures SameEntries(es, Sort(es))
  {
    SortedOk(es);
  }

  // ------------------------------------------------------------------------------------------
  // The two ways
  // ------------------------------------------------------------------------------------------

  lemma {:induction false} NamesLength(components: seq<Component>)
    requires forall c | c in components :: c.Normal?
    ensures |NamesOf(components)| == |components|
  {
    if components != [] {
      assert forall c | c in components[1..] :: c in components;
      NamesLength(components[1..]);
    }
  }

  /** Entries that were accepted can be written, whichever way they treat the contents. */
  lemma AcceptableIsOk(items: seq<Item>, policy: Policy, limit: nat, content: ContentPolicy)
    requires Acceptable(items, policy, limit)
    ensures EntriesOk(EntriesOf(items, content))
  {
    hide ContentBytes;
    var es := EntriesOf(items, content);
    forall e | e in es ensures e.path != [] {
      var i :| 0 <= i < |items| && es[i] == e;
      PathGiven(items[i], policy);
    }
    hide ItemOk, PathOf;
    forall a, e | a in es && e in es && Above(a.path, e.path) ensures a.kind.Directory? {
      var i :| 0 <= i < |items| && es[i] == a;
      var j :| 0 <= j < |items| && es[j] == e;
    }
  }

  lemma PathGiven(i: Item, policy: Policy)
    requires ItemOk(i, policy)
    ensures PathOf(i.path) != [] && Spells(i.path, PathOf(i.path))
    ensures i.itemType == RegularItem ==> |i.data| == i.size
    ensures i.itemType == SymlinkItem ==> i.target.Some?
    ensures i.itemType != OtherItem
  {
    NamesLength(i.path.components);
  }

  /** A second reading of the same archive delivers. */
  lemma SameDelivers(items: seq<Item>, policy: Policy, limit: nat)
    requires Acceptable(items, policy, limit)
    ensures Delivers(EntriesOf(items, Skip), items)
  {
    var es := EntriesOf(items, Skip);
    hide ItemOk, PathOf, ContentBytes, Spells, TreeOk;
    forall i | 0 <= i < |items| ensures items[i].itemType == RegularItem ==> Brings(items[i], es[i]) {
      PathGiven(items[i], policy);
    }
    forall e | e in es && e.kind.Sized? ensures exists i | i in items :: Brings(i, e) {
      var i :| 0 <= i < |items| && es[i] == e;
      assert items[i] in items;
    }
    forall i | i in items && i.itemType == RegularItem ensures exists e | e in es :: Brings(i, e) {
      var k :| 0 <= k < |items| && items[k] == i;
      assert es[k] in es;
    }
    PathsDiffer(items);
  }

  lemma PathsDiffer(items: seq<Item>)
    requires TreeOk(items)
    ensures forall i, j | 0 <= i < j < |items| :: PathOf(items[i].path) != PathOf(items[j].path)
  {
    hide PathOf;
  }

  /** The tree of the measured entries, with the contents of that same archive, is the tree of the kept ones. */
  lemma SameTree(items: seq<Item>, policy: Policy, limit: nat, t: Tree)
    requires Acceptable(items, policy, limit)
    requires IsTree(EntriesOf(items, Skip), t) && HasContents(EntriesOf(items, Skip), items, t)
    ensures IsTree(EntriesOf(items, Keep), t)
  {
    var es, ks := EntriesOf(items, Skip), EntriesOf(items, Keep);
    hide ItemOk, PathOf, ContentBytes, TreeOk, EntriesOf, Brings, Legit, KindOf;
    EachEntry(items, Skip);
    EachEntry(items, Keep);
    forall p | p in t ensures Legit(ks, p, t[p]) {
      SameLegit(items, policy, es, ks, p, t);
    }
    forall e | e in ks ensures e.path in t && (e.kind.Directory? ==> t[e.path] == DirNode(Some(e.mode))) {
      var i :| 0 <= i < |items| && ks[i] == e;
      assert es[i] in es;
      SameDirectory(items[i]);
    }
  }

  lemma SameDirectory(i: Item)
    ensures EntryOf(i, Keep).kind.Directory? <==> EntryOf(i, Skip).kind.Directory?
  {
  }

  lemma SameFits(i: Item, policy: Policy, n: Node)
    requires ItemOk(i, policy) && Fits(EntryOf(i, Skip), n)
    requires Brings(i, EntryOf(i, Skip)) ==> n == FileNode(i.data, i.mode)
    ensures Fits(EntryOf(i, Keep), n)
  {
    PathGiven(i, policy);
  }

  lemma SameLegit(items: seq<Item>, policy: Policy, es: seq<Entry>, ks: seq<Entry>, p: Path, t: Tree)
    requires |es| == |ks| == |items| && p in t && Legit(es, p, t[p]) && HasContents(es, items, t)
    requires forall i | 0 <= i < |items| :: es[i] == EntryOf(items[i], Skip) && ks[i] == EntryOf(items[i], Keep)
    requires forall i | i in items :: ItemOk(i, policy)
    ensures Legit(ks, p, t[p])
  {
    hide ItemOk, PathOf, Fits, Brings, KindOf;
    forall e | e in ks && e.path == p ensures Fits(e, t[p]) {
      var i :| 0 <= i < |items| && ks[i] == e;
      assert es[i] in es && items[i] in items;
      SameFits(items[i], policy, t[p]);
    }
    if e :| e in es && e.path == p {
      var i :| 0 <= i < |items| && es[i] == e;
      assert ks[i] in ks;
    } else {
      var e :| e in es && Above(p, e.path);
      var i :| 0 <= i < |items| && es[i] == e;
      assert ks[i] in ks;
    }
  }

  lemma EachEntry(items: seq<Item>, c: ContentPolicy)
    ensures |EntriesOf(items, c)| == |items|
    ensures forall i | 0 <= i < |items| :: EntriesOf(items, c)[i] == EntryOf(items[i], c)
  {
  }

  /** A destination after either way: the tree is the one that the archive describes. */
  lemma OneTree(items: seq<Item>, policy: Policy, limit: nat, t: Tree, u: Tree)
    requires Acceptable(items, policy, limit)
    requires IsTree(EntriesOf(items, Keep), t)
    requires IsTree(EntriesOf(items, Skip), u) && HasContents(EntriesOf(items, Skip), items, u)
    ensures t == u
  {
    SameTree(items, policy, limit, u);
    AcceptableIsOk(items, policy, limit, Keep);
    NoneSized(items);
    hide *;
    TreeUnique(EntriesOf(items, Keep), t, u);
  }

  lemma NoneSized(items: seq<Item>)
    ensures forall e | e in EntriesOf(items, Keep) :: !e.kind.Sized?
  {
  }

  /** `materialize_archive`: contents in memory. */
  method FromMemory(items: seq<Item>, policy: Policy, limit: nat) returns (made: Option<Destination>)
    requires forall i | i in items :: |i.data| <= i.size
    ensures made.Some? <==> Acceptable(items, policy, limit)
    ensures made.Some? ==> fresh(made.value) && IsTree(EntriesOf(items, Keep), made.value.nodes)
  {
    hide *;
    var entries := DecodeEntries(items, policy, Keep, limit);
    if entries.None? {
      return None;
    }
    AcceptableIsOk(items, policy, limit, Keep);
    NoneSized(items);
    var d := new Destination();
    var ok := WriteEntries(d, entries.value, None);
    return if ok then Some(d) else None;
  }

  /** `materialize_archive_from_file`: the file as the two passes find it. It succeeds exactly if the first reading is
      acceptable and the second brings every regular file of it, whole, and no other. If nothing changed in between,
      that is what the form in memory accepts, and the tree is the same one. */
  method FromFile(first: seq<Item>, second: seq<Item>, policy: Policy, limit: nat) returns (made: Option<Destination>)
    requires forall i | i in first :: |i.data| <= i.size
    ensures made.Some? <==> Acceptable(first, policy, limit) && Delivers(EntriesOf(first, Skip), second)
    ensures first == second ==> (made.Some? <==> Acceptable(first, policy, limit))
    ensures made.Some? ==> fresh(made.value) && IsTree(EntriesOf(first, Skip), made.value.nodes)
    ensures made.Some? ==> HasContents(EntriesOf(first, Skip), second, made.value.nodes)
    ensures made.Some? && first == second ==> IsTree(EntriesOf(first, Keep), made.value.nodes)
  {
    hide *;
    var entries := DecodeEntries(first, policy, Skip, limit);
    if entries.None? {
      return None;
    }
    AcceptableIsOk(first, policy, limit, Skip);
    SameDelivers(first, policy, limit);
    var d := new Destination();
    var ok := WriteEntries(d, entries.value, Some(second));
    if !ok {
      return None;
    }
    if first == second {
      SameTree(first, policy, limit, d.nodes);
    }
    return Some(d);
  }
}
