/** The order in which readdir lists a directory does not matter to its stream. */
module TreeOrder {
  import opened Bytes
  import opened TreeStream

  // ------------------------------------------------------------------------------------------
  // Sorted listings
  // ------------------------------------------------------------------------------------------

  ghost predicate Increasing(entries: seq<Entry>) {
    forall i, j :: 0 <= i < j < |entries| ==> Less(entries[i].name, entries[j].name)
  }

  ghost predicate DistinctNames(entries: seq<Entry>) {
    forall i, j :: 0 <= i < j < |entries| ==> entries[i].name != entries[j].name
  }

  /** No directory lists a name twice. */
  ghost predicate Distinct(entries: seq<Entry>)
    decreases entries
  {
    DistinctNames(entries) && forall i | 0 <= i < |entries| :: DistinctNode(entries[i].node)
  }

  ghost predicate DistinctNode(node: Node)
    decreases node
  {
    node.Dir? ==> Distinct(node.entries)
  }

  lemma {:induction false} InsertKeeps(e: Entry, sorted: seq<Entry>)
    requires Increasing(sorted) && forall f | f in sorted :: f.name != e.name
    ensures Increasing(Insert(e, sorted)) && |Insert(e, sorted)| == |sorted| + 1
    ensures forall f :: f in Insert(e, sorted) <==> f in sorted || f == e
  {
    if sorted != [] {
      var first, rest := sorted[0], sorted[1..];
      assert forall i | 0 <= i < |rest| :: rest[i] == sorted[i + 1];
      LessTotal(e.name, first.name);
      if Less(e.name, first.name) {
        forall f | f in rest ensures Less(e.name, f.name) {
          LessTransitive(e.name, first.name, f.name);
        }
      } else {
        InsertKeeps(e, rest);
        var more := Insert(e, rest);
        forall k | 0 <= k < |more| ensures Less(first.name, more[k].name) {
          assert more[k] in more;
        }
      }
    }
  }

  /** Two sorted listings with the same entries are the same. */
  lemma {:induction false} SortedUnique(a: seq<Entry>, b: seq<Entry>)
    requires Increasing(a) && Increasing(b) && forall e :: e in a <==> e in b
    ensures a == b
    decreases |a|
  {
    assert |b| > 0 ==> b[0] in b;
    assert |a| > 0 ==> a[0] in a;
    if a != [] {
      Smallest(a, b[0]);
      Smallest(b, a[0]);
      LessTotal(a[0].name, b[0].name);
      SameTail(a, b);
      SortedUnique(a[1..], b[1..]);
      assert a == [a[0]] + a[1..] && b == [b[0]] + b[1..];
    }
  }

  lemma Smallest(a: seq<Entry>, e: Entry)
    requires Increasing(a) && e in a
    ensures e == a[0] || Less(a[0].name, e.name)
  {
    var i :| 0 <= i < |a| && a[i] == e;
  }

  lemma SameTail(a: seq<Entry>, b: seq<Entry>)
    requires Increasing(a) && Increasing(b) && a != [] && b != [] && a[0] == b[0] && forall e :: e in a <==> e in b
    ensures Increasing(a[1..]) && Increasing(b[1..]) && forall e :: e in a[1..] <==> e in b[1..]
  {
    LessTotal(a[0].name, a[0].name);
    assert forall e :: e in a[1..] <==> e in a && e != a[0] by {
      forall e ensures e in a[1..] <==> e in a && e != a[0] {
        assert a == [a[0]] + a[1..];
      }
    }
    assert forall e :: e in b[1..] <==> e in b && e != b[0] by {
      forall e ensures e in b[1..] <==> e in b && e != b[0] {
        assert b == [b[0]] + b[1..];
      }
    }
  }

  // ------------------------------------------------------------------------------------------
  // Listings that differ only in order
  // ------------------------------------------------------------------------------------------

  /** The entry that the hash sees in place of `e`. */
  function SeenEntry(prefix: Text, e: Entry, exclude: Text): Entry {
    Entry(e.name, SeenNode(Join(prefix, e.name), e.node, exclude))
  }

  predicate Shown(prefix: Text, e: Entry, exclude: Text) { !Excluded(Join(prefix, e.name), exclude) }

  function SeenSet(prefix: Text, entries: seq<Entry>, exclude: Text): set<Entry> {
    set e | e in entries && Shown(prefix, e, exclude) :: SeenEntry(prefix, e, exclude)
  }

  lemma SeenSetStep(prefix: Text, entries: seq<Entry>, exclude: Text)
    requires entries != []
    ensures var head, rest := entries[0], SeenSet(prefix, entries[1..], exclude);
      SeenSet(prefix, entries, exclude)
        == rest + if Shown(prefix, head, exclude) then {SeenEntry(prefix, head, exclude)} else {}
  {
    hide Join, Excluded, SeenEntry, Shown;
    assert forall e :: e in entries <==> e == entries[0] || e in entries[1..];
  }

  /** The listing that the hash sees has exactly the entries that are not excluded, sorted. */
  lemma {:induction false} SeenIsSorted(prefix: Text, entries: seq<Entry>, exclude: Text)
    requires DistinctNames(entries)
    ensures Increasing(Seen(prefix, entries, exclude))
    ensures forall e :: e in Seen(prefix, entries, exclude) <==> e in SeenSet(prefix, entries, exclude)
    decreases |entries|
  {
    if entries != [] {
      var head, rest := entries[0], entries[1..];
      assert forall i | 0 <= i < |rest| :: rest[i] == entries[i + 1];
      SeenIsSorted(prefix, rest, exclude);
      SeenSetStep(prefix, entries, exclude);
      var seen := Seen(prefix, rest, exclude);
      forall f | f in seen ensures f.name != head.name {
        var e :| e in rest && Shown(prefix, e, exclude) && f == SeenEntry(prefix, e, exclude);
      }
      if Shown(prefix, head, exclude) {
        InsertKeeps(SeenEntry(prefix, head, exclude), seen);
      }
    }
  }

  /** The same names with the same nodes, in any order at any level. */
  predicate SameEntries(a: seq<Entry>, b: seq<Entry>)
    decreases a, 1
  {
    (forall i | 0 <= i < |a| :: FoundIn(a[i], b)) && (forall j | 0 <= j < |b| :: CameFrom(a, b[j]))
  }

  predicate FoundIn(e: Entry, b: seq<Entry>)
    decreases e, 0
  {
    exists j | 0 <= j < |b| :: e.name == b[j].name && SameNode(e.node, b[j].node)
  }

  predicate CameFrom(a: seq<Entry>, f: Entry)
    decreases a, 0
  {
    exists i | 0 <= i < |a| :: a[i].name == f.name && SameNode(a[i].node, f.node)
  }

  predicate SameNode(a: Node, b: Node)
    decreases a, 2
  {
    if a.Dir? then b.Dir? && a.meta == b.meta && SameEntries(a.entries, b.entries) else a == b
  }

  /** Some entry of `b` looks the same to the hash. */
  predicate HasTwin(prefix: Text, x: Entry, b: seq<Entry>, exclude: Text) {
    exists y | y in b :: y.name == x.name && SeenEntry(prefix, y, exclude) == SeenEntry(prefix, x, exclude)
  }

  lemma TwinsAreSeen(prefix: Text, a: seq<Entry>, b: seq<Entry>, exclude: Text)
    requires forall x | x in a :: HasTwin(prefix, x, b, exclude)
    ensures SeenSet(prefix, a, exclude) <= SeenSet(prefix, b, exclude)
  {
    hide Join, Excluded, SeenEntry;
    forall e | e in SeenSet(prefix, a, exclude) ensures e in SeenSet(prefix, b, exclude) {
      var x :| x in a && Shown(prefix, x, exclude) && e == SeenEntry(prefix, x, exclude);
      assert HasTwin(prefix, x, b, exclude);
      var y :| y in b && y.name == x.name && SeenEntry(prefix, y, exclude) == SeenEntry(prefix, x, exclude);
      assert Shown(prefix, y, exclude);
    }
  }

  lemma {:induction false} SameIsSeenSame(prefix: Text, a: seq<Entry>, b: seq<Entry>, exclude: Text)
    requires Distinct(a) && Distinct(b) && SameEntries(a, b)
    ensures Seen(prefix, a, exclude) == Seen(prefix, b, exclude)
    decreases a, 1
  {
    forall x | x in a ensures HasTwin(prefix, x, b, exclude) {
      var i :| 0 <= i < |a| && a[i] == x;
      Forth(prefix, a, b, exclude, i);
    }
    forall y | y in b ensures HasTwin(prefix, y, a, exclude) {
      var j :| 0 <= j < |b| && b[j] == y;
      Back(prefix, a, b, exclude, j);
    }
    hide SameEntries, HasTwin, Seen;
    assert DistinctNames(a) && DistinctNames(b);
    SeenSame(prefix, a, b, exclude);
  }

  lemma {:induction false} Forth(prefix: Text, a: seq<Entry>, b: seq<Entry>, exclude: Text, i: nat)
    requires Distinct(a) && Distinct(b) && SameEntries(a, b) && i < |a|
    ensures HasTwin(prefix, a[i], b, exclude)
    decreases a, 0
  {
    assert FoundIn(a[i], b);
    var j :| 0 <= j < |b| && a[i].name == b[j].name && SameNode(a[i].node, b[j].node);
    SameNodeSeenSame(Join(prefix, a[i].name), a[i].node, b[j].node, exclude);
    hide Join, Excluded, SameEntries, SameNode, Distinct, SeenNode;
    assert b[j] in b;
  }

  lemma {:induction false} Back(prefix: Text, a: seq<Entry>, b: seq<Entry>, exclude: Text, j: nat)
    requires Distinct(a) && Distinct(b) && SameEntries(a, b) && j < |b|
    ensures HasTwin(prefix, b[j], a, exclude)
    decreases a, 0
  {
    assert CameFrom(a, b[j]);
    var i :| 0 <= i < |a| && a[i].name == b[j].name && SameNode(a[i].node, b[j].node);
    SameNodeSeenSame(Join(prefix, a[i].name), a[i].node, b[j].node, exclude);
    hide Join, Excluded, SameEntries, SameNode, Distinct, SeenNode;
    assert a[i] in a;
  }

  lemma SeenSame(prefix: Text, a: seq<Entry>, b: seq<Entry>, exclude: Text)
    requires DistinctNames(a) && DistinctNames(b)
    requires forall x | x in a :: HasTwin(prefix, x, b, exclude)
    requires forall y | y in b :: HasTwin(prefix, y, a, exclude)
    ensures Seen(prefix, a, exclude) == Seen(prefix, b, exclude)
  {
    hide Join, Excluded, SeenEntry, HasTwin;
    TwinsAreSeen(prefix, a, b, exclude);
    TwinsAreSeen(prefix, b, a, exclude);
    SeenIsSorted(prefix, a, exclude);
    SeenIsSorted(prefix, b, exclude);
    SortedUnique(Seen(prefix, a, exclude), Seen(prefix, b, exclude));
  }

  lemma {:induction false} SameNodeSeenSame(path: Text, a: Node, b: Node, exclude: Text)
    requires DistinctNode(a) && DistinctNode(b) && SameNode(a, b)
    ensures SeenNode(path, a, exclude) == SeenNode(path, b, exclude)
    decreases a, 0
  {
    if a.Dir? {
      SameIsSeenSame(path, a.entries, b.entries, exclude);
    }
  }

  /** Listings that differ only in order, at any depth, have the same stream under every exclusion. */
  lemma StreamIgnoresOrder(meta: Meta, a: seq<Entry>, b: seq<Entry>, exclude: Text)
    requires Distinct(a) && Distinct(b) && SameEntries(a, b)
    ensures Stream(meta, a, exclude) == Stream(meta, b, exclude)
  {
    SameIsSeenSame([], a, b, exclude);
  }

  // ------------------------------------------------------------------------------------------
  // The stream determines the tree
  // ------------------------------------------------------------------------------------------

  lemma {:induction false} SeenIsNamed(prefix: Text, entries: seq<Entry>, exclude: Text)
    requires Named(entries)
    ensures Named(Seen(prefix, entries, exclude))
    decreases entries, 1
  {
    if entries != [] {
      SeenIsNamed(prefix, entries[1..], exclude);
      if Shown(prefix, entries[0], exclude) {
        SeenNodeIsNamed(Join(prefix, entries[0].name), entries[0].node, exclude);
        InsertNamed(SeenEntry(prefix, entries[0], exclude), Seen(prefix, entries[1..], exclude));
      }
    }
  }

  lemma {:induction false} SeenNodeIsNamed(path: Text, node: Node, exclude: Text)
    requires NamedNode(node)
    ensures NamedNode(SeenNode(path, node, exclude))
    decreases node, 0
  {
    if node.Dir? {
      SeenIsNamed(path, node.entries, exclude);
    }
  }

  lemma {:induction false} InsertNamed(e: Entry, sorted: seq<Entry>)
    requires Named(sorted) && e.name != [] && SLASH !in e.name && NamedNode(e.node)
    ensures Named(Insert(e, sorted))
  {
    if sorted != [] && !Less(e.name, sorted[0].name) {
      InsertNamed(e, sorted[1..]);
    } else {
      assert ([e] + sorted)[1..] == sorted;
    }
  }

  /** What `stat` and the length limits guarantee of every record. */
  ghost predicate Encodable(meta: Meta, entries: seq<Entry>, exclude: Text) {
    InRange(meta) && Named(entries) && forall r | r in Flat([], Seen([], entries, exclude)) :: Fits(r)
  }

  /** Equal streams under one exclusion come from trees that are equal, but for the order of listings, in names, types,
      metadata, digests and link targets of everything that is not excluded. */
  lemma StreamInjective(m: Meta, a: seq<Entry>, n: Meta, b: seq<Entry>, exclude: Text)
    requires Encodable(m, a, exclude) && Encodable(n, b, exclude)
    ensures Stream(m, a, exclude) == Stream(n, b, exclude) <==>
      m.(size := 0) == n.(size := 0) && Seen([], a, exclude) == Seen([], b, exclude)
  {
    if Stream(m, a, exclude) == Stream(n, b, exclude) {
      RootFirst(m, EncodeAll(Flat([], Seen([], a, exclude))), n, EncodeAll(Flat([], Seen([], b, exclude))));
      RecordsInjective(Flat([], Seen([], a, exclude)), Flat([], Seen([], b, exclude)));
      SeenIsNamed([], a, exclude);
      SeenIsNamed([], b, exclude);
      FlatInjective([], Seen([], a, exclude), [], Seen([], b, exclude), []);
    }
  }

  // ------------------------------------------------------------------------------------------
  // Without an exclusion the stream is the tree, but for the order of its listings
  // ------------------------------------------------------------------------------------------

  const NOTHING: Text := []

  lemma {:induction false} SeenSameIsSame(prefix: Text, a: seq<Entry>, b: seq<Entry>)
    requires Distinct(a) && Distinct(b) && Seen(prefix, a, NOTHING) == Seen(prefix, b, NOTHING)
    ensures SameEntries(a, b)
    decreases a, 1
  {
    forall i | 0 <= i < |a| ensures FoundIn(a[i], b) {
      var j := Counterpart(prefix, a, b, i);
      SeenSameNode(Join(prefix, a[i].name), a[i].node, b[j].node);
    }
    forall j | 0 <= j < |b| ensures CameFrom(a, b[j]) {
      var i := Counterpart(prefix, b, a, j);
      SeenSameNode(Join(prefix, b[j].name), a[i].node, b[j].node);
    }
    hide Distinct, Seen, FoundIn, CameFrom;
  }

  /** The entry of `b` that is seen as entry `i` of `a` is. */
  lemma Counterpart(prefix: Text, a: seq<Entry>, b: seq<Entry>, i: nat) returns (j: nat)
    requires Distinct(a) && Distinct(b) && Seen(prefix, a, NOTHING) == Seen(prefix, b, NOTHING) && i < |a|
    ensures j < |b| && b[j].name == a[i].name && DistinctNode(a[i].node) && DistinctNode(b[j].node)
    ensures SeenNode(Join(prefix, a[i].name), a[i].node, NOTHING)
         == SeenNode(Join(prefix, a[i].name), b[j].node, NOTHING)
  {
    SeenIsSorted(prefix, a, NOTHING);
    SeenIsSorted(prefix, b, NOTHING);
    assert forall e :: Shown(prefix, e, NOTHING);
    hide Shown, Seen, SeenNode, Join, Increasing;
    assert a[i] in a;
    assert SeenEntry(prefix, a[i], NOTHING) in SeenSet(prefix, b, NOTHING);
    var y :| y in b && SeenEntry(prefix, y, NOTHING) == SeenEntry(prefix, a[i], NOTHING);
    j :| 0 <= j < |b| && b[j] == y;
  }

  lemma {:induction false} SeenSameNode(path: Text, a: Node, b: Node)
    requires DistinctNode(a) && DistinctNode(b) && SeenNode(path, a, NOTHING) == SeenNode(path, b, NOTHING)
    ensures SameNode(a, b)
    decreases a, 0
  {
    if a.Dir? {
      SeenSameIsSame(path, a.entries, b.entries);
    }
  }

  /** Without an exclusion, streams are equal if and only if the roots have the same metadata and the trees differ in
      the order of their listings only. */
  lemma StreamIsTree(m: Meta, a: seq<Entry>, n: Meta, b: seq<Entry>)
    requires Encodable(m, a, NOTHING) && Encodable(n, b, NOTHING) && Distinct(a) && Distinct(b)
    ensures Stream(m, a, NOTHING) == Stream(n, b, NOTHING) <==> m.(size := 0) == n.(size := 0) && SameEntries(a, b)
  {
    StreamInjective(m, a, n, b, NOTHING);
    if Seen([], a, NOTHING) == Seen([], b, NOTHING) {
      SeenSameIsSame([], a, b);
    }
    if SameEntries(a, b) {
      SameIsSeenSame([], a, b, NOTHING);
    }
    hide Encodable, Stream, Seen, SameEntries, Distinct;
  }

  lemma RootFirst(m: Meta, x: Text, n: Meta, y: Text)
    requires InRange(m) && InRange(n) && DOMAIN + RootMeta(m) + x == DOMAIN + RootMeta(n) + y
    ensures m.(size := 0) == n.(size := 0) && x == y
  {
    hide BigEndian, Pow256;
    var m2, n2 := BigEndian(m.nlink, 8) + x, BigEndian(n.nlink, 8) + y;
    var m1, n1 := BigEndian(m.gid, 8) + m2, BigEndian(n.gid, 8) + n2;
    var m0, n0 := BigEndian(m.uid, 8) + m1, BigEndian(n.uid, 8) + n1;
    assert DOMAIN + RootMeta(m) + x == DOMAIN + (BigEndian(m.mode, 4) + m0);
    assert DOMAIN + RootMeta(n) + y == DOMAIN + (BigEndian(n.mode, 4) + n0);
    SplitEqual(DOMAIN, BigEndian(m.mode, 4) + m0, DOMAIN, BigEndian(n.mode, 4) + n0);
    NumberFirst(m.mode, m0, n.mode, n0, 4);
    NumberFirst(m.uid, m1, n.uid, n1, 8);
    NumberFirst(m.gid, m2, n.gid, n2, 8);
    NumberFirst(m.nlink, x, n.nlink, y, 8);
  }
}
