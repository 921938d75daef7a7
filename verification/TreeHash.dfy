/** `tree-hash`: the recursive walk that feeds a directory tree to SHA-256. */
module TreeHash {
  import opened Bytes
  import opened Options
  import opened Sha256
  import opened Sha256Stream
  import opened TreeStream
  import opened TreeOrder

  const ENTRY_LIMIT: nat := 1000000
  const PATH_LIMIT: nat := 64 * 1024
  const SYMLINK_LIMIT: nat := 64 * 1024
  const PATH_MAX: nat := 4096

  // ------------------------------------------------------------------------------------------
  // The limits
  // ------------------------------------------------------------------------------------------

  /** The entries below `prefix` that readdir returns, without looking into what is excluded. */
  function Listed(prefix: Text, entries: seq<Entry>, exclude: Text): nat
    decreases entries, 1
  {
    |entries| + Deeper(prefix, entries, exclude)
  }

  function Deeper(prefix: Text, entries: seq<Entry>, exclude: Text): nat
    decreases entries, 0
  {
    if entries == [] then 0 else Weight(prefix, entries[0], exclude) + Deeper(prefix, entries[1..], exclude)
  }

  function Weight(prefix: Text, e: Entry, exclude: Text): nat
    decreases e
  {
    if Shown(prefix, e, exclude) && e.node.Dir? then Listed(Join(prefix, e.name), e.node.entries, exclude) else 0
  }

  predicate LinkFits(node: Node)
    requires node.Link?
  {
    var room := if node.meta.size > 0 then node.meta.size + 1 else PATH_MAX;
    room <= SYMLINK_LIMIT && |node.target| < room
  }

  predicate PathsFit(prefix: Text, entries: seq<Entry>, exclude: Text)
    decreases entries, 1
  {
    forall i | 0 <= i < |entries| :: EntryFits(prefix, entries[i], exclude)
  }

  predicate EntryFits(prefix: Text, e: Entry, exclude: Text)
    decreases e, 0
  {
    && |Join(prefix, e.name)| <= PATH_LIMIT
    && (Shown(prefix, e, exclude) ==>
          (e.node.Link? ==> LinkFits(e.node))
          && (e.node.Dir? ==> PathsFit(Join(prefix, e.name), e.node.entries, exclude)))
  }

  // ------------------------------------------------------------------------------------------
  // Sorting by name
  // ------------------------------------------------------------------------------------------

  function Sorted(entries: seq<Entry>): seq<Entry> {
    if entries == [] then [] else Insert(entries[0], Sorted(entries[1..]))
  }

  lemma {:induction false} SortedListing(entries: seq<Entry>)
    requires DistinctNames(entries)
    ensures Increasing(Sorted(entries)) && forall e :: e in Sorted(entries) <==> e in entries
  {
    if entries != [] {
      SortedListing(entries[1..]);
      InsertKeeps(entries[0], Sorted(entries[1..]));
    }
  }

  lemma {:induction false} InsertWeighs(prefix: Text, e: Entry, sorted: seq<Entry>, exclude: Text)
    ensures Deeper(prefix, Insert(e, sorted), exclude) == Weight(prefix, e, exclude) + Deeper(prefix, sorted, exclude)
    ensures |Insert(e, sorted)| == |sorted| + 1
  {
    hide Weight;
    if sorted != [] && !Less(e.name, sorted[0].name) {
      InsertWeighs(prefix, e, sorted[1..], exclude);
    } else {
      assert ([e] + sorted)[1..] == sorted;
    }
  }

  lemma {:induction false} SortedWeighs(prefix: Text, entries: seq<Entry>, exclude: Text)
    ensures Deeper(prefix, Sorted(entries), exclude) == Deeper(prefix, entries, exclude)
    ensures |Sorted(entries)| == |entries|
    decreases |entries|
  {
    if entries != [] {
      SortedWeighs(prefix, entries[1..], exclude);
      InsertWeighs(prefix, entries[0], Sorted(entries[1..]), exclude);
    }
  }

  lemma {:induction false} DeeperSplits(prefix: Text, entries: seq<Entry>, i: nat, exclude: Text)
    requires i < |entries|
    ensures Deeper(prefix, entries[..i + 1], exclude)
         == Deeper(prefix, entries[..i], exclude) + Weight(prefix, entries[i], exclude)
    ensures Deeper(prefix, entries[..i + 1], exclude) <= Deeper(prefix, entries, exclude)
    decreases i
  {
    hide Weight;
    if i > 0 {
      assert entries[..i + 1][1..] == entries[1..][..i] && entries[..i][1..] == entries[1..][..i - 1];
      DeeperSplits(prefix, entries[1..], i - 1, exclude);
    } else {
      assert entries[..1][1..] == [] && entries[..0] == [];
    }
  }

  // ------------------------------------------------------------------------------------------
  // The listing as it is walked
  // ------------------------------------------------------------------------------------------

  /** The entries that are not excluded, in the order in which they stand. */
  function InOrder(prefix: Text, entries: seq<Entry>, exclude: Text): seq<Entry> {
    if entries == [] then []
    else
      var last := entries[|entries| - 1];
      InOrder(prefix, entries[..|entries| - 1], exclude)
      + if Shown(prefix, last, exclude) then [SeenEntry(prefix, last, exclude)] else []
  }

  lemma {:induction false} InOrderIncreasing(prefix: Text, entries: seq<Entry>, exclude: Text)
    requires Increasing(entries)
    ensures Increasing(InOrder(prefix, entries, exclude))
    ensures forall e :: e in InOrder(prefix, entries, exclude) <==> e in SeenSet(prefix, entries, exclude)
    decreases |entries|
  {
    hide Join, Excluded, SeenNode;
    if entries != [] {
      var n := |entries| - 1;
      var init, last := entries[..n], entries[n];
      InOrderIncreasing(prefix, init, exclude);
      var before := InOrder(prefix, init, exclude);
      assert entries == init + [last];
      assert forall i | 0 <= i < n :: Less(init[i].name, last.name);
      assert forall i | 0 <= i < |before| :: before[i] in before;
      forall f | f in before ensures Less(f.name, last.name) {
        var e :| e in init && Shown(prefix, e, exclude) && f == SeenEntry(prefix, e, exclude);
      }
    }
  }

  /** Walking the sorted listing shows the hash exactly what `Seen` says. */
  lemma WalkIsSeen(prefix: Text, entries: seq<Entry>, exclude: Text)
    requires DistinctNames(entries)
    ensures InOrder(prefix, Sorted(entries), exclude) == Seen(prefix, entries, exclude)
  {
    SortedListing(entries);
    InOrderIncreasing(prefix, Sorted(entries), exclude);
    SeenIsSorted(prefix, entries, exclude);
    hide Join, Excluded, SeenEntry, Shown;
    SortedUnique(InOrder(prefix, Sorted(entries), exclude), Seen(prefix, entries, exclude));
  }

  lemma {:induction false} FlatAppend(prefix: Text, a: seq<Entry>, b: seq<Entry>)
    ensures Flat(prefix, a + b) == Flat(prefix, a) + Flat(prefix, b)
    decreases |a|
  {
    hide Join, RecordOf, Below;
    if a == [] {
      assert a + b == b;
    } else {
      assert (a + b)[1..] == a[1..] + b && (a + b)[0] == a[0];
      FlatAppend(prefix, a[1..], b);
    }
  }

  lemma {:induction false} EncodeAllAppend(a: seq<Record>, b: seq<Record>)
    ensures EncodeAll(a + b) == EncodeAll(a) + EncodeAll(b)
    decreases |a|
  {
    hide Encode;
    if a == [] {
      assert a + b == b;
    } else {
      assert (a + b)[1..] == a[1..] + b && (a + b)[0] == a[0];
      EncodeAllAppend(a[1..], b);
    }
  }

  /** What one more entry adds to the stream. */
  lemma WalkStep(prefix: Text, entries: seq<Entry>, i: nat, exclude: Text)
    requires i < |entries|
    ensures var e := entries[i]; var path := Join(prefix, e.name);
      EncodeAll(Flat(prefix, InOrder(prefix, entries[..i + 1], exclude)))
        == EncodeAll(Flat(prefix, InOrder(prefix, entries[..i], exclude)))
           + if Shown(prefix, e, exclude)
             then (Encode(RecordOf(path, e.node)) + EncodeAll(Below(path, SeenNode(path, e.node, exclude)))) else []
  {
    var e := entries[i];
    var path := Join(prefix, e.name);
    var before, shown := InOrder(prefix, entries[..i], exclude), SeenEntry(prefix, e, exclude);
    InOrderStep(prefix, entries, i, exclude);
    if Shown(prefix, e, exclude) {
      assert RecordOf(path, shown.node) == RecordOf(path, e.node);
      EntryAppended(prefix, before, shown);
    } else {
      assert before + [] == before;
      var all := EncodeAll(Flat(prefix, before));
      assert all + [] == all;
    }
  }

  lemma InOrderStep(prefix: Text, entries: seq<Entry>, i: nat, exclude: Text)
    requires i < |entries|
    ensures InOrder(prefix, entries[..i + 1], exclude) == InOrder(prefix, entries[..i], exclude)
      + if Shown(prefix, entries[i], exclude) then [SeenEntry(prefix, entries[i], exclude)] else []
  {
    assert entries[..i + 1][..i] == entries[..i];
  }

  lemma EntryAppended(prefix: Text, before: seq<Entry>, e: Entry)
    ensures var path := Join(prefix, e.name);
      EncodeAll(Flat(prefix, before + [e]))
        == EncodeAll(Flat(prefix, before)) + (Encode(RecordOf(path, e.node)) + EncodeAll(Below(path, e.node)))
  {
    FlatAppend(prefix, before, [e]);
    OneFlat(prefix, e);
    hide Flat, Encode, Below, Join, RecordOf;
    var path := Join(prefix, e.name);
    var record, below := RecordOf(path, e.node), Below(path, e.node);
    EncodeAllAppend(Flat(prefix, before), [record] + below);
    EncodeAllAppend([record], below);
    OneRecord(record);
  }

  lemma OneFlat(prefix: Text, e: Entry)
    ensures var path := Join(prefix, e.name); Flat(prefix, [e]) == [RecordOf(path, e.node)] + Below(path, e.node)
  {
    assert Flat(prefix, [e][1..]) == [];
  }

  lemma OneRecord(r: Record)
    ensures EncodeAll([r]) == Encode(r)
  {
    assert EncodeAll([r][1..]) == [];
  }

  // ------------------------------------------------------------------------------------------
  // The walk
  // ------------------------------------------------------------------------------------------

  /** `hash_bytes`. */
  method HashCounted(c: Context, s: Text)
    requires c.Valid()
    modifies c, c.h, c.block
    ensures c.Valid() && c.message == old(c.message) + Counted(s)
  {
    hide Context.Valid, BigEndian;
    ghost var m := c.message;
    c.Update(BigEndian(|s|, 8));
    c.Update(s);
    assert m + BigEndian(|s|, 8) + s == m + Counted(s);
  }

  /** The fields of one entry, in the order in which they are hashed, without what a directory holds. */
  method HashRecord(c: Context, path: Text, node: Node)
    requires c.Valid()
    modifies c, c.h, c.block
    ensures c.Valid() && c.message == old(c.message) + Encode(RecordOf(path, node))
  {
    hide Context.Valid, BigEndian, Counted;
    ghost var m := c.message;
    var record := RecordOf(path, node);
    c.Update([record.kind]);
    HashCounted(c, path);
    HashMeta(c, node.meta);
    assert c.message == m + ([record.kind] + Counted(path) + EncodeMeta(node.meta));
    match node {
      case File(_, digest) => HashCounted(c, digest);
      case Link(_, target) => HashCounted(c, target);
      case Dir(_, _) =>
    }
  }

  method HashMeta(c: Context, m: Meta)
    requires c.Valid()
    modifies c, c.h, c.block
    ensures c.Valid() && c.message == old(c.message) + EncodeMeta(m)
  {
    hide Context.Valid, BigEndian;
    ghost var before := c.message;
    c.Update(BigEndian(m.mode, 4));
    c.Update(BigEndian(m.uid, 8));
    c.Update(BigEndian(m.gid, 8));
    c.Update(BigEndian(m.nlink, 8));
    c.Update(BigEndian(m.size, 8));
    assert c.message == before + EncodeMeta(m);
  }

  /** `hash_tree_dir`: fails exactly when a limit is exceeded, and otherwise appends the records of what it sees. */
  method HashDir(c: Context, prefix: Text, entries: seq<Entry>, exclude: Text, counted: nat)
    returns (ok: bool, count: nat)
    requires c.Valid() && Distinct(entries)
    modifies c, c.h, c.block
    ensures c.Valid()
    ensures ok <==> counted + Listed(prefix, entries, exclude) <= ENTRY_LIMIT && PathsFit(prefix, entries, exclude)
    ensures ok ==> count == counted + Listed(prefix, entries, exclude)
    ensures ok ==> c.message == old(c.message) + EncodeAll(Flat(prefix, Seen(prefix, entries, exclude)))
    decreases entries, 2
  {
    hide *;
    TopLevel(prefix, entries, exclude);
    count := counted + |entries|;
    if count > ENTRY_LIMIT {
      return false, count;
    }
    var names := Sorted(entries);
    SortedListing(entries);
    SortedWeighs(prefix, entries, exclude);
    WalkIsSeen(prefix, entries, exclude);
    FittingSorted(prefix, entries, names, exclude);
    ok, count := HashNames(c, prefix, entries, names, exclude, count);
  }

  lemma TopLevel(prefix: Text, entries: seq<Entry>, exclude: Text)
    requires Distinct(entries)
    ensures DistinctNames(entries) && Listed(prefix, entries, exclude) == |entries| + Deeper(prefix, entries, exclude)
  {
  }

  /** The entries of a directory, one after the other. */
  method HashNames(c: Context, prefix: Text, ghost entries: seq<Entry>, names: seq<Entry>, exclude: Text, counted: nat)
    returns (ok: bool, count: nat)
    requires c.Valid() && Distinct(entries) && (forall e | e in names :: e in entries) && counted <= ENTRY_LIMIT
    modifies c, c.h, c.block
    ensures c.Valid()
    ensures ok <==> counted + Deeper(prefix, names, exclude) <= ENTRY_LIMIT && AllFit(prefix, names, exclude)
    ensures ok ==> count == counted + Deeper(prefix, names, exclude)
    ensures ok ==> c.message == old(c.message) + EncodeAll(Flat(prefix, InOrder(prefix, names, exclude)))
    decreases entries, 1
  {
    hide *;
    count := counted;
    ghost var m := c.message;
    NothingYet(prefix, names, exclude);
    JoinEnd(m, [], []);
    for i := 0 to |names|
      invariant c.Valid() && count == counted + Deeper(prefix, names[..i], exclude) <= ENTRY_LIMIT
      invariant AllFit(prefix, names[..i], exclude)
      invariant c.message == m + EncodeAll(Flat(prefix, InOrder(prefix, names[..i], exclude)))
    {
      WalkStep(prefix, names, i, exclude);
      DeeperSplits(prefix, names, i, exclude);
      OneMoreFits(prefix, names, i, exclude);
      ok, count := HashEntry(c, prefix, entries, names[i], exclude, count);
      if !ok {
        return;
      }
    }
    assert names[..|names|] == names;
    ok := true;
  }

  predicate AllFit(prefix: Text, names: seq<Entry>, exclude: Text) {
    forall e | e in names :: EntryFits(prefix, e, exclude)
  }

  lemma OneMoreFits(prefix: Text, names: seq<Entry>, i: nat, exclude: Text)
    requires i < |names|
    ensures names[i] in names
    ensures AllFit(prefix, names[..i + 1], exclude)
        <==> AllFit(prefix, names[..i], exclude) && EntryFits(prefix, names[i], exclude)
    ensures AllFit(prefix, names, exclude) ==> EntryFits(prefix, names[i], exclude)
  {
    hide EntryFits;
    assert names[..i + 1] == names[..i] + [names[i]];
  }

  lemma FittingSorted(prefix: Text, entries: seq<Entry>, names: seq<Entry>, exclude: Text)
    requires forall e :: e in names <==> e in entries
    ensures PathsFit(prefix, entries, exclude) <==> AllFit(prefix, names, exclude)
  {
    hide EntryFits;
    forall i | 0 <= i < |entries| ensures entries[i] in names {
      assert entries[i] in entries;
    }
    forall e | e in names && PathsFit(prefix, entries, exclude) ensures EntryFits(prefix, e, exclude) {
      var i :| 0 <= i < |entries| && entries[i] == e;
    }
  }

  /** One entry of a directory. */
  method HashEntry(c: Context, prefix: Text, ghost entries: seq<Entry>, e: Entry, exclude: Text, counted: nat)
    returns (ok: bool, count: nat)
    requires c.Valid() && Distinct(entries) && e in entries && counted <= ENTRY_LIMIT
    modifies c, c.h, c.block
    ensures c.Valid()
    ensures ok <==> counted + Weight(prefix, e, exclude) <= ENTRY_LIMIT && EntryFits(prefix, e, exclude)
    ensures ok ==> count == counted + Weight(prefix, e, exclude)
    ensures ok ==> var path := Join(prefix, e.name);
      c.message == old(c.message) + if Shown(prefix, e, exclude)
        then (Encode(RecordOf(path, e.node)) + EncodeAll(Below(path, SeenNode(path, e.node, exclude)))) else []
    decreases entries, 0
  {
    ghost var m := c.message;
    assert m + [] == m;
    var path := Join(prefix, e.name);
    count := counted;
    if |path| > PATH_LIMIT {
      return false, count;
    }
    if Excluded(path, exclude) {
      return true, count;
    }
    ghost var i :| 0 <= i < |entries| && entries[i] == e;
    assert DistinctNode(entries[i].node);
    HashRecord(c, path, e.node);
    hide Context.Valid, Encode, Join, Excluded, Distinct, RecordOf;
    match e.node {
      case File(_, _) =>
        ok := true;
        assert EncodeAll(Below(path, e.node)) == [];
        JoinEnd(m, Encode(RecordOf(path, e.node)), []);
      case Link(meta, target) =>
        var room := if meta.size > 0 then meta.size + 1 else PATH_MAX;
        ok := room <= SYMLINK_LIMIT && |target| < room;
        assert EncodeAll(Below(path, e.node)) == [];
        JoinEnd(m, Encode(RecordOf(path, e.node)), []);
      case Dir(_, inside) =>
        ok, count := HashDir(c, path, inside, exclude, count);
        JoinEnd(m, Encode(RecordOf(path, e.node)), EncodeAll(Flat(path, Seen(path, inside, exclude))));
    }
  }

  lemma JoinEnd(m: Text, x: Text, y: Text)
    ensures m + x + y == m + (x + y)
  {
  }

  lemma NothingYet(prefix: Text, names: seq<Entry>, exclude: Text)
    ensures Deeper(prefix, names[..0], exclude) == 0
    ensures EncodeAll(Flat(prefix, InOrder(prefix, names[..0], exclude))) == []
    ensures AllFit(prefix, names[..0], exclude)
  {
  }

  /** `tree_hash_abs`: the digest of the stream, unless a limit is exceeded. */
  method TreeDigest(meta: Meta, entries: seq<Entry>, exclude: Text) returns (digest: Option<Text>)
    requires Distinct(entries)
    ensures digest.Some? <==> Listed([], entries, exclude) <= ENTRY_LIMIT && PathsFit([], entries, exclude)
    ensures digest.Some? && 8 * |Stream(meta, entries, exclude)| < TWO64 ==>
      digest == Some(Digest(Stream(meta, entries, exclude)))
  {
    var c := new Context();
    hide Context.Valid, BigEndian, Flat, Seen, Listed, PathsFit, Digest;
    c.Update(DOMAIN);
    c.Update(BigEndian(meta.mode, 4));
    c.Update(BigEndian(meta.uid, 8));
    c.Update(BigEndian(meta.gid, 8));
    c.Update(BigEndian(meta.nlink, 8));
    assert c.message == DOMAIN + RootMeta(meta);
    var ok, count := HashDir(c, [], entries, exclude, 0);
    if !ok {
      return None;
    }
    assert c.message == Stream(meta, entries, exclude);
    var out := c.Final();
    return Some(out);
  }
}
