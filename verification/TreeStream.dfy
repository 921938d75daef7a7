/** The byte stream that `tree-hash` feeds to SHA-256: what it says of a tree, and that it says it unambiguously. */
module TreeStream {
  import opened Bytes
  import opened Options

  type Text = seq<Byte>

  datatype Meta = Meta(mode: nat, uid: nat, gid: nat, nlink: nat, size: nat)

  /** A directory is its listing, in the order in which readdir returned it. A file is its digest in hexadecimal. */
  datatype Node =
    | File(meta: Meta, digest: Text)
    | Link(meta: Meta, target: Text)
    | Dir(meta: Meta, entries: seq<Entry>)
  datatype Entry = Entry(name: Text, node: Node)

  const SLASH: Byte := 0x2F

  // ------------------------------------------------------------------------------------------
  // Paths
  // ------------------------------------------------------------------------------------------

  function Join(prefix: Text, name: Text): Text { if prefix == [] then name else prefix + [SLASH] + name }

  /** `excluded_path`. */
  predicate Excluded(path: Text, exclude: Text) {
    exclude != [] && (path == exclude || exclude + [SLASH] <= path)
  }

  predicate NameOk(name: Text) { name != [] && SLASH !in name }

  /** A path from its components. */
  function PathText(names: seq<Text>): Text {
    if names == [] then [] else if |names| == 1 then names[0] else names[0] + [SLASH] + PathText(names[1..])
  }

  lemma {:induction false} JoinComponents(names: seq<Text>, name: Text)
    requires forall n | n in names :: NameOk(n)
    ensures Join(PathText(names), name) == PathText(names + [name])
  {
    if names == [] {
      assert names + [name] == [name];
    } else {
      assert names[0] in names && forall n | n in names[1..] :: n in names;
      JoinComponents(names[1..], name);
      assert (names + [name])[1..] == names[1..] + [name];
      assert PathText(names) != [];
      if |names| > 1 {
        assert names[1..][0] in names[1..];
        var x, rest := names[0] + [SLASH], PathText(names[1..]);
        assert x + rest + [SLASH] + name == x + (rest + [SLASH] + name);
      }
    }
  }

  function FirstSlash(s: Text): nat { if s == [] || s[0] == SLASH then 0 else 1 + FirstSlash(s[1..]) }

  lemma {:induction false} SlashAfter(a: Text, r: Text)
    requires SLASH !in a
    ensures FirstSlash(a + [SLASH] + r) == |a|
  {
    if a != [] {
      assert (a + [SLASH] + r)[1..] == a[1..] + [SLASH] + r && (a + [SLASH] + r)[0] == a[0] && a[0] in a;
      SlashAfter(a[1..], r);
    }
  }

  /** The name before the first slash is determined by the text. */
  lemma FirstName(a: Text, r: Text, b: Text, t: Text)
    requires SLASH !in a && SLASH !in b && a + [SLASH] + r <= b + [SLASH] + t
    ensures a == b && r <= t
  {
    var s, k := b + [SLASH] + t, |a + [SLASH] + r|;
    assert s == a + [SLASH] + (r + s[k..]);
    SlashAfter(a, r + s[k..]);
    SlashAfter(b, t);
    assert a == s[..|a|] && b == s[..|b|];
    assert r + s[k..] == s[|a| + 1..] == t;
  }

  lemma PrefixHas(a: Text, b: Text, c: Byte)
    requires a <= b && c in a
    ensures c in b
  {
  }

  /** A path is excluded exactly when the excluded path is itself or one of its parents, component by component. */
  lemma {:induction false} ExcludedByComponents(path: seq<Text>, exclude: seq<Text>)
    requires path != [] && exclude != [] && (forall n | n in path :: NameOk(n)) && forall n | n in exclude :: NameOk(n)
    ensures Excluded(PathText(path), PathText(exclude)) <==> exclude <= path
  {
    var p, x := path[0], exclude[0];
    assert p in path && x in exclude && (forall n | n in path[1..] :: n in path);
    assert forall n | n in exclude[1..] :: n in exclude;
    if |path| == 1 {
      OneName(p, exclude);
    } else if |exclude| == 1 {
      BelowOne(p, PathText(path[1..]), x);
    } else {
      ExcludedByComponents(path[1..], exclude[1..]);
      assert exclude[1..][0] in exclude[1..] && PathText(exclude[1..]) != [];
      TwoPaths(p, PathText(path[1..]), x, PathText(exclude[1..]));
      assert exclude <= path <==> p == x && exclude[1..] <= path[1..];
    }
  }

  lemma OneName(p: Text, exclude: seq<Text>)
    requires NameOk(p) && exclude != [] && forall n | n in exclude :: NameOk(n)
    ensures Excluded(p, PathText(exclude)) <==> exclude <= [p]
  {
    var text := PathText(exclude);
    assert text != [] by { assert exclude[0] in exclude; }
    if |exclude| > 1 {
      assert text[|exclude[0]|] == SLASH;
      assert SLASH in text;
    }
    assert (text + [SLASH])[|text|] == SLASH;
    if text + [SLASH] <= p {
      PrefixHas(text + [SLASH], p, SLASH);
    }
  }

  lemma BelowOne(p: Text, rest: Text, x: Text)
    requires NameOk(p) && NameOk(x)
    ensures Excluded(p + [SLASH] + rest, x) <==> p == x
  {
    var path := p + [SLASH] + rest;
    assert path[|p|] == SLASH && SLASH in path;
    if x + [SLASH] <= path {
      assert x + [SLASH] + [] == x + [SLASH];
      FirstName(x, [], p, rest);
    }
    if p == x {
      assert path[..|p| + 1] == x + [SLASH];
    }
  }

  lemma TwoPaths(p: Text, rest: Text, x: Text, below: Text)
    requires NameOk(p) && NameOk(x) && below != []
    ensures Excluded(p + [SLASH] + rest, x + [SLASH] + below) <==> p == x && Excluded(rest, below)
  {
    var path, exclude := p + [SLASH] + rest, x + [SLASH] + below;
    if path == exclude {
      FirstName(x, below, p, rest);
      FirstName(p, rest, x, below);
    }
    assert exclude + [SLASH] == x + [SLASH] + (below + [SLASH]);
    if exclude + [SLASH] <= path {
      FirstName(x, below + [SLASH], p, rest);
    }
    if p == x && below + [SLASH] <= rest {
      assert path[..|p| + 1 + |below| + 1] == p + [SLASH] + rest[..|below| + 1];
    }
  }

  /** Lexicographic order on bytes: `strcmp`. */
  predicate Less(a: Text, b: Text) {
    b != [] && (a == [] || a[0] < b[0] || (a[0] == b[0] && Less(a[1..], b[1..])))
  }

  lemma {:induction false} LessTotal(a: Text, b: Text)
    ensures a == b || Less(a, b) || Less(b, a)
    ensures !(Less(a, b) && Less(b, a)) && !Less(a, a)
  {
    if a != [] && b != [] && a[0] == b[0] {
      LessTotal(a[1..], b[1..]);
      assert a == [a[0]] + a[1..] && b == [b[0]] + b[1..];
    }
    if a != [] {
      LessTotal(a[1..], a[1..]);
    }
  }

  lemma {:induction false} LessTransitive(a: Text, b: Text, c: Text)
    requires Less(a, b) && Less(b, c)
    ensures Less(a, c)
  {
    if a != [] && a[0] == b[0] == c[0] {
      LessTransitive(a[1..], b[1..], c[1..]);
    }
  }

  // ------------------------------------------------------------------------------------------
  // What the hash sees of a listing
  // ------------------------------------------------------------------------------------------

  function Insert(e: Entry, sorted: seq<Entry>): seq<Entry> {
    if sorted == [] || Less(e.name, sorted[0].name) then [e] + sorted else [sorted[0]] + Insert(e, sorted[1..])
  }

  /** The listing without what is excluded, every directory in the order of its names. */
  function Seen(prefix: Text, entries: seq<Entry>, exclude: Text): seq<Entry>
    decreases entries
  {
    if entries == [] then []
    else
      var rest := Seen(prefix, entries[1..], exclude);
      var path := Join(prefix, entries[0].name);
      if Excluded(path, exclude) then rest
      else Insert(Entry(entries[0].name, SeenNode(path, entries[0].node, exclude)), rest)
  }

  function SeenNode(path: Text, node: Node, exclude: Text): Node
    decreases node
  {
    match node
    case Dir(meta, entries) => Dir(meta, Seen(path, entries, exclude))
    case _ => node
  }

  // ------------------------------------------------------------------------------------------
  // Records
  // ------------------------------------------------------------------------------------------

  datatype Record = Record(kind: Byte, path: Text, meta: Meta, payload: Option<Text>)

  function RecordOf(path: Text, node: Node): Record {
    match node
    case File(meta, digest) => Record(0x66, path, meta, Some(digest))
    case Link(meta, target) => Record(0x6C, path, meta, Some(target))
    case Dir(meta, _) => Record(0x64, path, meta, None)
  }

  /** A listing as records: each entry, and right after a directory what it holds. */
  function Flat(prefix: Text, entries: seq<Entry>): seq<Record>
    decreases entries
  {
    if entries == [] then []
    else
      var path := Join(prefix, entries[0].name);
      [RecordOf(path, entries[0].node)] + Below(path, entries[0].node) + Flat(prefix, entries[1..])
  }

  function Below(path: Text, node: Node): seq<Record>
    decreases node
  {
    match node
    case Dir(_, entries) => Flat(path, entries)
    case _ => []
  }

  function EncodeMeta(m: Meta): Text {
    BigEndian(m.mode, 4) + BigEndian(m.uid, 8) + BigEndian(m.gid, 8) + BigEndian(m.nlink, 8) + BigEndian(m.size, 8)
  }

  /** `hash_bytes`: the length, then the bytes. */
  function Counted(s: Text): Text { BigEndian(|s|, 8) + s }

  function Encode(r: Record): Text {
    [r.kind] + Counted(r.path) + EncodeMeta(r.meta) + if r.payload.None? then [] else Counted(r.payload.value)
  }

  function EncodeAll(records: seq<Record>): Text {
    if records == [] then [] else Encode(records[0]) + EncodeAll(records[1..])
  }

  /** "DISTROPICA_LIVE_TREE_FORMAT=1" and two NUL bytes. */
  const DOMAIN: Text := [
    0x44, 0x49, 0x53, 0x54, 0x52, 0x4F, 0x50, 0x49, 0x43, 0x41, 0x5F, 0x4C, 0x49, 0x56, 0x45, 0x5F,
    0x54, 0x52, 0x45, 0x45, 0x5F, 0x46, 0x4F, 0x52, 0x4D, 0x41, 0x54, 0x3D, 0x31, 0x00, 0x00]

  /** The size of the root is not part of the stream. */
  function RootMeta(m: Meta): Text {
    BigEndian(m.mode, 4) + BigEndian(m.uid, 8) + BigEndian(m.gid, 8) + BigEndian(m.nlink, 8)
  }

  /** The whole stream of a root directory. */
  function Stream(meta: Meta, entries: seq<Entry>, exclude: Text): Text {
    DOMAIN + RootMeta(meta) + EncodeAll(Flat([], Seen([], entries, exclude)))
  }

  // ------------------------------------------------------------------------------------------
  // Records are prefix-free
  // ------------------------------------------------------------------------------------------

  /** The ranges of the fields, as `struct stat` has them. */
  predicate InRange(m: Meta) {
    m.mode < Pow256(4) && m.uid < Pow256(8) && m.gid < Pow256(8) && m.nlink < Pow256(8) && m.size < Pow256(8)
  }

  predicate Fits(r: Record) {
    && InRange(r.meta) && |r.path| < Pow256(8) && (r.payload.None? <==> r.kind == 0x64)
    && (r.payload.Some? ==> |r.payload.value| < Pow256(8))
  }

  lemma NumberFirst(m: nat, x: Text, n: nat, y: Text, width: nat)
    requires m < Pow256(width) && n < Pow256(width) && BigEndian(m, width) + x == BigEndian(n, width) + y
    ensures m == n && x == y
  {
    SplitEqual(BigEndian(m, width), x, BigEndian(n, width), y);
    BigEndianInjective(m, n, width);
  }

  lemma CountedFirst(s: Text, x: Text, t: Text, y: Text)
    requires |s| < Pow256(8) && |t| < Pow256(8) && Counted(s) + x == Counted(t) + y
    ensures s == t && x == y
  {
    hide BigEndian, Pow256;
    assert Counted(s) + x == BigEndian(|s|, 8) + (s + x);
    assert Counted(t) + y == BigEndian(|t|, 8) + (t + y);
    NumberFirst(|s|, s + x, |t|, t + y, 8);
    SplitEqual(s, x, t, y);
  }

  lemma MetaFirst(m: Meta, x: Text, n: Meta, y: Text)
    requires InRange(m) && InRange(n) && EncodeMeta(m) + x == EncodeMeta(n) + y
    ensures m == n && x == y
  {
    hide BigEndian, Pow256;
    var m3, n3 := BigEndian(m.size, 8) + x, BigEndian(n.size, 8) + y;
    var m2, n2 := BigEndian(m.nlink, 8) + m3, BigEndian(n.nlink, 8) + n3;
    var m1, n1 := BigEndian(m.gid, 8) + m2, BigEndian(n.gid, 8) + n2;
    var m0, n0 := BigEndian(m.uid, 8) + m1, BigEndian(n.uid, 8) + n1;
    assert EncodeMeta(m) + x == BigEndian(m.mode, 4) + m0;
    assert EncodeMeta(n) + y == BigEndian(n.mode, 4) + n0;
    NumberFirst(m.mode, m0, n.mode, n0, 4);
    NumberFirst(m.uid, m1, n.uid, n1, 8);
    NumberFirst(m.gid, m2, n.gid, n2, 8);
    NumberFirst(m.nlink, m3, n.nlink, n3, 8);
    NumberFirst(m.size, x, n.size, y, 8);
  }

  /** What one record ends with and the next begins with is never in doubt. */
  lemma RecordFirst(r: Record, x: Text, s: Record, y: Text)
    requires Fits(r) && Fits(s) && Encode(r) + x == Encode(s) + y
    ensures r == s && x == y
  {
    hide Pow256, InRange, EncodeMeta, Counted;
    var px := (if r.payload.None? then [] else Counted(r.payload.value)) + x;
    var py := (if s.payload.None? then [] else Counted(s.payload.value)) + y;
    assert Encode(r) + x == [r.kind] + (Counted(r.path) + (EncodeMeta(r.meta) + px));
    assert Encode(s) + y == [s.kind] + (Counted(s.path) + (EncodeMeta(s.meta) + py));
    SplitEqual([r.kind], Counted(r.path) + (EncodeMeta(r.meta) + px), [s.kind],
               Counted(s.path) + (EncodeMeta(s.meta) + py));
    CountedFirst(r.path, EncodeMeta(r.meta) + px, s.path, EncodeMeta(s.meta) + py);
    MetaFirst(r.meta, px, s.meta, py);
    if r.payload.Some? {
      CountedFirst(r.payload.value, x, s.payload.value, y);
    } else {
      assert px == x && py == y;
    }
  }

  lemma {:induction false} RecordsInjective(a: seq<Record>, b: seq<Record>)
    requires (forall r | r in a :: Fits(r)) && (forall r | r in b :: Fits(r)) && EncodeAll(a) == EncodeAll(b)
    ensures a == b
    decreases |a|
  {
    hide Fits, Encode;
    if a == [] || b == [] {
      NotEmpty(a);
      NotEmpty(b);
    } else {
      RecordFirst(a[0], EncodeAll(a[1..]), b[0], EncodeAll(b[1..]));
      RecordsInjective(a[1..], b[1..]);
      assert a == [a[0]] + a[1..] && b == [b[0]] + b[1..];
    }
  }

  lemma NotEmpty(a: seq<Record>)
    ensures a != [] ==> EncodeAll(a) != []
  {
    hide Counted, EncodeMeta;
  }

  // ------------------------------------------------------------------------------------------
  // The records determine the listing
  // ------------------------------------------------------------------------------------------

  /** Names are not empty and hold no slash. */
  predicate Named(entries: seq<Entry>)
    decreases entries
  {
    entries == []
    || (entries[0].name != [] && SLASH !in entries[0].name && NamedNode(entries[0].node) && Named(entries[1..]))
  }

  predicate NamedNode(node: Node)
    decreases node
  {
    node.Dir? ==> Named(node.entries)
  }

  predicate Under(prefix: Text, path: Text) { prefix == [] || prefix + [SLASH] <= path }

  predicate Outside(prefix: Text, records: seq<Record>) { records == [] || !Under(prefix, records[0].path) }

  /** The first `/` after a prefix ends the name: siblings are never below each other. */
  lemma SiblingsApart(prefix: Text, name: Text, other: Text)
    requires name != [] && other != [] && SLASH !in other
    ensures !Under(Join(prefix, name), Join(prefix, other)) && Under(prefix, Join(prefix, other))
  {
    var path, sibling := Join(prefix, name), Join(prefix, other);
    var at := |path| - |name|;
    if |path| < |sibling| {
      assert sibling[at..] == other;
      assert sibling[|path|] == sibling[at..][|name|] && other[|name|] in other;
    }
    if prefix != [] {
      assert prefix + [SLASH] <= sibling;
    }
  }

  lemma JoinInjective(prefix: Text, a: Text, b: Text)
    requires Join(prefix, a) == Join(prefix, b)
    ensures a == b
  {
    if prefix != [] {
      assert Join(prefix, a)[|prefix| + 1..] == a && Join(prefix, b)[|prefix| + 1..] == b;
    }
  }

  lemma PrefixesChain(a: Text, b: Text, c: Text)
    requires a <= b
    ensures b <= c ==> a <= c
  {
  }

  lemma OutsideDeeper(prefix: Text, name: Text, records: seq<Record>)
    requires name != [] && Outside(prefix, records)
    ensures Outside(Join(prefix, name), records)
  {
    if records != [] && prefix != [] {
      PrefixesChain(prefix + [SLASH], Join(prefix, name) + [SLASH], records[0].path);
    }
  }

  /** What follows the first entry is outside of it. */
  lemma RestOutside(prefix: Text, entries: seq<Entry>, x: seq<Record>)
    requires entries != [] && Named(entries) && Outside(prefix, x)
    ensures Outside(Join(prefix, entries[0].name), Flat(prefix, entries[1..]) + x)
  {
    if |entries| > 1 {
      SiblingsApart(prefix, entries[0].name, entries[1].name);
    } else {
      OutsideDeeper(prefix, entries[0].name, x);
      assert Flat(prefix, entries[1..]) + x == x;
    }
  }

  lemma StartsInside(prefix: Text, entries: seq<Entry>, x: seq<Record>)
    requires Named(entries) && Outside(prefix, x)
    ensures entries != [] <==> !Outside(prefix, Flat(prefix, entries) + x)
    ensures entries == [] ==> Flat(prefix, entries) + x == x
  {
    if entries != [] {
      SiblingsApart(prefix, entries[0].name, entries[0].name);
      assert (Flat(prefix, entries) + x)[0] == RecordOf(Join(prefix, entries[0].name), entries[0].node);
    }
  }

  /** The pre-order records of a listing determine it, wherever they stand in the stream. */
  lemma {:induction false} FlatInjective(prefix: Text, a: seq<Entry>, x: seq<Record>, b: seq<Entry>, y: seq<Record>)
    requires Named(a) && Named(b) && Outside(prefix, x) && Outside(prefix, y)
    requires Flat(prefix, a) + x == Flat(prefix, b) + y
    ensures a == b && x == y
    decreases a
  {
    StartsInside(prefix, a, x);
    StartsInside(prefix, b, y);
    if a != [] {
      FirstEntry(prefix, a, x, b, y);
      var path := Join(prefix, a[0].name);
      var u, v := Flat(prefix, a[1..]) + x, Flat(prefix, b[1..]) + y;
      RestOutside(prefix, a, x);
      RestOutside(prefix, b, y);
      hide Outside, Join, RecordOf;
      if a[0].node.Dir? {
        FlatInjective(path, a[0].node.entries, u, b[0].node.entries, v);
      } else {
        assert Below(path, a[0].node) + u == u && Below(path, b[0].node) + v == v;
      }
      FlatInjective(prefix, a[1..], x, b[1..], y);
      assert a == [a[0]] + a[1..] && b == [b[0]] + b[1..];
    }
  }

  lemma FlatParts(prefix: Text, a: seq<Entry>, x: seq<Record>)
    requires a != []
    ensures var path := Join(prefix, a[0].name);
      Flat(prefix, a) + x == [RecordOf(path, a[0].node)] + (Below(path, a[0].node) + (Flat(prefix, a[1..]) + x))
  {
    hide Join, RecordOf, Below;
  }

  lemma FirstEntry(prefix: Text, a: seq<Entry>, x: seq<Record>, b: seq<Entry>, y: seq<Record>)
    requires a != [] && b != [] && Flat(prefix, a) + x == Flat(prefix, b) + y
    ensures a[0].name == b[0].name && (if a[0].node.Dir? then b[0].node.Dir? && a[0].node.meta == b[0].node.meta
                                       else a[0].node == b[0].node)
    ensures var path := Join(prefix, a[0].name);
      Below(path, a[0].node) + (Flat(prefix, a[1..]) + x) == Below(path, b[0].node) + (Flat(prefix, b[1..]) + y)
  {
    FlatParts(prefix, a, x);
    FlatParts(prefix, b, y);
    var p, q := Join(prefix, a[0].name), Join(prefix, b[0].name);
    var u, v := Below(p, a[0].node) + (Flat(prefix, a[1..]) + x), Below(q, b[0].node) + (Flat(prefix, b[1..]) + y);
    var r, s := RecordOf(p, a[0].node), RecordOf(q, b[0].node);
    hide Flat, Below, Join, RecordOf;
    SplitEqual([r], u, [s], v);
    assert r == s;
    RecordsSame(p, a[0].node, q, b[0].node);
    JoinInjective(prefix, a[0].name, b[0].name);
  }

  lemma RecordsSame(p: Text, a: Node, q: Text, b: Node)
    requires RecordOf(p, a) == RecordOf(q, b)
    ensures p == q && if a.Dir? then b.Dir? && a.meta == b.meta else a == b
  {
  }
}
