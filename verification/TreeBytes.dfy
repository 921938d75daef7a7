/** The stream of `tree-hash` byte by byte: where each field of a record stands, and the order of names. */
module TreeBytes {
  import opened Bytes
  import opened Options
  import opened TreeStream

  /** Where `strcmp` sees that `a` comes first: it ends there, or has the smaller byte. */
  predicate DiffersAt(a: Text, b: Text, k: nat) {
    k <= |a| && k < |b| && a[..k] == b[..k] && (k == |a| || a[k] < b[k])
  }

  lemma {:induction false} LessIs(a: Text, b: Text)
    ensures Less(a, b) <==> exists k :: 0 <= k <= |a| && DiffersAt(a, b, k)
  {
    if b != [] && (a == [] || a[0] < b[0]) {
      assert DiffersAt(a, b, 0);
    } else if a != [] && b != [] && a[0] == b[0] {
      LessIs(a[1..], b[1..]);
      if Less(a, b) {
        var k :| 0 <= k <= |a[1..]| && DiffersAt(a[1..], b[1..], k);
        Longer(a, b, k);
      }
      if k :| 0 <= k <= |a| && DiffersAt(a, b, k) {
        assert a[1..][..k - 1] == a[..k][1..] && b[1..][..k - 1] == b[..k][1..];
        assert DiffersAt(a[1..], b[1..], k - 1);
      }
    } else if k :| 0 <= k <= |a| && DiffersAt(a, b, k) {
      FirstBytes(a, b, k);
    }
  }

  lemma FirstBytes(a: Text, b: Text, k: nat)
    requires DiffersAt(a, b, k)
    ensures b != [] && (a == [] || a[0] < b[0] || (a[0] == b[0] && k > 0))
  {
    if k > 0 {
      assert a[0] == a[..k][0] && b[0] == b[..k][0];
    }
  }

  lemma Longer(a: Text, b: Text, k: nat)
    requires a != [] && b != [] && a[0] == b[0] && k <= |a[1..]| && DiffersAt(a[1..], b[1..], k)
    ensures DiffersAt(a, b, k + 1)
  {
    assert a[..k + 1] == [a[0]] + a[1..][..k] && b[..k + 1] == [b[0]] + b[1..][..k];
  }

  /** A record: kind, path with its length, the five numbers of its inode, and the payload with its length. */
  ghost predicate RecordSays(t: Text, kind: char, path: Text, m: Meta, payload: Option<Text>) {
    var p := 9 + |path|;
    && |t| == p + 36 + (if payload.None? then 0 else 8 + |payload.value|)
    && t[0] == kind as int && t[1..9] == BigEndian(|path|, 8) && t[9..p] == path
    && t[p..p + 4] == BigEndian(m.mode, 4) && t[p + 4..p + 12] == BigEndian(m.uid, 8)
    && t[p + 12..p + 20] == BigEndian(m.gid, 8) && t[p + 20..p + 28] == BigEndian(m.nlink, 8)
    && t[p + 28..p + 36] == BigEndian(m.size, 8)
    && (payload.Some? ==> t[p + 36..p + 44] == BigEndian(|payload.value|, 8) && t[p + 44..] == payload.value)
  }

  /** What is hashed of a file, of a link and of a directory. */
  lemma NodeBytes(path: Text, node: Node)
    ensures match node
      case File(meta, digest) => RecordSays(Encode(RecordOf(path, node)), 'f', path, meta, Some(digest))
      case Link(meta, target) => RecordSays(Encode(RecordOf(path, node)), 'l', path, meta, Some(target))
      case Dir(meta, _) => RecordSays(Encode(RecordOf(path, node)), 'd', path, meta, None)
  {
    var r := RecordOf(path, node);
    hide RecordSays;
    RecordBytes(r, match node case File(_, _) => 'f' case Link(_, _) => 'l' case Dir(_, _) => 'd');
  }

  lemma RecordBytes(r: Record, kind: char)
    requires r.kind == kind as int
    ensures RecordSays(Encode(r), kind, r.path, r.meta, r.payload)
  {
    hide BigEndian;
    var t, p := Encode(r), 9 + |r.path|;
    var rest := if r.payload.None? then [] else Counted(r.payload.value);
    MetaBytes(r.meta);
    hide EncodeMeta;
    assert t == [r.kind] + BigEndian(|r.path|, 8) + r.path + EncodeMeta(r.meta) + rest;
    FourParts([r.kind], BigEndian(|r.path|, 8), r.path, EncodeMeta(r.meta), rest);
    hide Encode;
    MetaShifts(t, p);
    if r.payload.Some? {
      assert rest[..8] == BigEndian(|r.payload.value|, 8) && rest[8..] == r.payload.value;
      TailShifts(t, p + 36);
    }
  }

  lemma FourParts(a: Text, b: Text, c: Text, d: Text, e: Text)
    ensures var t, k := a + b + c + d + e, |a| + |b|;
      && t[..|a|] == a && t[|a|..k] == b && t[k..k + |c|] == c && t[k + |c|..k + |c| + |d|] == d
      && t[k + |c| + |d|..] == e
  {
  }

  lemma TailShifts(t: Text, at: nat)
    requires at + 8 <= |t|
    ensures t[at..][..8] == t[at..at + 8] && t[at..][8..] == t[at + 8..]
  {
  }

  lemma MetaBytes(m: Meta)
    ensures var t := EncodeMeta(m);
      && |t| == 36 && t[..4] == BigEndian(m.mode, 4) && t[4..12] == BigEndian(m.uid, 8)
      && t[12..20] == BigEndian(m.gid, 8) && t[20..28] == BigEndian(m.nlink, 8) && t[28..36] == BigEndian(m.size, 8)
  {
    hide BigEndian;
  }

  lemma MetaShifts(t: Text, p: nat)
    requires p + 36 <= |t|
    ensures var m := t[p..p + 36];
      && t[p..p + 4] == m[..4] && t[p + 4..p + 12] == m[4..12] && t[p + 12..p + 20] == m[12..20]
      && t[p + 20..p + 28] == m[20..28] && t[p + 28..p + 36] == m[28..36]
  {
    SliceOfSlice(t, p, 36, 0, 4);
    SliceOfSlice(t, p, 36, 4, 12);
    SliceOfSlice(t, p, 36, 12, 20);
    SliceOfSlice(t, p, 36, 20, 28);
    SliceOfSlice(t, p, 36, 28, 36);
  }

  /** What a stream begins with: the name of the format and its NUL, and then four numbers of the root. */
  lemma StreamBegins(m: Meta, entries: seq<Entry>, exclude: Text)
    ensures var t := Stream(m, entries, exclude);
      && |t| >= 59 && t[29] == 0 && t[30] == 0
      && (forall i | 0 <= i < 29 :: t[i] == "DISTROPICA_LIVE_TREE_FORMAT=1"[i] as int)
      && t[31..35] == BigEndian(m.mode, 4) && t[35..43] == BigEndian(m.uid, 8) && t[43..51] == BigEndian(m.gid, 8)
      && t[51..59] == BigEndian(m.nlink, 8)
  {
    DomainText();
    RootBytes(m);
    hide DOMAIN, BigEndian, RootMeta, Seen, EncodeAll, Flat;
    var rest := EncodeAll(Flat([], Seen([], entries, exclude)));
    Front(DOMAIN, RootMeta(m), rest);
  }

  lemma Front(d: Text, r: Text, rest: Text)
    requires |d| == 31 && |r| == 28
    ensures var t := d + r + rest;
      (forall i | 0 <= i < 31 :: t[i] == d[i]) && t[31..35] == r[..4] && t[35..43] == r[4..12]
      && t[43..51] == r[12..20] && t[51..59] == r[20..28]
  {
    var t := d + r + rest;
    assert t[31..59] == r;
    SliceOfSlice(t, 31, 28, 0, 4);
    SliceOfSlice(t, 31, 28, 4, 12);
    SliceOfSlice(t, 31, 28, 12, 20);
    SliceOfSlice(t, 31, 28, 20, 28);
  }

  lemma DomainText()
    ensures |DOMAIN| == 31 && DOMAIN[29] == 0 && DOMAIN[30] == 0
    ensures forall i | 0 <= i < 29 :: DOMAIN[i] == "DISTROPICA_LIVE_TREE_FORMAT=1"[i] as int
  {
  }

  lemma RootBytes(m: Meta)
    ensures var t := RootMeta(m);
      && |t| == 28 && t[..4] == BigEndian(m.mode, 4) && t[4..12] == BigEndian(m.uid, 8)
      && t[12..20] == BigEndian(m.gid, 8) && t[20..28] == BigEndian(m.nlink, 8)
  {
    hide BigEndian;
  }
}
