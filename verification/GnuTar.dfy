/** The canonical GNU tar of a licence bundle: what the bytes are, and a reader that gets the entries back. */
module GnuTar {
  import opened Bytes
  import opened Options

  type Text = seq<Byte>

  datatype Kind = Directory | Regular(content: Text) | Other
  datatype Entry = Entry(path: Text, mode: nat, kind: Kind)

  const BLOCK: nat := 512
  const RECORD: nat := 20 * BLOCK

  const NAME_ROOM: nat := 100
  const MAGIC: Text := [0x75, 0x73, 0x74, 0x61, 0x72, 0x20, 0x20, 0x00]
  const LONG_LINK: Text := [0x2E, 0x2F, 0x2E, 0x2F, 0x40, 0x4C, 0x6F, 0x6E, 0x67, 0x4C, 0x69, 0x6E, 0x6B]
  const FILE_MODE: nat := 420
  const DIRECTORY_MODE: nat := 493
  const TYPE_FILE: Byte := 0x30
  const TYPE_DIRECTORY: Byte := 0x35
  const TYPE_LONG: Byte := 0x4C
  const SLASH: Byte := 0x2F

  // ------------------------------------------------------------------------------------------
  // Octal numbers
  // ------------------------------------------------------------------------------------------

  function Pow8(width: nat): (p: nat)
    ensures p > 0
  {
    if width == 0 then 1 else 8 * Pow8(width - 1)
  }

  /** The last `width` octal digits of `n`. */
  function Octal(n: nat, width: nat): (s: Text)
    ensures |s| == width && forall b | b in s :: 0x30 <= b < 0x38
  {
    if width == 0 then [] else Octal(n / 8, width - 1) + [0x30 + n % 8]
  }

  function OctalValue(s: Text): Option<nat> {
    if s == [] then Some(0)
    else
      var last := s[|s| - 1];
      var front := OctalValue(s[..|s| - 1]);
      if front.None? || !(0x30 <= last < 0x38) then None else Some(8 * front.value + (last - 0x30))
  }

  lemma {:induction false} OctalInverts(n: nat, width: nat)
    requires n < Pow8(width)
    ensures OctalValue(Octal(n, width)) == Some(n)
  {
    if width > 0 {
      OctalInverts(n / 8, width - 1);
      assert Octal(n, width)[..width - 1] == Octal(n / 8, width - 1);
    }
  }

  // ------------------------------------------------------------------------------------------
  // Headers
  // ------------------------------------------------------------------------------------------

  function Sum(s: Text): nat { if s == [] then 0 else Sum(s[..|s| - 1]) + s[|s| - 1] }

  /** Everything before the checksum: name, mode, owner and group 0, size, and time 0. */
  function Front(path: Text, mode: nat, size: nat): (s: Text)
    requires |path| <= NAME_ROOM
    ensures |s| == 148
  {
    path + Fill(NAME_ROOM - |path|, 0) + (Octal(mode, 7) + [0]) + (Octal(0, 7) + [0]) + (Octal(0, 7) + [0])
    + (Octal(size, 11) + [0]) + (Octal(0, 11) + [0])
  }

  /** Everything after it: the type, no link name, the magic, and nothing else. */
  function Back(kind: Byte): (s: Text)
    ensures |s| == 356
  {
    [kind] + Fill(100, 0) + MAGIC + Fill(247, 0)
  }

  /** The sum of all bytes with the checksum field taken as spaces. */
  function Checksum(front: Text, back: Text): nat { Sum(front + Fill(8, 0x20) + back) }

  function Header(path: Text, mode: nat, size: nat, kind: Byte): (s: Text)
    requires |path| <= NAME_ROOM
    ensures |s| == BLOCK
  {
    var front, back := Front(path, mode, size), Back(kind);
    front + (Octal(Checksum(front, back), 6) + [0, 0x20]) + back
  }

  lemma {:induction false} SumBound(s: Text)
    ensures Sum(s) <= 255 * |s|
    decreases |s|
  {
    if s != [] {
      SumBound(s[..|s| - 1]);
    }
  }

  /** The checksum of a header always fits into its six digits. */
  lemma ChecksumFits(front: Text, back: Text)
    requires |front| == 148 && |back| == 356
    ensures Checksum(front, back) < Pow8(6)
  {
    SumBound(front + Fill(8, 0x20) + back);
    assert Pow8(6) == 262144;
  }

  // ------------------------------------------------------------------------------------------
  // Archives
  // ------------------------------------------------------------------------------------------

  function Padding(n: nat): (p: nat)
    ensures p < BLOCK && (n + p) % BLOCK == 0
  {
    (BLOCK - n % BLOCK) % BLOCK
  }

  function Padded(s: Text): (p: Text)
    ensures |p| % BLOCK == 0 && |s| <= |p| < |s| + BLOCK
  {
    s + Fill(Padding(|s|), 0)
  }

  /** The name as it stands in the archive: a directory ends with a slash. */
  function RawName(e: Entry): Text { if e.kind.Directory? then e.path + [SLASH] else e.path }

  predicate Representable(e: Entry) {
    match e.kind
    case Other => false
    case Directory => e.mode == DIRECTORY_MODE && |RawName(e)| + 1 < Pow8(11)
    case Regular(content) => e.mode == FILE_MODE && |content| < Pow8(11) && e.path != [] && |RawName(e)| + 1 < Pow8(11)
  }

  /** The extra record of a name of more than 100 bytes. */
  function LongName(name: Text): Text {
    if |name| <= NAME_ROOM then [] else Header(LONG_LINK, FILE_MODE, |name| + 1, TYPE_LONG) + Padded(name + [0])
  }

  function ShortName(name: Text): (s: Text)
    ensures |s| <= NAME_ROOM
  {
    if |name| <= NAME_ROOM then name else name[..NAME_ROOM]
  }

  function EntryBytes(e: Entry): Text {
    var name := RawName(e);
    var header := if e.kind.Regular? then Header(ShortName(name), FILE_MODE, |e.kind.content|, TYPE_FILE)
                  else Header(ShortName(name), DIRECTORY_MODE, 0, TYPE_DIRECTORY);
    LongName(name) + header + if e.kind.Regular? then Padded(e.kind.content) else []
  }

  function Body(entries: seq<Entry>): Text {
    if entries == [] then [] else EntryBytes(entries[0]) + Body(entries[1..])
  }

  function FinalLength(written: nat): nat { (written + 2 * BLOCK + RECORD - 1) / RECORD * RECORD }

  /** The archive of entries that can all be represented. */
  function Archive(entries: seq<Entry>): Text {
    var body := Body(entries);
    FinalLengthIsLeast(|body|);
    body + Fill(FinalLength(|body|) - |body|, 0)
  }

  /** The least multiple of 10240 that covers the data and two zero blocks. */
  lemma FinalLengthIsLeast(written: nat)
    ensures var n := FinalLength(written);
      n % RECORD == 0 && written + 2 * BLOCK <= n < written + 2 * BLOCK + RECORD
    ensures forall k: nat :: k % RECORD == 0 && written + 2 * BLOCK <= k ==> FinalLength(written) <= k
  {
  }

  // ------------------------------------------------------------------------------------------
  // A reader
  // ------------------------------------------------------------------------------------------

  function UpToNul(s: Text): Text { if s == [] || s[0] == 0 then [] else [s[0]] + UpToNul(s[1..]) }

  datatype Parsed = Parsed(name: Text, mode: nat, size: nat, kind: Byte)

  /** A header block: its numbers, its magic and its checksum must all be right. */
  function ParseHeader(block: Text): Option<Parsed>
    requires |block| == BLOCK
  {
    var mode, size, sum := OctalValue(block[100..107]), OctalValue(block[124..135]), OctalValue(block[148..154]);
    if mode.None? || size.None? || sum.None? || block[257..265] != MAGIC then None
    else if sum.value != Checksum(block[..148], block[156..]) then None
    else Some(Parsed(UpToNul(block[..NAME_ROOM]), mode.value, size.value, block[156]))
  }

  function Rounded(n: nat): (r: nat)
    ensures n <= r
  {
    n + Padding(n)
  }

  /** Entries up to the first zero block; `long` is the name that the record before announced. */
  function Read(s: Text, long: Option<Text>): Option<seq<Entry>>
    decreases |s|
  {
    if |s| < BLOCK then None
    else if s[..BLOCK] == Fill(BLOCK, 0) then if long.None? then Some([]) else None
    else
      var parsed := ParseHeader(s[..BLOCK]);
      var rest := s[BLOCK..];
      if parsed.None? || |rest| < Rounded(parsed.value.size) then None
      else
        var p := parsed.value;
        var data, after := rest[..p.size], rest[Rounded(p.size)..];
        var name := if long.Some? then long.value else p.name;
        if p.kind == TYPE_LONG then if long.Some? then None else Read(after, Some(UpToNul(data)))
        else
          var entries := Read(after, None);
          if entries.None? then None
          else if p.kind == TYPE_FILE then Some([Entry(name, p.mode, Regular(data))] + entries.value)
          else if p.kind == TYPE_DIRECTORY && name != [] then
            Some([Entry(name[..|name| - 1], p.mode, Kind.Directory)] + entries.value)
          else None
  }

  // ------------------------------------------------------------------------------------------
  // The reader reads back what was written
  // ------------------------------------------------------------------------------------------

  lemma Middle(a: Text, b: Text, c: Text)
    ensures (a + b + c)[|a|..|a| + |b|] == b && (a + b + c)[..|a|] == a && (a + b + c)[|a| + |b|..] == c
  {
  }

  lemma {:induction false} UpToNulStops(name: Text, rest: Text)
    requires 0 !in name && (rest == [] || rest[0] == 0)
    ensures UpToNul(name + rest) == name
  {
    if name == [] {
      assert name + rest == rest;
    } else {
      assert (name + rest)[1..] == name[1..] + rest && name[0] in name;
      UpToNulStops(name[1..], rest);
    }
  }

  lemma FrontParts(path: Text, mode: nat, size: nat)
    requires |path| <= NAME_ROOM
    ensures var f := Front(path, mode, size);
      && f[..NAME_ROOM] == path + Fill(NAME_ROOM - |path|, 0)
      && f[100..107] == Octal(mode, 7) && f[124..135] == Octal(size, 11)
  {
    hide Octal;
    var name := path + Fill(NAME_ROOM - |path|, 0);
    var zeros := (Octal(0, 7) + [0]) + (Octal(0, 7) + [0]);
    var rest := (Octal(size, 11) + [0]) + (Octal(0, 11) + [0]);
    var f := Front(path, mode, size);
    assert f == name + Octal(mode, 7) + ([0] + zeros + rest);
    Middle(name, Octal(mode, 7), [0] + zeros + rest);
    var before := name + (Octal(mode, 7) + [0]) + zeros;
    assert f == before + Octal(size, 11) + ([0] + (Octal(0, 11) + [0]));
    Middle(before, Octal(size, 11), [0] + (Octal(0, 11) + [0]));
  }

  lemma HeaderParts(path: Text, mode: nat, size: nat, kind: Byte)
    requires |path| <= NAME_ROOM
    ensures var h := Header(path, mode, size, kind); var f, b := Front(path, mode, size), Back(kind);
      && h[..148] == f && h[156..] == b && h[148..154] == Octal(Checksum(f, b), 6)
      && h[156] == kind && h[257..265] == MAGIC
      && h[..NAME_ROOM] == f[..NAME_ROOM] && h[100..107] == f[100..107] && h[124..135] == f[124..135]
  {
    hide Octal, Front, Checksum;
    var f, b := Front(path, mode, size), Back(kind);
    var h := Header(path, mode, size, kind);
    var sum := Octal(Checksum(f, b), 6);
    assert h == f + sum + ([0, 0x20] + b);
    Middle(f, sum, [0, 0x20] + b);
    assert h == f + (sum + [0, 0x20]) + b;
    Middle(f, sum + [0, 0x20], b);
    assert b == ([kind] + Fill(100, 0)) + MAGIC + Fill(247, 0);
    Middle([kind] + Fill(100, 0), MAGIC, Fill(247, 0));
    assert h[257..265] == b[101..109];
  }

  /** A written header is never a zero block and parses back to its fields. */
  lemma HeaderParses(path: Text, mode: nat, size: nat, kind: Byte)
    requires |path| <= NAME_ROOM && 0 !in path && mode < Pow8(7) && size < Pow8(11)
    ensures var h := Header(path, mode, size, kind);
      h != Fill(BLOCK, 0) && ParseHeader(h) == Some(Parsed(path, mode, size, kind))
  {
    var f, b := Front(path, mode, size), Back(kind);
    hide Octal, OctalValue, Front, Back, Checksum, Pow8, Header;
    var h := Header(path, mode, size, kind);
    HeaderParts(path, mode, size, kind);
    FrontParts(path, mode, size);
    ChecksumFits(f, b);
    OctalInverts(mode, 7);
    OctalInverts(size, 11);
    OctalInverts(Checksum(f, b), 6);
    UpToNulStops(path, Fill(NAME_ROOM - |path|, 0));
    assert h[257..265][0] == h[257] == 0x75;
  }

  lemma FirstBlock(h: Text, data: Text, tail: Text)
    requires |h| == BLOCK
    ensures (h + data + tail)[..BLOCK] == h && (h + data + tail)[BLOCK..] == data + tail
  {
  }

  lemma DataFirst(data: Text, tail: Text)
    ensures var rest := Padded(data) + tail;
      |rest| >= Rounded(|data|) && rest[..|data|] == data && rest[Rounded(|data|)..] == tail
  {
  }

  /** Reading one block of type `kind` and its data, with whatever follows. */
  lemma ReadOne(path: Text, mode: nat, kind: Byte, data: Text, tail: Text)
    requires |path| <= NAME_ROOM && 0 !in path && mode < Pow8(7) && |data| < Pow8(11)
    ensures var s := Header(path, mode, |data|, kind) + Padded(data) + tail;
      && |s| >= BLOCK && s[..BLOCK] != Fill(BLOCK, 0)
      && ParseHeader(s[..BLOCK]) == Some(Parsed(path, mode, |data|, kind))
      && var rest := s[BLOCK..];
         |rest| >= Rounded(|data|) && rest[..|data|] == data && rest[Rounded(|data|)..] == tail
  {
    hide *;
    HeaderParses(path, mode, |data|, kind);
    FirstBlock(Header(path, mode, |data|, kind), Padded(data), tail);
    DataFirst(data, tail);
  }

  lemma SmallModes()
    ensures FILE_MODE < Pow8(7) && DIRECTORY_MODE < Pow8(7) && NAME_ROOM + 1 < Pow8(11)
  {
  }

  lemma ReadFile(name: Text, path: Text, content: Text, tail: Text, long: Option<Text>)
    requires |path| <= NAME_ROOM && 0 !in path && |content| < Pow8(11)
    requires name == if long.Some? then long.value else path
    requires Read(tail, None).Some?
    ensures Read(Header(path, FILE_MODE, |content|, TYPE_FILE) + Padded(content) + tail, long)
         == Some([Entry(name, FILE_MODE, Regular(content))] + Read(tail, None).value)
  {
    hide Header, ParseHeader, Pow8, Padded, Rounded, UpToNul;
    SmallModes();
    ReadOne(path, FILE_MODE, TYPE_FILE, content, tail);
  }

  /** What reading a directory record comes to. */
  lemma DirectoryStep(s: Text, long: Option<Text>, p: Parsed)
    requires |s| >= BLOCK && s[..BLOCK] != Fill(BLOCK, 0) && ParseHeader(s[..BLOCK]) == Some(p)
    requires p.kind == TYPE_DIRECTORY && |s[BLOCK..]| >= Rounded(p.size)
    requires Read(s[BLOCK..][Rounded(p.size)..], None).Some?
    requires (if long.Some? then long.value else p.name) != []
    ensures var name := if long.Some? then long.value else p.name;
      Read(s, long) == Some([Entry(name[..|name| - 1], p.mode, Kind.Directory)]
                            + Read(s[BLOCK..][Rounded(p.size)..], None).value)
  {
    hide ParseHeader, Rounded, Fill;
  }

  lemma EmptyData(h: Text, tail: Text)
    ensures h + Padded([]) + tail == h + tail
  {
    assert Padded([]) == [];
  }

  lemma ReadDirectory(name: Text, path: Text, tail: Text, long: Option<Text>)
    requires |path| <= NAME_ROOM && 0 !in path && name + [SLASH] == if long.Some? then long.value else path
    requires Read(tail, None).Some?
    ensures Read(Header(path, DIRECTORY_MODE, 0, TYPE_DIRECTORY) + tail, long)
         == Some([Entry(name, DIRECTORY_MODE, Kind.Directory)] + Read(tail, None).value)
  {
    hide *;
    var h := Header(path, DIRECTORY_MODE, 0, TYPE_DIRECTORY);
    EmptyData(h, tail);
    SmallModes();
    ReadOne(path, DIRECTORY_MODE, TYPE_DIRECTORY, [], tail);
    DirectoryStep(h + Padded([]) + tail, long, Parsed(path, DIRECTORY_MODE, 0, TYPE_DIRECTORY));
    assert (name + [SLASH])[..|name + [SLASH]| - 1] == name;
  }

  lemma ReadLong(name: Text, tail: Text)
    requires 0 !in name && |name| + 1 < Pow8(11)
    ensures Read(Header(LONG_LINK, FILE_MODE, |name| + 1, TYPE_LONG) + Padded(name + [0]) + tail, None)
         == Read(tail, Some(name))
  {
    hide Header, ParseHeader, Pow8, Padded, Rounded, UpToNul;
    SmallModes();
    ReadOne(LONG_LINK, FILE_MODE, TYPE_LONG, name + [0], tail);
    UpToNulStops(name, [0]);
  }

  predicate NulFree(entries: seq<Entry>) { forall e | e in entries :: 0 !in e.path }

  /** The header and data of an entry, after its long name if it has one. */
  function MainBytes(e: Entry): Text {
    var short := ShortName(RawName(e));
    if e.kind.Regular? then Header(short, FILE_MODE, |e.kind.content|, TYPE_FILE) + Padded(e.kind.content)
    else Header(short, DIRECTORY_MODE, 0, TYPE_DIRECTORY)
  }

  lemma EntryParts(e: Entry, tail: Text)
    ensures EntryBytes(e) + tail == LongName(RawName(e)) + (MainBytes(e) + tail)
    ensures |RawName(e)| <= NAME_ROOM ==> EntryBytes(e) + tail == MainBytes(e) + tail
  {
    hide Header, Padded;
  }

  lemma ReadMain(e: Entry, tail: Text, long: Option<Text>)
    requires Representable(e) && 0 !in e.path && Read(tail, None).Some?
    requires long == if |RawName(e)| <= NAME_ROOM then None else Some(RawName(e))
    ensures Read(MainBytes(e) + tail, long) == Some([e] + Read(tail, None).value)
  {
    hide Read, Header, Padded, Pow8;
    var short := ShortName(RawName(e));
    if e.kind.Regular? {
      ReadFile(e.path, short, e.kind.content, tail, long);
    } else {
      ReadDirectory(e.path, short, tail, long);
    }
  }

  /** One entry, LongLink record included, in front of anything readable. */
  lemma ReadEntry(e: Entry, tail: Text)
    requires Representable(e) && 0 !in e.path && Read(tail, None).Some?
    ensures Read(EntryBytes(e) + tail, None) == Some([e] + Read(tail, None).value)
  {
    hide Read, Header, Padded, Pow8, MainBytes, EntryBytes;
    var name := RawName(e);
    EntryParts(e, tail);
    ReadMain(e, tail, if |name| <= NAME_ROOM then None else Some(name));
    if |name| > NAME_ROOM {
      ReadLong(name, MainBytes(e) + tail);
    }
  }

  lemma ReadEnd(tail: Text)
    requires |tail| >= BLOCK && tail[..BLOCK] == Fill(BLOCK, 0)
    ensures Read(Body([]) + tail, None) == Some([])
  {
    hide ParseHeader;
    assert Body([]) + tail == tail;
  }

  lemma BodyParts(entries: seq<Entry>, tail: Text)
    requires entries != []
    ensures Body(entries) + tail == EntryBytes(entries[0]) + (Body(entries[1..]) + tail)
  {
    hide EntryBytes;
  }

  lemma {:induction false} ReadBody(entries: seq<Entry>, tail: Text)
    requires (forall e | e in entries :: Representable(e)) && NulFree(entries)
    requires |tail| >= BLOCK && tail[..BLOCK] == Fill(BLOCK, 0)
    ensures Read(Body(entries) + tail, None) == Some(entries)
    decreases |entries|
  {
    hide Read, Body, EntryBytes, Representable, Fill;
    if entries == [] {
      ReadEnd(tail);
    } else {
      ReadBody(entries[1..], tail);
      ReadEntry(entries[0], Body(entries[1..]) + tail);
      BodyParts(entries, tail);
      assert entries == [entries[0]] + entries[1..];
    }
  }

  lemma EndBlocks(n: nat)
    requires n >= 2 * BLOCK
    ensures |Fill(n, 0)| >= BLOCK && Fill(n, 0)[..BLOCK] == Fill(BLOCK, 0)
  {
  }

  /** A reader of the format gets the entries back, LongLink paths included. */
  lemma ReadInvertsArchive(entries: seq<Entry>)
    requires (forall e | e in entries :: Representable(e)) && NulFree(entries)
    ensures Read(Archive(entries), None) == Some(entries)
  {
    hide Read, Body, Representable, Fill, FinalLength;
    var body := Body(entries);
    FinalLengthIsLeast(|body|);
    EndBlocks(FinalLength(|body|) - |body|);
    ReadBody(entries, Fill(FinalLength(|body|) - |body|, 0));
  }

  /** So two lists of entries never have the same archive. */
  lemma ArchiveInjective(a: seq<Entry>, b: seq<Entry>)
    requires (forall e | e in a :: Representable(e)) && NulFree(a) && (forall e | e in b :: Representable(e))
    requires NulFree(b)
    ensures Archive(a) == Archive(b) <==> a == b
  {
    ReadInvertsArchive(a);
    ReadInvertsArchive(b);
  }

  // ------------------------------------------------------------------------------------------
  // A header, byte by byte
  // ------------------------------------------------------------------------------------------

  ghost predicate Blank(h: Text, from: nat, to: nat, b: Byte)
    requires from <= to <= |h|
  {
    forall i | from <= i < to :: h[i] == b
  }

  /** The header of POSIX and GNU tar: name, mode, owner and group 0, size, time 0, checksum, type and magic, and NUL
      everywhere else. */
  ghost predicate HeaderSays(h: Text, path: Text, mode: nat, size: nat, kind: char)
    requires |h| == BLOCK && |path| <= NAME_ROOM
  {
    && h[..|path|] == path && Blank(h, |path|, 100, 0)
    && OctalValue(h[100..107]) == Some(mode) && h[107] == 0
    && Blank(h, 108, 115, 0x30) && h[115] == 0 && Blank(h, 116, 123, 0x30) && h[123] == 0
    && OctalValue(h[124..135]) == Some(size) && h[135] == 0 && Blank(h, 136, 147, 0x30) && h[147] == 0
    && OctalValue(h[148..154]) == Some(Sum(h[..148]) + 8 * 0x20 + Sum(h[156..])) && h[154] == 0 && h[155] == 0x20
    && h[156] == kind as int && Blank(h, 157, 257, 0)
    && (forall i | 0 <= i < 7 :: h[257 + i] == "ustar  "[i] as int) && h[264] == 0 && Blank(h, 265, 512, 0)
  }

  lemma {:induction false} OctalZero(width: nat)
    ensures forall b | b in Octal(0, width) :: b == 0x30
  {
    if width > 0 {
      OctalZero(width - 1);
    }
  }

  lemma {:induction false} SumConcat(a: Text, b: Text)
    ensures Sum(a + b) == Sum(a) + Sum(b)
    decreases |b|
  {
    if b == [] {
      assert a + b == a;
    } else {
      assert (a + b)[..|a + b| - 1] == a + b[..|b| - 1];
      SumConcat(a, b[..|b| - 1]);
    }
  }

  lemma SumOfSpaces()
    ensures Sum(Fill(8, 0x20)) == 8 * 0x20
  {
    SumOf(8);
  }

  lemma {:induction false} SumOf(n: nat)
    ensures Sum(Fill(n, 0x20)) == n * 0x20
  {
    if n > 0 {
      assert Fill(n, 0x20)[..n - 1] == Fill(n - 1, 0x20);
      SumOf(n - 1);
    }
  }

  lemma FrontSays(path: Text, mode: nat, size: nat)
    requires |path| <= NAME_ROOM
    ensures var f := Front(path, mode, size);
      && f[..|path|] == path && Blank(f, |path|, 100, 0) && f[107] == 0 && Blank(f, 108, 115, 0x30) && f[115] == 0
      && Blank(f, 116, 123, 0x30) && f[123] == 0 && f[135] == 0 && Blank(f, 136, 147, 0x30) && f[147] == 0
  {
    OctalZero(7);
    OctalZero(11);
    hide Octal;
    var f, name := Front(path, mode, size), path + Fill(NAME_ROOM - |path|, 0);
    var zero, time := Octal(0, 7) + [0], Octal(0, 11) + [0];
    var first := name + (Octal(mode, 7) + [0]);
    var second := first + zero;
    var third := second + zero + (Octal(size, 11) + [0]);
    assert f == third + time;
    assert f[..100] == name && f[107] == first[107];
    assert forall i | 108 <= i < 116 :: f[i] == zero[i - 108];
    assert forall i | 116 <= i < 124 :: f[i] == zero[i - 116];
    assert forall i | 136 <= i < 148 :: f[i] == time[i - 136];
    assert f[135] == third[135];
    Zeros(zero, 7);
    Zeros(time, 11);
  }

  lemma Zeros(s: Text, n: nat)
    requires s == Octal(0, n) + [0] && forall b | b in Octal(0, n) :: b == 0x30
    ensures |s| == n + 1 && s[n] == 0 && forall i | 0 <= i < n :: s[i] == 0x30
  {
    assert forall i | 0 <= i < n :: s[i] == Octal(0, n)[i] && Octal(0, n)[i] in Octal(0, n);
  }

  lemma BackSays(kind: Byte)
    ensures var b := Back(kind);
      && b[0] == kind && Blank(b, 1, 101, 0) && (forall i | 0 <= i < 7 :: b[101 + i] == "ustar  "[i] as int)
      && b[108] == 0 && Blank(b, 109, 356, 0)
  {
  }

  /** Every header says its fields in their places, and its checksum is the sum of its bytes with the checksum taken as
      spaces. */
  lemma HeaderByOffset(path: Text, mode: nat, size: nat, kind: char)
    requires |path| <= NAME_ROOM && 0 !in path && mode < Pow8(7) && size < Pow8(11) && kind as int < 256
    ensures HeaderSays(Header(path, mode, size, kind as int), path, mode, size, kind)
  {
    var h, f, b := Header(path, mode, size, kind as int), Front(path, mode, size), Back(kind as int);
    FrontSays(path, mode, size);
    BackSays(kind as int);
    HeaderParses(path, mode, size, kind as int);
    HeaderParts(path, mode, size, kind as int);
    SumConcat(f + Fill(8, 0x20), b);
    SumConcat(f, Fill(8, 0x20));
    SumOfSpaces();
    assert h[154] == 0 && h[155] == 0x20;
    hide Header, Front, Back, Octal, OctalValue, Sum, UpToNul, Pow8;
    SpreadBlanks(h, f, b, |path|);
  }

  lemma SpreadBlanks(h: Text, f: Text, b: Text, n: nat)
    requires |h| == 512 && |f| == 148 && |b| == 356 && h[..148] == f && h[156..] == b && n <= 100
    ensures h[..n] == f[..n] && forall i | 0 <= i < 148 :: h[i] == f[i]
    ensures forall i | 0 <= i < 356 :: h[156 + i] == b[i]
    ensures Blank(b, 1, 101, 0) ==> Blank(h, 157, 257, 0)
    ensures Blank(b, 109, 356, 0) ==> Blank(h, 265, 512, 0)
  {
    forall i | 157 <= i < 512 ensures h[i] == b[i - 156] {
      assert h[i] == h[156..][i - 156];
    }
  }
}
