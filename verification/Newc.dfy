/** The newc form of cpio: what an archive is, and that a printed one reads back. */
module Newc {
  import opened Bytes
  import opened Options

  type Text = seq<Byte>

  const HEADER_SIZE: nat := 110
  const PATH_MAX: nat := 4096
  const MEMBER_LIMIT: nat := 512 * 1024 * 1024
  const ENTRY_LIMIT: nat := 100000

  /** "070701" */
  const MAGIC: Text := [0x30, 0x37, 0x30, 0x37, 0x30, 0x31]

  /** "TRAILER!!!" */
  const TRAILER: Text := [0x54, 0x52, 0x41, 0x49, 0x4C, 0x45, 0x52, 0x21, 0x21, 0x21]

  /** NUL, LF, CR and `|` */
  const REFUSED: Text := [0, 0x0A, 0x0D, 0x7C]

  datatype Member = Member(mode: nat, name: Text, data: Text)

  // ------------------------------------------------------------------------------------------
  // Hexadecimal fields
  // ------------------------------------------------------------------------------------------

  function HexDigit(c: Byte): Option<nat> {
    if 0x30 <= c <= 0x39 then Some(c - 0x30)
    else if 0x61 <= c <= 0x66 then Some(c - 0x61 + 10)
    else if 0x41 <= c <= 0x46 then Some(c - 0x41 + 10)
    else None
  }

  /** The number that hexadecimal digits of either case spell. */
  function HexValue(s: Text): Option<nat> {
    if s == [] then Some(0)
    else
      var front, last := HexValue(s[..|s| - 1]), HexDigit(s[|s| - 1]);
      if front.None? || last.None? then None else Some(16 * front.value + last.value)
  }

  function Pow16(width: nat): (p: nat)
    ensures p > 0
  {
    if width == 0 then 1 else 16 * Pow16(width - 1)
  }

  /** The last `width` hexadecimal digits of `n`. */
  function Hex(n: nat, width: nat): (s: Text)
    ensures |s| == width
  {
    if width == 0 then [] else Hex(n / 16, width - 1) + [if n % 16 < 10 then 0x30 + n % 16 else 0x41 + n % 16 - 10]
  }

  lemma {:induction false} HexInverts(n: nat, width: nat)
    requires n < Pow16(width)
    ensures HexValue(Hex(n, width)) == Some(n)
  {
    if width > 0 {
      HexInverts(n / 16, width - 1);
      assert Hex(n, width)[..width - 1] == Hex(n / 16, width - 1);
    }
  }

  /** The same in small letters. */
  function SmallHex(n: nat, width: nat): (s: Text)
    ensures |s| == width
  {
    if width == 0 then [] else SmallHex(n / 16, width - 1) + [if n % 16 < 10 then 0x30 + n % 16 else 0x61 + n % 16 - 10]
  }

  lemma {:induction false} SmallHexInverts(n: nat, width: nat)
    requires n < Pow16(width)
    ensures HexValue(SmallHex(n, width)) == Some(n)
  {
    if width > 0 {
      SmallHexInverts(n / 16, width - 1);
      assert SmallHex(n, width)[..width - 1] == SmallHex(n / 16, width - 1);
    }
  }

  // ------------------------------------------------------------------------------------------
  // Members of a file
  // ------------------------------------------------------------------------------------------

  function Align4(n: nat): (a: nat)
    ensures n <= a < n + 4 && a % 4 == 0
  {
    n + (4 - n % 4) % 4
  }

  function DataOffset(at: nat, m: Member): nat { Align4(at + HEADER_SIZE + |m.name| + 1) }

  /** Where the next header is. */
  function Next(at: nat, m: Member): (n: nat)
    ensures n >= at + HEADER_SIZE
  {
    Align4(DataOffset(at, m) + |m.data|)
  }

  /** A name of a length that the walk accepts, without refused bytes. */
  predicate NameOk(name: Text) { |name| <= PATH_MAX && forall b | b in name :: b !in REFUSED }

  /** The header, name and data of `m` stand at `at`. The other header fields and the alignment gaps are free. */
  predicate MemberAt(file: Text, at: nat, m: Member) {
    && at + HEADER_SIZE <= |file| && file[at..at + 6] == MAGIC
    && HexValue(file[at + 14..at + 22]) == Some(m.mode)
    && HexValue(file[at + 54..at + 62]) == Some(|m.data|)
    && HexValue(file[at + 94..at + 102]) == Some(|m.name| + 1)
    && NameOk(m.name) && |m.data| <= MEMBER_LIMIT
    && var nameAt := at + HEADER_SIZE;
       && nameAt + |m.name| + 1 <= |file|
       && file[nameAt..nameAt + |m.name|] == m.name && file[nameAt + |m.name|] == 0
       && DataOffset(at, m) + |m.data| <= |file|
       && file[DataOffset(at, m)..DataOffset(at, m) + |m.data|] == m.data
  }

  /** Consecutive members from `at` on. */
  predicate Chain(file: Text, at: nat, ms: seq<Member>)
    decreases |ms|
  {
    ms == [] || (MemberAt(file, at, ms[0]) && Chain(file, Next(at, ms[0]), ms[1..]))
  }

  function End(at: nat, ms: seq<Member>): (n: nat)
    ensures n >= at
    decreases |ms|
  {
    if ms == [] then at else End(Next(at, ms[0]), ms[1..])
  }

  /** The file is the members `ms`, an empty trailer, and NUL bytes. */
  predicate IsArchive(file: Text, ms: seq<Member>, trailer: Member) {
    && Chain(file, 0, ms) && (forall m | m in ms :: m.name != TRAILER) && |ms| + 1 <= ENTRY_LIMIT
    && trailer.name == TRAILER && trailer.data == [] && MemberAt(file, End(0, ms), trailer)
    && forall k | Next(End(0, ms), trailer) <= k < |file| :: file[k] == 0
  }

  predicate IsRegular(mode: nat) { mode / 0x1000 % 16 == 8 }

  /** Exactly one member has the wanted name, it is regular, and it is number `i`. */
  predicate OnlyMember(ms: seq<Member>, wanted: Text, i: nat) {
    i < |ms| && ms[i].name == wanted && IsRegular(ms[i].mode)
    && forall j | 0 <= j < |ms| && ms[j].name == wanted :: j == i
  }

  /** What it takes to find `wanted`. */
  predicate Holds(file: Text, wanted: Text, ms: seq<Member>, trailer: Member, i: nat) {
    IsArchive(file, ms, trailer) && OnlyMember(ms, wanted, i)
  }

  // ------------------------------------------------------------------------------------------
  // Chains
  // ------------------------------------------------------------------------------------------

  lemma {:induction false} ChainGrows(file: Text, at: nat, ms: seq<Member>, m: Member)
    ensures Chain(file, at, ms + [m]) <==> Chain(file, at, ms) && MemberAt(file, End(at, ms), m)
    ensures End(at, ms + [m]) == Next(End(at, ms), m)
    decreases |ms|
  {
    hide MemberAt, Next;
    if ms == [] {
      assert (ms + [m])[1..] == [];
    } else {
      assert (ms + [m])[1..] == ms[1..] + [m];
      ChainGrows(file, Next(at, ms[0]), ms[1..], m);
    }
  }

  /** What stands at an offset is one member at most. */
  lemma OneMember(file: Text, at: nat, m: Member, n: Member)
    requires MemberAt(file, at, m) && MemberAt(file, at, n)
    ensures m == n
  {
  }

  // ------------------------------------------------------------------------------------------
  // Printing
  // ------------------------------------------------------------------------------------------

  /** The header fields that the walk does not read: inode; owner, links and time; devices; checksum. */
  datatype Fields = Fields(inode: Text, owner: Text, devices: Text, check: Text)

  predicate FieldsOk(f: Fields) { |f.inode| == 8 && |f.owner| == 32 && |f.devices| == 32 && |f.check| == 8 }

  function Gap(n: nat): Text { seq(Align4(n) - n, _ => 0) }

  function Header(m: Member, f: Fields): (h: Text)
    requires FieldsOk(f)
    ensures |h| == HEADER_SIZE
  {
    MAGIC + f.inode + Hex(m.mode, 8) + f.owner + Hex(|m.data|, 8) + f.devices + Hex(|m.name| + 1, 8) + f.check
  }

  /** One member at an offset that is a multiple of four. */
  function Print(m: Member, f: Fields): Text
    requires FieldsOk(f)
  {
    var named := Header(m, f) + m.name + [0];
    var full := named + Gap(|named|) + m.data;
    full + Gap(|full|)
  }

  predicate Printable(m: Member) {
    m.mode < Pow16(8) && NameOk(m.name) && |m.data| <= MEMBER_LIMIT
  }

  lemma LimitsFit()
    ensures MEMBER_LIMIT < Pow16(8) && PATH_MAX + 1 < Pow16(8)
  {
  }

  lemma Middle(a: Text, b: Text, c: Text)
    ensures (a + b + c)[|a|..|a| + |b|] == b
  {
  }

  lemma HeaderFields(m: Member, f: Fields)
    requires FieldsOk(f)
    ensures var h := Header(m, f);
      && h[..6] == MAGIC && h[14..22] == Hex(m.mode, 8) && h[54..62] == Hex(|m.data|, 8)
      && h[94..102] == Hex(|m.name| + 1, 8)
  {
    hide Hex;
    var h := Header(m, f);
    var mode, size, length := Hex(m.mode, 8), Hex(|m.data|, 8), Hex(|m.name| + 1, 8);
    var a := MAGIC + f.inode;
    var b := a + mode + f.owner;
    var c := b + size + f.devices;
    assert h == c + length + f.check;
    Middle(c, length, f.check);
    assert h == b + size + (f.devices + length + f.check);
    Middle(b, size, f.devices + length + f.check);
    assert h == a + mode + (f.owner + size + f.devices + length + f.check);
    Middle(a, mode, f.owner + size + f.devices + length + f.check);
  }

  function PrintAll(ms: seq<Member>, fs: seq<Fields>): Text
    requires |fs| == |ms| && forall f | f in fs :: FieldsOk(f)
  {
    if ms == [] then [] else Print(ms[0], fs[0]) + PrintAll(ms[1..], fs[1..])
  }

  lemma Layout(before: Text, m: Member, f: Fields, after: Text)
    requires FieldsOk(f) && |before| % 4 == 0
    ensures var gap := Gap(HEADER_SIZE + |m.name| + 1);
      var size := HEADER_SIZE + |m.name| + 1 + |gap| + |m.data|;
      && before + Print(m, f) + after == before + Header(m, f) + m.name + [0] + gap + m.data + (Gap(size) + after)
      && DataOffset(|before|, m) == |before| + HEADER_SIZE + |m.name| + 1 + |gap|
      && Next(|before|, m) == |before| + |Print(m, f)| && |Print(m, f)| >= size
  {
    hide Header;
    var gap := Gap(HEADER_SIZE + |m.name| + 1);
    var size := HEADER_SIZE + |m.name| + 1 + |gap| + |m.data|;
    assert Print(m, f) == Header(m, f) + m.name + [0] + gap + m.data + Gap(size);
    Shifted(|before|, HEADER_SIZE + |m.name| + 1);
    Shifted(|before|, size);
  }

  /** A printed member, wherever it stands at a multiple of four, is that member. */
  lemma PrintedMember(before: Text, m: Member, f: Fields, after: Text)
    requires Printable(m) && FieldsOk(f) && |before| % 4 == 0
    ensures var file := before + Print(m, f) + after;
      MemberAt(file, |before|, m) && Next(|before|, m) == |before| + |Print(m, f)|
  {
    hide Hex, HexValue, Pow16, Header, NameOk, Print, Gap, Next, DataOffset;
    Numbers(m);
    HeaderFields(m, f);
    Layout(before, m, f, after);
    var gap := Gap(HEADER_SIZE + |m.name| + 1);
    var size := HEADER_SIZE + |m.name| + 1 + |gap| + |m.data|;
    Slices(before, Header(m, f), m.name, gap, m.data, Gap(size) + after);
  }

  lemma Numbers(m: Member)
    requires Printable(m)
    ensures HexValue(Hex(m.mode, 8)) == Some(m.mode) && HexValue(Hex(|m.data|, 8)) == Some(|m.data|)
    ensures HexValue(Hex(|m.name| + 1, 8)) == Some(|m.name| + 1)
  {
    hide Hex, HexValue, Pow16;
    LimitsFit();
    HexInverts(m.mode, 8);
    HexInverts(|m.data|, 8);
    HexInverts(|m.name| + 1, 8);
  }

  lemma Shifted(base: nat, n: nat)
    requires base % 4 == 0
    ensures Align4(base + n) == base + Align4(n)
  {
  }

  /** The parts of a printed member, at their offsets in the file. */
  lemma Slices(before: Text, header: Text, name: Text, gap: Text, data: Text, after: Text)
    requires |header| == HEADER_SIZE
    ensures var file := before + header + name + [0] + gap + data + after;
      var at := |before|; var nameAt := at + HEADER_SIZE; var dataAt := nameAt + |name| + 1 + |gap|;
      && file[at..at + 6] == header[..6] && file[at + 14..at + 22] == header[14..22]
      && file[at + 54..at + 62] == header[54..62] && file[at + 94..at + 102] == header[94..102]
      && file[nameAt..nameAt + |name|] == name && file[nameAt + |name|] == 0
      && file[dataAt..dataAt + |data|] == data
  {
    var file := before + header + name + [0] + gap + data + after;
    assert file == before + header + (name + [0] + gap + data + after);
    assert file[|before|..|before| + HEADER_SIZE] == header;
    assert forall i, j | 0 <= i <= j <= HEADER_SIZE :: file[|before| + i..|before| + j] == header[i..j] by {
      forall i, j | 0 <= i <= j <= HEADER_SIZE ensures file[|before| + i..|before| + j] == header[i..j] {
        assert forall k | i <= k < j :: file[|before| + k] == header[k];
      }
    }
    var b := before + header;
    Middle(b, name, [0] + gap + data + after);
    assert file == b + name + ([0] + gap + data + after);
    var c := b + name + [0] + gap;
    Middle(c, data, after);
    assert file == c + data + after;
  }

  lemma {:induction false} PrintedChain(before: Text, ms: seq<Member>, fs: seq<Fields>, after: Text)
    requires |fs| == |ms| && (forall f | f in fs :: FieldsOk(f)) && (forall m | m in ms :: Printable(m))
    requires |before| % 4 == 0
    ensures Chain(before + PrintAll(ms, fs) + after, |before|, ms)
    ensures End(|before|, ms) == |before| + |PrintAll(ms, fs)| && |PrintAll(ms, fs)| % 4 == 0
    decreases |ms|
  {
    hide Print, MemberAt, Printable, FieldsOk, Next;
    if ms != [] {
      var first, rest := Print(ms[0], fs[0]), PrintAll(ms[1..], fs[1..]);
      PrintedMember(before, ms[0], fs[0], rest + after);
      PrintLength(before, ms[0], fs[0]);
      PrintedChain(before + first, ms[1..], fs[1..], after);
      assert before + first + (rest + after) == before + first + rest + after == before + (first + rest) + after;
      assert |before + first| == |before| + |first|;
    }
  }

  lemma PrintLength(before: Text, m: Member, f: Fields)
    requires FieldsOk(f) && |before| % 4 == 0
    ensures (|before| + |Print(m, f)|) % 4 == 0
  {
    hide Header;
  }

  lemma TrailerPrints(mode: nat)
    requires mode < Pow16(8)
    ensures Printable(Member(mode, TRAILER, []))
  {
    hide Pow16;
  }

  lemma JoinParts(all: Text, end: Text, tail: Text)
    requires forall b | b in tail :: b == 0
    ensures [] + all + (end + tail) == all + end + tail
    ensures forall k | |all| + |end| <= k < |all + end + tail| :: (all + end + tail)[k] == 0
  {
    assert [] + all == all;
    forall k | |all| + |end| <= k < |all + end + tail| ensures (all + end + tail)[k] == 0 {
      assert (all + end + tail)[k] == tail[k - |all| - |end|];
      assert tail[k - |all| - |end|] in tail;
    }
  }

  /** The walk's definition of an archive accepts everything that an encoder of the format prints within the limits:
      the members, the trailer, and any number of NUL bytes. */
  lemma PrintedIsArchive(ms: seq<Member>, fs: seq<Fields>, mode: nat, tf: Fields, zeros: nat)
    requires |fs| == |ms| && (forall f | f in fs :: FieldsOk(f)) && FieldsOk(tf) && mode < Pow16(8)
    requires (forall m | m in ms :: Printable(m) && m.name != TRAILER) && |ms| + 1 <= ENTRY_LIMIT
    ensures var trailer := Member(mode, TRAILER, []);
      IsArchive(PrintAll(ms, fs) + Print(trailer, tf) + seq(zeros, _ => 0), ms, trailer)
  {
    var trailer := Member(mode, TRAILER, []);
    hide Print, MemberAt, Printable, FieldsOk, Next, Pow16, PrintAll, Chain;
    TrailerPrints(mode);
    var all, end, tail: Text := PrintAll(ms, fs), Print(trailer, tf), seq(zeros, _ => 0);
    PrintedChain([], ms, fs, end + tail);
    JoinParts(all, end, tail);
    PrintedMember(all, trailer, tf, tail);
  }

  lemma {:induction false} Extends(file: Text, at: nat, ms: seq<Member>, ns: seq<Member>, trailer: Member)
    requires Chain(file, at, ms) && Chain(file, at, ns) && MemberAt(file, End(at, ns), trailer)
    requires trailer.name == TRAILER && forall m | m in ms :: m.name != TRAILER
    ensures |ms| <= |ns| && ns[..|ms|] == ms && MemberAt(file, End(at, ms), (ns + [trailer])[|ms|])
    decreases |ms|
  {
    hide MemberAt, Next;
    if ms == [] {
      assert ns != [] ==> (ns + [trailer])[0] == ns[0];
    } else {
      assert ms[0] in ms;
      OneMember(file, at, ms[0], if ns == [] then trailer else ns[0]);
      Extends(file, Next(at, ms[0]), ms[1..], ns[1..], trailer);
      assert (ns + [trailer])[|ms|] == (ns[1..] + [trailer])[|ms| - 1];
      assert ms == [ms[0]] + ms[1..] && ns[..|ms|] == [ns[0]] + ns[1..][..|ms| - 1];
    }
  }

  /** What stands in every archive after a chain that has met no trailer. */
  lemma Continues(file: Text, ms: seq<Member>, ns: seq<Member>, trailer: Member)
    requires IsArchive(file, ns, trailer) && Chain(file, 0, ms) && forall m | m in ms :: m.name != TRAILER
    ensures |ms| <= |ns| && ns[..|ms|] == ms && MemberAt(file, End(0, ms), (ns + [trailer])[|ms|])
  {
    hide MemberAt, Next;
    Extends(file, 0, ms, ns, trailer);
  }

  lemma {:induction false} ChainReaches(file: Text, at: nat, ms: seq<Member>, i: nat)
    requires Chain(file, at, ms) && i < |ms|
    ensures MemberAt(file, End(at, ms[..i]), ms[i])
    decreases i
  {
    hide MemberAt, Next;
    if i > 0 {
      assert ms[..i][1..] == ms[1..][..i - 1] && ms[..i][0] == ms[0];
      ChainReaches(file, Next(at, ms[0]), ms[1..], i - 1);
    }
  }

  /** A file is an archive in one way at most, so an accepted range is the only one possible. */
  lemma ArchiveUnique(file: Text, ms: seq<Member>, t: Member, ns: seq<Member>, u: Member)
    requires IsArchive(file, ms, t) && IsArchive(file, ns, u)
    ensures ms == ns && t == u
  {
    hide MemberAt, Next, Chain;
    Continues(file, ms, ns, u);
    Continues(file, ns, ms, t);
    assert ns[..|ms|] == ns && (ns + [u])[|ms|] == u;
    OneMember(file, End(0, ms), t, u);
  }

  /** The range of a member holds its data. */
  lemma DataStands(file: Text, ms: seq<Member>, i: nat)
    requires Chain(file, 0, ms) && i < |ms|
    ensures var at := DataOffset(End(0, ms[..i]), ms[i]);
      at + |ms[i].data| <= |file| && file[at..at + |ms[i].data|] == ms[i].data
  {
    ChainReaches(file, 0, ms, i);
  }
}
