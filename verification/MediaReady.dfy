/** READY, the control file that authorises a media promotion: `ready_bytes` and `parse_ready`. */
module MediaReady {
  import opened Options
  import opened Text

  const U64: nat := 0x1_0000_0000_0000_0000
  const U32: nat := 0x1_0000_0000
  const I64: nat := 0x8000_0000_0000_0000

  datatype FileSeal = FileSeal(dev: nat, ino: nat, len: nat, uid: nat, mode: nat, nlink: nat, mtime: int,
                               mtimeNsec: int, hash: string)

  datatype Member = Image | Sha256 | MediaLock | Manifest

  const MEMBERS: seq<Member> := [Image, Sha256, MediaLock, Manifest]

  /** The invocation a journal is bound to, with the hash of its request already taken. */
  datatype Binding = Binding(parentDev: nat, parentIno: nat, output: string, requestHash: string,
                             profileLockHash: string, mode: string, format: string, bootHash: string,
                             minipaxHash: string, tool: string)

  function FieldName(m: Member): string {
    match m
    case Image => "IMAGE"
    case Sha256 => "SHA256_SIDECAR"
    case MediaLock => "MEDIA_LOCK"
    case Manifest => "MANIFEST"
  }

  function Suffix(j: nat): string
    requires j < 9
  {
    ["DEV", "INO", "LEN", "UID", "MODE", "NLINK", "MTIME", "MTIME_NSEC", "SHA256"][j]
  }

  function MemberKey(m: Member, j: nat): string
    requires j < 9
  {
    FieldName(m) + "_" + Suffix(j)
  }

  function SealValue(s: FileSeal, j: nat): string
    requires j < 9
  {
    match j
    case 0 => Decimal(s.dev)
    case 1 => Decimal(s.ino)
    case 2 => Decimal(s.len)
    case 3 => Decimal(s.uid)
    case 4 => Decimal(s.mode)
    case 5 => Decimal(s.nlink)
    case 6 => Signed(s.mtime)
    case 7 => Signed(s.mtimeNsec)
    case _ => s.hash
  }

  function HeaderKey(i: nat): string
    requires i < 11
  {
    ["MEDIA_PUBLISH_FORMAT", "PARENT_DEV", "PARENT_INO", "OUTPUT_NAME", "REQUEST_SHA256", "PROFILE_LOCK_SHA256",
     "MODE", "FORMAT", "BOOT_EFI_SHA256", "MINIPAX_EXECUTABLE_SHA256", "TOOL"][i]
  }

  function HeaderValue(b: Binding, i: nat): string
    requires i < 11
  {
    match i
    case 0 => "2"
    case 1 => Decimal(b.parentDev)
    case 2 => Decimal(b.parentIno)
    case 3 => b.output
    case 4 => b.requestHash
    case 5 => b.profileLockHash
    case 6 => b.mode
    case 7 => b.format
    case 8 => b.bootHash
    case 9 => b.minipaxHash
    case _ => b.tool
  }

  const FIELD_COUNT: nat := 11 + 4 * 9

  /** Field `i` of the document: eleven header fields, then nine for each member. */
  function ReadyField(b: Binding, members: seq<FileSeal>, i: nat): Field
    requires |members| == 4 && i < FIELD_COUNT
  {
    if i < 11 then (HeaderKey(i), HeaderValue(b, i))
    else (MemberKey(MEMBERS[(i - 11) / 9], (i - 11) % 9), SealValue(members[(i - 11) / 9], (i - 11) % 9))
  }

  function ReadyFields(b: Binding, members: seq<FileSeal>): seq<Field>
    requires |members| == 4
  {
    seq(FIELD_COUNT, i requires 0 <= i < FIELD_COUNT => ReadyField(b, members, i))
  }

  /** `ready_bytes`. */
  function ReadyBytes(b: Binding, members: seq<FileSeal>): string
    requires |members| == 4
  {
    Render(ReadyFields(b, members))
  }

  predicate IsHexDigit(c: char) { '0' <= c <= '9' || 'a' <= c <= 'f' || 'A' <= c <= 'F' }

  predicate IsHash(h: string) { |h| == 64 && forall c | c in h :: IsHexDigit(c) }

  function ParseSeal(fields: map<string, string>, m: Member): Option<FileSeal> {
    if !(forall j: nat | j < 9 :: MemberKey(m, j) in fields) then None
    else
      var dev := ParseUnsigned(fields[MemberKey(m, 0)], U64);
      var ino := ParseUnsigned(fields[MemberKey(m, 1)], U64);
      var len := ParseUnsigned(fields[MemberKey(m, 2)], U64);
      var uid := ParseUnsigned(fields[MemberKey(m, 3)], U32);
      var mode := ParseUnsigned(fields[MemberKey(m, 4)], U32);
      var nlink := ParseUnsigned(fields[MemberKey(m, 5)], U64);
      var mtime := ParseSigned(fields[MemberKey(m, 6)], I64);
      var nsec := ParseSigned(fields[MemberKey(m, 7)], I64);
      var hash := fields[MemberKey(m, 8)];
      if dev.None? || ino.None? || len.None? || uid.None? || mode.None? || nlink.None? || mtime.None? || nsec.None?
         || !IsHash(hash) then None
      else Some(FileSeal(dev.value, ino.value, len.value, uid.value, mode.value, nlink.value, mtime.value, nsec.value,
                         hash))
  }

  /** Bits 0o022 of a mode. */
  predicate OthersMayWrite(mode: nat) { (mode / 2) % 2 == 1 || (mode / 16) % 2 == 1 }

  /** What `parse_ready` demands of each recorded seal. */
  predicate Owned(b: Binding, euid: nat, s: FileSeal) {
    s.dev == b.parentDev && s.uid == euid && !OthersMayWrite(s.mode) && s.nlink == 1
  }

  predicate HeaderMatches(fields: map<string, string>, b: Binding) {
    forall i: nat | i < 11 :: HeaderKey(i) in fields && fields[HeaderKey(i)] == HeaderValue(b, i)
  }

  function ParseSeals(fields: map<string, string>): Option<seq<FileSeal>> {
    if exists m | m in MEMBERS :: ParseSeal(fields, m).None? then None
    else Some(seq(4, i requires 0 <= i < 4 => ParseSeal(fields, MEMBERS[i]).value))
  }

  /** `parse_ready`. */
  function ParseReady(text: string, b: Binding, euid: nat): (r: Option<seq<FileSeal>>)
    ensures r.Some? ==> |r.value| == 4
  {
    match ParseFields(Lines(text))
    case None => None
    case Some(fields) =>
      if !HeaderMatches(fields, b) then None
      else match ParseSeals(fields)
           case None => None
           case Some(members) =>
             if exists s | s in members :: !Owned(b, euid, s) then None
             else if members[2].hash != b.profileLockHash || |fields| != FIELD_COUNT then None
             else if text != ReadyBytes(b, members) then None
             else Some(members)
  }

  // ------------------------------------------------------------------------------------------
  // ready_bytes and parse_ready are inverse
  // ------------------------------------------------------------------------------------------

  /** A binding whose values survive a KEY=value line. */
  predicate PlainBinding(b: Binding) {
    && b.parentDev < U64 && b.parentIno < U64
    && forall i: nat | i < 11 :: Plain(("K", HeaderValue(b, i)))
  }

  /** The ranges of the `stat` fields a seal is made of, and the form of its hash. */
  predicate Measured(s: FileSeal) {
    && s.dev < U64 && s.ino < U64 && s.len < U64 && s.uid < U32 && s.mode < U32 && s.nlink < U64
    && -(I64 as int) <= s.mtime < I64 && -(I64 as int) <= s.mtimeNsec < I64
    && IsHash(s.hash)
  }

  predicate Sealed(b: Binding, euid: nat, s: FileSeal) { Measured(s) && Owned(b, euid, s) }

  /** Seals that a READY of `b` may record. */
  predicate SealedBundle(b: Binding, euid: nat, members: seq<FileSeal>) {
    |members| == 4 && (forall s | s in members :: Sealed(b, euid, s)) && members[2].hash == b.profileLockHash
  }

  /** Which field a key belongs to, from a few of its characters. */
  function KeyIndex(k: string): nat
    requires |k| >= 2
  {
    var last := k[|k| - 1];
    if k[0] == 'I' then 11 + SuffixIndex(|k| - 6, last)
    else if k[0] == 'S' then 20 + SuffixIndex(|k| - 15, last)
    else if k[0] == 'M' && k[1] == 'E' && |k| != 20 then 29 + SuffixIndex(|k| - 11, last)
    else if k[0] == 'M' && k[1] == 'A' then 38 + SuffixIndex(|k| - 9, last)
    else if k[0] == 'M' then if k[1] == 'E' then 0 else if k[1] == 'O' then 6 else 9
    else if k[0] == 'P' then if k[1] == 'R' then 5 else if last == 'V' then 1 else 2
    else if k[0] == 'O' then 3
    else if k[0] == 'R' then 4
    else if k[0] == 'F' then 7
    else if k[0] == 'B' then 8
    else 10
  }

  function SuffixIndex(n: int, last: char): nat {
    if n == 3 then (if last == 'V' then 0 else if last == 'O' then 1 else if last == 'N' then 2 else 3)
    else if n == 4 then 4
    else if n == 5 then (if last == 'K' then 5 else 6)
    else if n == 10 then 7
    else 8
  }

  lemma SuffixShape(j: nat)
    requires j < 9
    ensures |Suffix(j)| > 0 && SuffixIndex(|Suffix(j)|, Suffix(j)[|Suffix(j)| - 1]) == j
    ensures |Suffix(j)| <= 10 && |Suffix(j)| != 9 && '=' !in Suffix(j) && '\n' !in Suffix(j)
  {
    if j < 4 { } else if j < 7 { }
  }

  lemma HeaderKeyIndex(i: nat)
    requires i < 11
    ensures var k := HeaderKey(i); |k| >= 2 && KeyIndex(k) == i && '=' !in k && '\n' !in k
  {
    hide HeaderKey, KeyIndex;
    if i < 4 {
      FirstKeyIndex(i);
    } else if i < 8 {
      MiddleKeyIndex(i);
    } else {
      LastKeyIndex(i);
    }
  }

  lemma FirstKeyIndex(i: nat)
    requires i < 4
    ensures var k := HeaderKey(i); |k| >= 2 && KeyIndex(k) == i && '=' !in k && '\n' !in k
  {
    if i < 2 { }
  }

  lemma MiddleKeyIndex(i: nat)
    requires 4 <= i < 8
    ensures var k := HeaderKey(i); |k| >= 2 && KeyIndex(k) == i && '=' !in k && '\n' !in k
  {
    if i < 6 { }
  }

  lemma LastKeyIndex(i: nat)
    requires 8 <= i < 11
    ensures var k := HeaderKey(i); |k| >= 2 && KeyIndex(k) == i && '=' !in k && '\n' !in k
  {
    if i < 9 { }
  }

  lemma MemberKeyIndex(m: Member, j: nat)
    requires j < 9
    ensures var k := MemberKey(m, j); |k| >= 2 && '=' !in k && '\n' !in k
    ensures KeyIndex(MemberKey(m, j))
         == (match m case Image => 11 case Sha256 => 20 case MediaLock => 29 case Manifest => 38) + j
  {
    SuffixShape(j);
    var f, t := FieldName(m), Suffix(j);
    var k := MemberKey(m, j);
    assert k == f + "_" + t && |k| == |f| + 1 + |t|;
    assert k[|k| - 1] == t[|t| - 1] && k[0] == f[0] && k[1] == f[1];
    hide Suffix, MemberKey;
    match m {
      case Image => case Sha256 => case MediaLock => case Manifest =>
    }
  }

  lemma KeyIndexInverts(i: nat)
    requires i < FIELD_COUNT
    ensures var k := if i < 11 then HeaderKey(i) else MemberKey(MEMBERS[(i - 11) / 9], (i - 11) % 9);
      |k| >= 2 && KeyIndex(k) == i && '=' !in k && '\n' !in k
  {
    hide KeyIndex, MemberKey, HeaderKey;
    if i < 11 {
      HeaderKeyIndex(i);
    } else {
      MemberKeyIndex(MEMBERS[(i - 11) / 9], (i - 11) % 9);
    }
  }

  lemma KeysDistinct(b: Binding, members: seq<FileSeal>)
    requires |members| == 4
    ensures DistinctKeys(ReadyFields(b, members))
  {
    var fields := ReadyFields(b, members);
    forall i, j | 0 <= i < j < |fields| ensures fields[i].0 != fields[j].0 {
      KeyIndexInverts(i);
      KeyIndexInverts(j);
    }
  }

  lemma FieldsPlain(b: Binding, euid: nat, members: seq<FileSeal>)
    requires PlainBinding(b) && SealedBundle(b, euid, members)
    ensures var fields := ReadyFields(b, members); forall i | 0 <= i < |fields| :: Plain(fields[i])
  {
    var fields := ReadyFields(b, members);
    forall i | 0 <= i < |fields| ensures Plain(fields[i]) {
      KeyIndexInverts(i);
      if i < 11 {
        assert Plain(("K", HeaderValue(b, i)));
      } else {
        var s, j := members[(i - 11) / 9], (i - 11) % 9;
        assert s in members && Sealed(b, euid, s);
        ValuePlain(s, j);
      }
    }
  }

  lemma ValuePlain(s: FileSeal, j: nat)
    requires j < 9 && IsHash(s.hash)
    ensures var v := SealValue(s, j); v != "" && '\n' !in v && v[|v| - 1] != '\r'
  {
    var v := SealValue(s, j);
    assert forall c | c in v :: IsHexDigit(c) || c == '-';
    assert v[|v| - 1] in v;
  }

  lemma SealParses(b: Binding, euid: nat, members: seq<FileSeal>, i: nat)
    requires PlainBinding(b) && SealedBundle(b, euid, members) && i < 4
    ensures ParseSeal(ToMap(ReadyFields(b, members)), MEMBERS[i]) == Some(members[i])
  {
    var fields := ReadyFields(b, members);
    var m, s := MEMBERS[i], members[i];
    assert s in members && Sealed(b, euid, s);
    KeysDistinct(b, members);
    forall j: nat | j < 9
      ensures MemberKey(m, j) in ToMap(fields) && ToMap(fields)[MemberKey(m, j)] == SealValue(s, j)
    {
      var at := 11 + 9 * i + j;
      assert (at - 11) / 9 == i && (at - 11) % 9 == j;
      ToMapAt(fields, at);
      assert fields[at] == (MemberKey(m, j), SealValue(s, j));
    }
    NumbersInvert(s.dev, s.mtime, U64);
    NumbersInvert(s.ino, s.mtime, U64);
    NumbersInvert(s.len, s.mtime, I64);
    NumbersInvert(s.len, s.mtimeNsec, U64);
    NumbersInvert(s.nlink, s.mtimeNsec, I64);
    NumbersInvert(s.nlink, s.mtimeNsec, U64);
    NumbersInvert(s.uid, s.mtime, U32);
    NumbersInvert(s.mode, s.mtime, U32);
  }

  lemma HeaderParses(b: Binding, members: seq<FileSeal>)
    requires |members| == 4
    ensures HeaderMatches(ToMap(ReadyFields(b, members)), b)
  {
    var fields := ReadyFields(b, members);
    KeysDistinct(b, members);
    hide HeaderKey, HeaderValue, ToMap, MemberKey;
    forall i: nat | i < 11
      ensures HeaderKey(i) in ToMap(fields) && ToMap(fields)[HeaderKey(i)] == HeaderValue(b, i)
    {
      ToMapAt(fields, i);
      assert fields[i] == (HeaderKey(i), HeaderValue(b, i));
    }
  }

  lemma SealsParse(b: Binding, euid: nat, members: seq<FileSeal>)
    requires PlainBinding(b) && SealedBundle(b, euid, members)
    ensures ParseSeals(ToMap(ReadyFields(b, members))) == Some(members)
  {
    var fields := ToMap(ReadyFields(b, members));
    forall i: nat | i < 4 ensures ParseSeal(fields, MEMBERS[i]) == Some(members[i]) {
      SealParses(b, euid, members, i);
    }
    hide ParseSeal, ReadyFields, ToMap;
    var parsed := seq(4, i requires 0 <= i < 4 => ParseSeal(fields, MEMBERS[i]).value);
    assert parsed == members;
  }

  lemma ReadyFieldsLength(b: Binding, members: seq<FileSeal>)
    requires |members| == 4
    ensures |ReadyFields(b, members)| == FIELD_COUNT
  {
  }

  /** Round trip: `parse_ready` reads back exactly the seals that `ready_bytes` wrote. */
  lemma ReadyRoundTrip(b: Binding, euid: nat, members: seq<FileSeal>)
    requires PlainBinding(b) && SealedBundle(b, euid, members)
    ensures ParseReady(ReadyBytes(b, members), b, euid) == Some(members)
  {
    var fields := ReadyFields(b, members);
    KeysDistinct(b, members);
    FieldsPlain(b, euid, members);
    RenderParses(fields);
    ToMapKeys(fields);
    HeaderParses(b, members);
    SealsParse(b, euid, members);
    hide ParseSeals, HeaderMatches, Render, Lines, ParseFields, ReadyFields, Plain, ToMap, DistinctKeys, KeysOf,
      PlainBinding;
    assert |fields| == FIELD_COUNT by { ReadyFieldsLength(b, members); }
    assert forall s | s in members :: Owned(b, euid, s);
  }

  lemma SealInRange(fields: map<string, string>, m: Member, b: Binding, euid: nat)
    requires ParseSeal(fields, m).Some? && Owned(b, euid, ParseSeal(fields, m).value)
    ensures Sealed(b, euid, ParseSeal(fields, m).value)
  {
  }

  /** And it accepts nothing else: an accepted text is the rendering of the seals it yields. */
  lemma ReadyAcceptsOnlyItsOwn(text: string, b: Binding, euid: nat, members: seq<FileSeal>)
    requires PlainBinding(b)
    ensures ParseReady(text, b, euid) == Some(members)
       <==> SealedBundle(b, euid, members) && text == ReadyBytes(b, members)
  {
    if SealedBundle(b, euid, members) && text == ReadyBytes(b, members) {
      ReadyRoundTrip(b, euid, members);
    }
    hide ParseSeal, HeaderKey, HeaderValue, Render, Lines, ParseFields, ReadyField, Sealed, Owned, ReadyBytes;
    if ParseReady(text, b, euid) == Some(members) {
      var fields := ParseFields(Lines(text)).value;
      forall i | 0 <= i < 4 ensures Sealed(b, euid, members[i]) {
        assert MEMBERS[i] in MEMBERS && members[i] in members;
        SealInRange(fields, MEMBERS[i], b, euid);
      }
    }
  }

  /** The octal digit of a mode for the group or for others lets them write. */
  predicate MayWrite(digit: nat) { digit == 2 || digit == 3 || digit == 6 || digit == 7 }

  /** A seal that READY may record: on the device of the destination, of this user, with one link, and writable to its
      owner alone. */
  lemma OwnedIs(b: Binding, euid: nat, s: FileSeal)
    ensures Owned(b, euid, s) <==>
            && s.dev == b.parentDev && s.uid == euid && s.nlink == 1
            && !MayWrite(s.mode / 8 % 8) && !MayWrite(s.mode % 8)
  {
    WriteBit(s.mode);
    WriteBit(s.mode / 8);
    assert s.mode / 8 / 2 == s.mode / 16;
  }

  lemma WriteBit(mode: nat)
    ensures mode / 2 % 2 == 1 <==> MayWrite(mode % 8)
  {
  }

  // ------------------------------------------------------------------------------------------
  // The document, line by line
  // ------------------------------------------------------------------------------------------

  /** The nine lines of one member, from line `at` on. */
  ghost predicate MemberLines(f: seq<Field>, at: nat, name: string, s: FileSeal)
    requires at + 9 <= |f|
  {
    && f[at] == (name + "_DEV", Decimal(s.dev)) && f[at + 1] == (name + "_INO", Decimal(s.ino))
    && f[at + 2] == (name + "_LEN", Decimal(s.len)) && f[at + 3] == (name + "_UID", Decimal(s.uid))
    && f[at + 4] == (name + "_MODE", Decimal(s.mode)) && f[at + 5] == (name + "_NLINK", Decimal(s.nlink))
    && f[at + 6] == (name + "_MTIME", Signed(s.mtime)) && f[at + 7] == (name + "_MTIME_NSEC", Signed(s.mtimeNsec))
    && f[at + 8] == (name + "_SHA256", s.hash)
  }

  /** The eleven lines of the binding. */
  ghost predicate BindingLines(f: seq<Field>, b: Binding)
    requires |f| >= 11
  {
    && f[0] == ("MEDIA_PUBLISH_FORMAT", "2") && f[1] == ("PARENT_DEV", Decimal(b.parentDev))
    && f[2] == ("PARENT_INO", Decimal(b.parentIno)) && f[3] == ("OUTPUT_NAME", b.output)
    && f[4] == ("REQUEST_SHA256", b.requestHash) && f[5] == ("PROFILE_LOCK_SHA256", b.profileLockHash)
    && f[6] == ("MODE", b.mode) && f[7] == ("FORMAT", b.format) && f[8] == ("BOOT_EFI_SHA256", b.bootHash)
    && f[9] == ("MINIPAX_EXECUTABLE_SHA256", b.minipaxHash) && f[10] == ("TOOL", b.tool)
  }

  /** READY is these lines: the binding, and the seals of the image and of its three sidecars. */
  lemma ReadyLines(b: Binding, seals: seq<FileSeal>)
    requires |seals| == 4
    ensures var f := ReadyFields(b, seals);
      && ReadyBytes(b, seals) == Render(f) && |f| == 47 && BindingLines(f, b)
      && MemberLines(f, 11, "IMAGE", seals[0]) && MemberLines(f, 20, "SHA256_SIDECAR", seals[1])
      && MemberLines(f, 29, "MEDIA_LOCK", seals[2]) && MemberLines(f, 38, "MANIFEST", seals[3])
  {
    BindingFields(b, seals);
    MemberFields(b, seals, 0);
    MemberFields(b, seals, 1);
    MemberFields(b, seals, 2);
    MemberFields(b, seals, 3);
    hide MemberLines, BindingLines, Decimal, Signed, ReadyField, Render;
  }

  lemma BindingFields(b: Binding, seals: seq<FileSeal>)
    requires |seals| == 4
    ensures BindingLines(ReadyFields(b, seals), b)
  {
    var f := ReadyFields(b, seals);
    hide Decimal, Signed, MemberKey, SealValue;
    assert forall i: nat | i < 11 :: f[i] == (HeaderKey(i), HeaderValue(b, i));
    hide ReadyFields;
  }

  lemma MemberFields(b: Binding, seals: seq<FileSeal>, k: nat)
    requires |seals| == 4 && k < 4
    ensures MemberLines(ReadyFields(b, seals), 11 + 9 * k, FieldName(MEMBERS[k]), seals[k])
  {
    hide Decimal, Signed, HeaderKey, HeaderValue, FieldName;
    var f := ReadyFields(b, seals);
    forall j: nat | j < 9 ensures f[11 + 9 * k + j] == (MemberKey(MEMBERS[k], j), SealValue(seals[k], j)) {
      assert (9 * k + j) / 9 == k && (9 * k + j) % 9 == j;
    }
    hide ReadyFields;
    assert forall j: nat | j < 9 :: MemberKey(MEMBERS[k], j) == FieldName(MEMBERS[k]) + "_" + Suffix(j);
    SuffixTexts(FieldName(MEMBERS[k]));
  }

  lemma SuffixTexts(name: string)
    ensures name + "_" + Suffix(0) == name + "_DEV" && name + "_" + Suffix(1) == name + "_INO"
    ensures name + "_" + Suffix(2) == name + "_LEN" && name + "_" + Suffix(3) == name + "_UID"
    ensures name + "_" + Suffix(4) == name + "_MODE" && name + "_" + Suffix(5) == name + "_NLINK"
    ensures name + "_" + Suffix(6) == name + "_MTIME" && name + "_" + Suffix(7) == name + "_MTIME_NSEC"
    ensures name + "_" + Suffix(8) == name + "_SHA256"
  {
    assert "_" + "DEV" == "_DEV" && "_" + "INO" == "_INO" && "_" + "LEN" == "_LEN" && "_" + "UID" == "_UID";
    assert "_" + "MODE" == "_MODE" && "_" + "NLINK" == "_NLINK" && "_" + "MTIME" == "_MTIME";
    assert "_" + "MTIME_NSEC" == "_MTIME_NSEC" && "_" + "SHA256" == "_SHA256";
    forall j: nat | j < 9 ensures name + "_" + Suffix(j) == name + ("_" + Suffix(j)) {
    }
  }
}
