/** `find_newc_member`: the walk over a newc archive that finds one regular member by name. */
module NewcFind {
  import opened Bytes
  import opened Options
  import opened Newc

  const IO_CHUNK: nat := 65536
  const TWO63: nat := 0x8000_0000_0000_0000
  const TWO64: nat := 0x1_0000_0000_0000_0000
  const SLASH: Byte := 0x2F

  datatype Found = Found(offset: nat, size: nat)

  /** `checked_add_u64`, where it does not overflow. */
  function CheckedAdd(a: nat, b: nat): nat
    requires a + b < TWO64
  {
    a + b
  }

  /** The names that may be asked for. */
  predicate WantedOk(wanted: Text) {
    && 0 < |wanted| <= PATH_MAX && wanted[0] != SLASH
    && !Contains(wanted, [SLASH, SLASH]) && !Contains(wanted, [0x2E, 0x2E, SLASH])
  }

  predicate InFile(offset: nat, length: nat, size: nat) { offset <= size && length <= size - offset }

  /** `parse_hex8`. */
  method ParseHex8(s: Text) returns (value: Option<nat>)
    requires |s| == 8
    ensures value == HexValue(s)
  {
    var n := 0;
    for i := 0 to 8
      invariant HexValue(s[..i]) == Some(n)
    {
      var digit := HexDigit(s[i]);
      assert s[..i + 1][..i] == s[..i];
      if digit.None? {
        BadDigit(s, i);
        return None;
      }
      n := 16 * n + digit.value;
    }
    assert s[..8] == s;
    return Some(n);
  }

  lemma {:induction false} BadDigit(s: Text, i: nat)
    requires i < |s| && HexDigit(s[i]).None?
    ensures HexValue(s).None?
    decreases |s|
  {
    if i < |s| - 1 {
      BadDigit(s[..|s| - 1], i);
    }
  }

  /** The member whose header is at `at`, if one is there. */
  method ReadMember(file: Text, at: nat) returns (m: Option<Member>)
    requires |file| < TWO63 && at < |file| + 4
    ensures m.Some? ==> MemberAt(file, at, m.value)
    ensures m.None? ==> forall x :: !MemberAt(file, at, x)
  {
    hide HexValue;
    if !InFile(at, HEADER_SIZE, |file|) || file[at..at + 6] != MAGIC {
      return None;
    }
    var mode := ParseHex8(file[at + 14..at + 22]);
    var size := ParseHex8(file[at + 54..at + 62]);
    var length := ParseHex8(file[at + 94..at + 102]);
    if mode.None? || size.None? || length.None? || length.value == 0 || length.value > PATH_MAX + 1 {
      return None;
    }
    m := ReadNameAndData(file, at, mode.value, size.value, length.value);
  }

  /** The name and the data, once the header is read. */
  method ReadNameAndData(file: Text, at: nat, mode: nat, size: nat, length: nat) returns (m: Option<Member>)
    requires |file| < TWO63 && at + HEADER_SIZE <= |file| && file[at..at + 6] == MAGIC
    requires HexValue(file[at + 14..at + 22]) == Some(mode) && HexValue(file[at + 54..at + 62]) == Some(size)
    requires HexValue(file[at + 94..at + 102]) == Some(length) && 0 < length <= PATH_MAX + 1
    ensures m.Some? ==> MemberAt(file, at, m.value)
    ensures m.None? ==> forall x :: !MemberAt(file, at, x)
  {
    NameAndData(file, at, mode, size, length);
    hide HexValue, MemberAt, Follows;
    var ok := CheckFollows(file, at, size, length);
    if !ok {
      return None;
    }
    FollowsFits(file, at, size, length);
    var nameAt := at + HEADER_SIZE;
    var dataAt := Align4(nameAt + length);
    m := Some(Member(mode, file[nameAt..nameAt + length - 1], file[dataAt..dataAt + size]));
  }

  /** The checks of the name and of the range of the data. */
  method CheckFollows(file: Text, at: nat, size: nat, length: nat) returns (ok: bool)
    requires |file| < TWO63 && at + HEADER_SIZE <= |file| && 0 < length <= PATH_MAX + 1
    ensures ok <==> Follows(file, at, size, length)
  {
    var nameAt := CheckedAdd(at, HEADER_SIZE);
    if !InFile(nameAt, length, |file|) {
      return false;
    }
    var name := file[nameAt..nameAt + length - 1];
    if file[nameAt + length - 1] != 0 || exists b | b in name :: b in REFUSED {
      return false;
    }
    var dataAt := Align4(CheckedAdd(nameAt, length));
    return size <= MEMBER_LIMIT && InFile(dataAt, size, |file|);
  }

  lemma FollowsFits(file: Text, at: nat, size: nat, length: nat)
    requires length > 0 && Follows(file, at, size, length)
    ensures at + HEADER_SIZE + length <= |file| && Align4(at + HEADER_SIZE + length) + size <= |file|
  {
  }

  /** What has to follow a header. */
  predicate Follows(file: Text, at: nat, size: nat, length: nat)
    requires length > 0
  {
    var nameAt := at + HEADER_SIZE;
    && nameAt + length <= |file| && file[nameAt + length - 1] == 0 && NameOk(file[nameAt..nameAt + length - 1])
    && size <= MEMBER_LIMIT && Align4(nameAt + length) + size <= |file|
  }

  lemma NameAndData(file: Text, at: nat, mode: nat, size: nat, length: nat)
    requires at + HEADER_SIZE <= |file| && file[at..at + 6] == MAGIC
    requires HexValue(file[at + 14..at + 22]) == Some(mode) && HexValue(file[at + 54..at + 62]) == Some(size)
    requires HexValue(file[at + 94..at + 102]) == Some(length) && 0 < length <= PATH_MAX + 1
    ensures Follows(file, at, size, length) ==>
      var nameAt := at + HEADER_SIZE; var dataAt := Align4(nameAt + length);
      MemberAt(file, at, Member(mode, file[nameAt..nameAt + length - 1], file[dataAt..dataAt + size]))
    ensures !Follows(file, at, size, length) ==> forall x :: !MemberAt(file, at, x)
  {
    hide HexValue;
    forall x ensures MemberAt(file, at, x) ==> Follows(file, at, size, length) {
      if MemberAt(file, at, x) {
        assert |x.data| == size && |x.name| == length - 1;
      }
    }
  }

  /** The walk so far: the members passed, and the one that was wanted, if it was met. */
  ghost predicate Walked(file: Text, wanted: Text, ms: seq<Member>, off: nat, matches: nat, found: Found) {
    && Chain(file, 0, ms) && off == End(0, ms) && (forall m | m in ms :: m.name != TRAILER)
    && matches <= 1
    && (matches == 0 ==> forall m | m in ms :: m.name != wanted)
    && (matches == 1 ==> exists i :: OnlyMember(ms, wanted, i) && found == FoundAt(ms, i))
  }

  function FoundAt(ms: seq<Member>, i: nat): Found
    requires i < |ms|
  {
    Found(DataOffset(End(0, ms[..i]), ms[i]), |ms[i].data|)
  }

  /** No archive continues this way. */
  ghost predicate Hopeless(file: Text, wanted: Text) {
    forall ms, trailer, i :: !Holds(file, wanted, ms, trailer, i)
  }

  lemma NothingHere(file: Text, wanted: Text, ms: seq<Member>)
    requires Chain(file, 0, ms) && (forall m | m in ms :: m.name != TRAILER)
    requires forall x :: !MemberAt(file, End(0, ms), x)
    ensures Hopeless(file, wanted)
  {
    forall ns: seq<Member>, trailer, i ensures !Holds(file, wanted, ns, trailer, i) {
      if IsArchive(file, ns, trailer) {
        Continues(file, ms, ns, trailer);
      }
    }
  }

  /** Once a member is read, every archive has it next, or has it as its trailer. */
  lemma MustBeNext(file: Text, ms: seq<Member>, m: Member, ns: seq<Member>, trailer: Member)
    requires Chain(file, 0, ms) && (forall x | x in ms :: x.name != TRAILER) && MemberAt(file, End(0, ms), m)
    requires IsArchive(file, ns, trailer)
    ensures |ms| <= |ns| && ns[..|ms|] == ms
    ensures if |ms| == |ns| then ns == ms && m == trailer else ns[|ms|] == m
    ensures m.name == TRAILER <==> |ms| == |ns|
  {
    Continues(file, ms, ns, trailer);
    OneMember(file, End(0, ms), m, (ns + [trailer])[|ms|]);
    hide MemberAt;
    if |ms| < |ns| {
      assert ns[|ms|] in ns;
    }
  }

  lemma TrailerWithData(file: Text, wanted: Text, ms: seq<Member>, m: Member)
    requires Chain(file, 0, ms) && (forall x | x in ms :: x.name != TRAILER) && MemberAt(file, End(0, ms), m)
    requires m.name == TRAILER && m.data != []
    ensures Hopeless(file, wanted)
  {
    hide MemberAt;
    forall ns: seq<Member>, trailer, i ensures !Holds(file, wanted, ns, trailer, i) {
      if IsArchive(file, ns, trailer) {
        MustBeNext(file, ms, m, ns, trailer);
      }
    }
  }

  /** A second member of the wanted name, or one that is not regular. */
  lemma WrongMember(file: Text, wanted: Text, ms: seq<Member>, m: Member)
    requires Chain(file, 0, ms) && (forall x | x in ms :: x.name != TRAILER) && MemberAt(file, End(0, ms), m)
    requires m.name == wanted != TRAILER
    requires !IsRegular(m.mode) || exists j | 0 <= j < |ms| :: ms[j].name == wanted
    ensures Hopeless(file, wanted)
  {
    hide MemberAt;
    forall ns: seq<Member>, trailer, i ensures !Holds(file, wanted, ns, trailer, i) {
      if IsArchive(file, ns, trailer) {
        MustBeNext(file, ms, m, ns, trailer);
        assert forall j | 0 <= j < |ms| :: ns[j] == ns[..|ms|][j];
        assert ns[|ms|].name == wanted;
      }
    }
  }

  lemma TooMany(file: Text, wanted: Text, ms: seq<Member>)
    requires Chain(file, 0, ms) && (forall x | x in ms :: x.name != TRAILER) && |ms| >= ENTRY_LIMIT
    ensures Hopeless(file, wanted)
  {
    hide MemberAt;
    forall ns: seq<Member>, trailer, i ensures !Holds(file, wanted, ns, trailer, i) {
      if IsArchive(file, ns, trailer) {
        Continues(file, ms, ns, trailer);
      }
    }
  }

  /** At the trailer the archive is decided: it is this one or none. */
  lemma AtTrailer(file: Text, wanted: Text, ms: seq<Member>, m: Member)
    requires Chain(file, 0, ms) && (forall x | x in ms :: x.name != TRAILER) && MemberAt(file, End(0, ms), m)
    requires m.name == TRAILER && !(exists i :: Holds(file, wanted, ms, m, i))
    ensures Hopeless(file, wanted)
  {
    hide MemberAt;
    forall ns: seq<Member>, trailer, i ensures !Holds(file, wanted, ns, trailer, i) {
      if IsArchive(file, ns, trailer) {
        MustBeNext(file, ms, m, ns, trailer);
      }
    }
  }

  /** The NUL bytes behind the trailer, a chunk at a time. */
  method OnlyNul(file: Text, from: nat) returns (yes: bool)
    ensures yes <==> forall k | from <= k < |file| :: file[k] == 0
  {
    var off := from;
    while off < |file|
      invariant from <= off && forall k | from <= k < off && k < |file| :: file[k] == 0
      decreases |file| - off
    {
      var take := if |file| - off > IO_CHUNK then IO_CHUNK else |file| - off;
      for i := 0 to take
        invariant forall k | off <= k < off + i :: file[k] == 0
      {
        if file[off + i] != 0 {
          return false;
        }
      }
      off := off + take;
    }
    return true;
  }

  /** One member of the walk: the new count and result, or nothing when no archive continues this way. */
  method Account(file: Text, wanted: Text, m: Member, at: nat, matches: nat, before: Found, ghost ms: seq<Member>)
    returns (ok: bool, count: nat, found: Found)
    requires Walked(file, wanted, ms, at, matches, before) && MemberAt(file, at, m) && m.name != TRAILER
    ensures ok ==> Walked(file, wanted, ms + [m], Next(at, m), count, found)
    ensures !ok ==> Hopeless(file, wanted)
  {
    hide MemberAt, Hopeless;
    count, found := matches, before;
    ChainGrows(file, 0, ms, m);
    Grown(ms, m, wanted);
    if m.name == wanted {
      count := count + 1;
      if count != 1 || !IsRegular(m.mode) {
        if count != 1 {
          Met(file, wanted, ms, at, matches, before);
        }
        WrongMember(file, wanted, ms, m);
        return false, count, found;
      }
      found := Found(DataOffset(at, m), |m.data|);
      assert OnlyMember(ms + [m], wanted, |ms|) && found == FoundAt(ms + [m], |ms|);
    }
    ok := true;
  }

  lemma Met(file: Text, wanted: Text, ms: seq<Member>, at: nat, matches: nat, found: Found)
    requires Walked(file, wanted, ms, at, matches, found) && matches != 0
    ensures exists j | 0 <= j < |ms| :: ms[j].name == wanted
  {
    hide Chain, MemberAt, FoundAt;
    var i: nat :| OnlyMember(ms, wanted, i) && found == FoundAt(ms, i);
    assert ms[i].name == wanted;
  }

  lemma Grown(ms: seq<Member>, m: Member, wanted: Text)
    ensures (ms + [m])[..|ms|] == ms
    ensures m.name != wanted ==> forall i: nat :: OnlyMember(ms, wanted, i) ==>
      OnlyMember(ms + [m], wanted, i) && FoundAt(ms + [m], i) == FoundAt(ms, i)
    ensures m.name == wanted && IsRegular(m.mode) && (forall x | x in ms :: x.name != wanted) ==>
      OnlyMember(ms + [m], wanted, |ms|)
  {
    forall i: nat | OnlyMember(ms, wanted, i) && m.name != wanted
      ensures OnlyMember(ms + [m], wanted, i) && FoundAt(ms + [m], i) == FoundAt(ms, i)
    {
      assert (ms + [m])[..i] == ms[..i];
    }
  }

  /** What `FindMember` promises of its result. */
  ghost predicate Promised(file: Text, wanted: Text, found: Option<Found>, ms: seq<Member>, trailer: Member, i: nat) {
    && (found.Some? ==> Holds(file, wanted, ms, trailer, i) && found.value == FoundAt(ms, i))
    && (found.None? ==> !WantedOk(wanted) || Hopeless(file, wanted))
  }

  /** `find_newc_member`. It ends without overflow and accepts exactly the archives that hold the wanted name in one
      regular member; the witnesses are the members of the file, its trailer, and which of them is found. */
  method FindMember(file: Text, wanted: Text)
    returns (found: Option<Found>, ghost ms: seq<Member>, ghost trailer: Member, ghost i: nat)
    requires |file| < TWO63
    ensures found.Some? ==> WantedOk(wanted)
    ensures Promised(file, wanted, found, ms, trailer, i)
  {
    hide MemberAt, Hopeless, IsArchive, OnlyMember;
    found, ms, trailer, i := None, [], Member(0, [], []), 0;
    if !WantedOk(wanted) {
      return;
    }
    var off: nat, matches: nat := 0, 0;
    var result := Found(0, 0);
    for entry := 0 to ENTRY_LIMIT
      invariant Walked(file, wanted, ms, off, matches, result) && |ms| == entry && off < |file| + 4 && found.None?
    {
      var member := ReadMember(file, off);
      if member.None? {
        NothingHere(file, wanted, ms);
        return;
      }
      var m := member.value;
      if m.name == TRAILER {
        trailer := m;
        found, i := FinishWalk(file, wanted, m, off, matches, result, ms);
        return;
      }
      var ok;
      NextInFile(file, off, m);
      ok, matches, result := Account(file, wanted, m, off, matches, result, ms);
      if !ok {
        return;
      }
      ms := ms + [m];
      off := Align4(CheckedAdd(DataOffset(off, m), |m.data|));
    }
    TooMany(file, wanted, ms);
  }

  lemma NextInFile(file: Text, at: nat, m: Member)
    requires MemberAt(file, at, m)
    ensures Next(at, m) < |file| + 4 && DataOffset(at, m) + |m.data| <= |file|
  {
  }

  /** The trailer: it has no data, the wanted member was met once, and only NUL bytes follow. */
  method FinishWalk(file: Text, wanted: Text, m: Member, at: nat, matches: nat, result: Found, ghost ms: seq<Member>)
    returns (found: Option<Found>, ghost i: nat)
    requires Walked(file, wanted, ms, at, matches, result) && MemberAt(file, at, m) && m.name == TRAILER
    requires |ms| < ENTRY_LIMIT
    ensures found.Some? ==> Holds(file, wanted, ms, m, i) && found.value == FoundAt(ms, i)
    ensures found.None? ==> Hopeless(file, wanted)
  {
    hide MemberAt, Hopeless;
    i := 0;
    if m.data != [] {
      TrailerWithData(file, wanted, ms, m);
      return None, 0;
    }
    if matches != 1 {
      AtTrailer(file, wanted, ms, m);
      return None, 0;
    }
    i :| OnlyMember(ms, wanted, i) && result == FoundAt(ms, i);
    var nul := OnlyNul(file, Align4(DataOffset(at, m)));
    if !nul {
      AtTrailer(file, wanted, ms, m);
      return None, i;
    }
    found := Some(result);
  }

  /** In an archive that an encoder printed within the limits, followed by any number of NUL bytes, the result for a
      name that one regular member has is exactly where the encoder put that member's data. */
  lemma PrintedIsFound(ms: seq<Member>, fs: seq<Fields>, mode: nat, tf: Fields, zeros: nat, wanted: Text, i: nat,
                       found: Option<Found>, ns: seq<Member>, t: Member, j: nat)
    requires |fs| == |ms| && (forall f | f in fs :: FieldsOk(f)) && FieldsOk(tf) && mode < Pow16(8)
    requires (forall m | m in ms :: Printable(m) && m.name != TRAILER) && |ms| + 1 <= ENTRY_LIMIT
    requires WantedOk(wanted) && OnlyMember(ms, wanted, i)
    requires Promised(PrintAll(ms, fs) + Print(Member(mode, TRAILER, []), tf) + seq(zeros, _ => 0), wanted, found, ns,
                      t, j)
    ensures found == Some(FoundAt(ms, i))
    ensures FoundAt(ms, i).offset + FoundAt(ms, i).size <= |PrintAll(ms, fs)|
    ensures PrintAll(ms, fs)[FoundAt(ms, i).offset..FoundAt(ms, i).offset + FoundAt(ms, i).size] == ms[i].data
  {
    assert i < |ms|;
    hide IsArchive, MemberAt, Print, PrintAll, Pow16, Printable, WantedOk, OnlyMember, FoundAt, Hopeless, FieldsOk;
    PrintedIsArchive(ms, fs, mode, tf, zeros);
    PrintedRange(ms, fs, i);
    var file: Text := PrintAll(ms, fs) + Print(Member(mode, TRAILER, []), tf) + seq(zeros, _ => 0);
    SameFound(file, wanted, ms, Member(mode, TRAILER, []), i, found, ns, t, j);
  }

  lemma SameFound(file: Text, wanted: Text, ms: seq<Member>, trailer: Member, i: nat,
                  found: Option<Found>, ns: seq<Member>, t: Member, j: nat)
    requires IsArchive(file, ms, trailer) && OnlyMember(ms, wanted, i)
    requires Promised(file, wanted, found, ns, t, j) && WantedOk(wanted)
    ensures found == Some(FoundAt(ms, i))
  {
    hide IsArchive, FoundAt, WantedOk;
    assert Holds(file, wanted, ms, trailer, i);
    if found.Some? {
      ArchiveUnique(file, ms, trailer, ns, t);
    }
  }

  /** In the printed members alone the range already holds the data. */
  lemma PrintedRange(ms: seq<Member>, fs: seq<Fields>, i: nat)
    requires |fs| == |ms| && (forall f | f in fs :: FieldsOk(f)) && (forall m | m in ms :: Printable(m)) && i < |ms|
    ensures FoundAt(ms, i).offset + FoundAt(ms, i).size <= |PrintAll(ms, fs)|
    ensures PrintAll(ms, fs)[FoundAt(ms, i).offset..FoundAt(ms, i).offset + FoundAt(ms, i).size] == ms[i].data
  {
    hide PrintAll, Printable;
    PrintedChain([], ms, fs, []);
    assert [] + PrintAll(ms, fs) + [] == PrintAll(ms, fs);
    DataStands(PrintAll(ms, fs), ms, i);
  }
}
