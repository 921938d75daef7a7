/** The writer of the canonical GNU tar, which fills headers in place, and the validation that compares as it writes. */
module GnuTarWriter {
  import opened Buffers
  import opened Bytes
  import opened Options
  import opened GnuTar

  // ------------------------------------------------------------------------------------------
  // Headers, filled in place
  // ------------------------------------------------------------------------------------------

  /** `format!("{:o}")`. */
  function OctalDigits(n: nat): (s: Text)
    ensures |s| > 0
  {
    if n < 8 then [0x30 + n] else OctalDigits(n / 8) + [0x30 + n % 8]
  }

  /** The digits fit into a field exactly when the number does, and zeros in front make them the fixed-width form. */
  lemma {:induction false} DigitsFit(n: nat, width: nat)
    requires width > 0
    ensures |OctalDigits(n)| <= width <==> n < Pow8(width)
    ensures n < Pow8(width) ==> Fill(width - |OctalDigits(n)|, 0x30) + OctalDigits(n) == Octal(n, width)
  {
    if n < 8 {
      ZeroDigits(width - 1);
      assert n / 8 == 0;
    } else if width > 1 {
      DigitsFit(n / 8, width - 1);
      assert Octal(n, width) == Octal(n / 8, width - 1) + [0x30 + n % 8];
    }
  }

  lemma {:induction false} ZeroDigits(width: nat)
    ensures Octal(0, width) == Fill(width, 0x30)
  {
    if width > 0 {
      ZeroDigits(width - 1);
    }
  }

  /** `put_octal` on the field [lo, hi) of a header. */
  method PutOctal(header: array<Byte>, lo: nat, hi: nat, value: nat) returns (ok: bool)
    requires lo + 1 < hi <= header.Length
    modifies header
    ensures ok <==> value < Pow8(hi - lo - 1)
    ensures ok ==> header[..] == old(header[..lo]) + (Octal(value, hi - lo - 1) + [0]) + old(header[hi..])
    ensures !ok ==> header[..] == old(header[..])
  {
    var digits := OctalDigits(value);
    DigitsFit(value, hi - lo - 1);
    hide Octal, OctalDigits, Pow8;
    if |digits| + 1 > hi - lo {
      return false;
    }
    FillField(header, lo, hi, digits);
    return true;
  }

  /** Zeros, the digits and a NUL. */
  method FillField(header: array<Byte>, lo: nat, hi: nat, digits: Text)
    requires lo + |digits| + 1 <= hi <= header.Length
    modifies header
    ensures header[..] == old(header[..lo]) + (Fill(hi - lo - 1 - |digits|, 0x30) + digits + [0]) + old(header[hi..])
  {
    var start := hi - 1 - |digits|;
    forall i | lo <= i < start {
      header[i] := 0x30;
    }
    forall i | 0 <= i < |digits| {
      header[start + i] := digits[i];
    }
    header[hi - 1] := 0;
    ghost var field := Fill(start - lo, 0x30) + digits + [0];
    assert forall i | lo <= i < hi :: header[i] == field[i - lo];
  }

  method PutNumber(header: array<Byte>, lo: nat, hi: nat, value: nat, ghost done: Text) returns (ok: bool)
    requires header.Length == BLOCK && Filled(header, done) && |done| == lo && lo + 1 < hi <= BLOCK
    modifies header
    ensures ok <==> value < Pow8(hi - lo - 1)
    ensures ok ==> Filled(header, done + (Octal(value, hi - lo - 1) + [0]))
  {
    hide Octal, Pow8, Fill;
    Extends(done, BLOCK - lo, Octal(value, hi - lo - 1) + [0]);
    ghost var before := header[..];
    assert header[..lo] == before[..lo] && header[hi..] == before[hi..];
    ok := PutOctal(header, lo, hi, value);
  }

  /** The fields up to the checksum. */
  method PutFront(header: array<Byte>, path: Text, mode: nat, size: nat) returns (ok: bool)
    requires header.Length == BLOCK && Filled(header, []) && |path| <= NAME_ROOM
    modifies header
    ensures ok <==> mode < Pow8(7) && size < Pow8(11)
    ensures ok ==> Filled(header, Front(path, mode, size))
  {
    hide Octal, Pow8, Fill, Filled;
    SmallModes();
    Parts(path, mode, size);
    PutNext(header, 0, path, []);
    ghost var done := [] + path + Fill(NAME_ROOM - |path|, 0);
    SkipZeros(header, [] + path, NAME_ROOM - |path|);
    ok := PutNumber(header, 100, 108, mode, done);
    if !ok {
      return;
    }
    done := done + (Octal(mode, 7) + [0]);
    ok := PutNumber(header, 108, 116, 0, done);
    done := done + (Octal(0, 7) + [0]);
    ok := PutNumber(header, 116, 124, 0, done);
    done := done + (Octal(0, 7) + [0]);
    ok := PutNumber(header, 124, 136, size, done);
    if !ok {
      return;
    }
    done := done + (Octal(size, 11) + [0]);
    ok := PutNumber(header, 136, 148, 0, done);
  }

  lemma Parts(path: Text, mode: nat, size: nat)
    requires |path| <= NAME_ROOM
    ensures Front(path, mode, size) == [] + path + Fill(NAME_ROOM - |path|, 0) + (Octal(mode, 7) + [0])
      + (Octal(0, 7) + [0]) + (Octal(0, 7) + [0]) + (Octal(size, 11) + [0]) + (Octal(0, 11) + [0])
    ensures 0 < Pow8(7) && 0 < Pow8(11)
  {
    hide Octal;
    assert [] + path == path;
  }

  /** `canonical_gnu_header`. */
  method CanonicalHeader(path: Text, mode: nat, size: nat, kind: Byte) returns (block: Option<Text>)
    ensures block.Some? <==> 0 < |path| <= NAME_ROOM && mode < Pow8(7) && size < Pow8(11)
    ensures block.Some? ==> block.value == Header(path, mode, size, kind)
  {
    if path == [] || |path| > NAME_ROOM {
      return None;
    }
    var header := new Byte[BLOCK](_ => 0);
    assert header[..] == [] + Fill(BLOCK, 0);
    var ok := PutFront(header, path, mode, size);
    if !ok {
      return None;
    }
    FinishHeader(header, path, mode, size, kind);
    return Some(header[..]);
  }

  /** The rest of a header, and the checksum over all of it. */
  method FinishHeader(header: array<Byte>, path: Text, mode: nat, size: nat, kind: Byte)
    requires header.Length == BLOCK && |path| <= NAME_ROOM && Filled(header, Front(path, mode, size))
    modifies header
    ensures header[..] == Header(path, mode, size, kind)
  {
    hide Octal, Pow8, Fill, Filled, Front, Sum, OctalDigits;
    ghost var front := Front(path, mode, size);
    PutNext(header, 148, Fill(8, 0x20), front);
    PutNext(header, 156, [kind], front + Fill(8, 0x20));
    SkipZeros(header, front + Fill(8, 0x20) + [kind], 100);
    PutNext(header, 257, MAGIC, front + Fill(8, 0x20) + [kind] + Fill(100, 0));
    Unsummed(header, front, kind);
    var checksum := Sum(header[..]);
    ChecksumFits(front, Back(kind));
    var digits := OctalDigits(checksum);
    DigitsFit(checksum, 6);
    var field := Fill(6 - |digits|, 0x30) + digits + [0, 0x20];
    assert header[..148] == front && header[156..] == Back(kind);
    Put(header, 148, field);
    assert field == Octal(checksum, 6) + [0, 0x20];
  }

  lemma Unsummed(header: array<Byte>, front: Text, kind: Byte)
    requires header.Length == BLOCK && |front| == 148
    requires Filled(header, front + Fill(8, 0x20) + [kind] + Fill(100, 0) + MAGIC)
    ensures header[..] == front + Fill(8, 0x20) + Back(kind)
    ensures header[..148] == front && header[156..] == Back(kind)
  {
  }

  // ------------------------------------------------------------------------------------------
  // Sinks
  // ------------------------------------------------------------------------------------------

  /** Where an archive is written: a growing buffer, or a comparison with bytes that were observed. */
  class Sink {
    const observed: Option<Text>
    var buffer: Text
    var offset: nat
    /** Everything accepted so far. */
    ghost var written: Text

    ghost predicate Valid()
      reads this
    {
      offset == |written| && if observed.None? then buffer == written else written <= observed.value
    }

    constructor (observed: Option<Text>)
      ensures Valid() && written == [] && this.observed == observed
    {
      this.observed := observed;
      buffer, offset, written := [], 0, [];
    }

    /** A buffer takes anything; the comparison takes only what was observed at this offset. */
    method WriteAll(s: Text) returns (ok: bool)
      requires Valid()
      modifies this
      ensures Valid() && (ok <==> observed.None? || old(written) + s <= observed.value)
      ensures written == if ok then old(written) + s else old(written)
    {
      if observed.None? {
        buffer := buffer + s;
      } else if offset + |s| > |observed.value| || observed.value[offset..offset + |s|] != s {
        return false;
      }
      offset := offset + |s|;
      written := written + s;
      return true;
    }

    /** `write_zeros`, at most a record at a time. */
    method WriteZeros(count: nat) returns (ok: bool)
      requires Valid()
      modifies this
      ensures Valid() && (ok <==> observed.None? || old(written) + Fill(count, 0) <= observed.value)
      ensures ok ==> written == old(written) + Fill(count, 0)
    {
      var left: nat := count;
      ok := true;
      while left != 0 && ok
        invariant Valid() && left <= count
        invariant ok ==> written == old(written) + Fill(count - left, 0)
        invariant !ok ==> observed.Some? && !(old(written) + Fill(count, 0) <= observed.value)
        decreases left + if ok then 1 else 0
      {
        var chunk := if left < RECORD then left else RECORD;
        MoreZeros(old(written), count, left, chunk);
        ok := WriteAll(Fill(chunk, 0));
        if ok {
          left := left - chunk;
        } else {
          Longer(old(written) + Fill(count - left + chunk, 0), old(written) + Fill(count, 0), observed.value);
        }
      }
    }

    /** The next piece of `all`; once one is refused, `all` is. */
    method WriteNext(piece: Text, ghost start: Text, ghost done: Text, ghost all: Text) returns (ok: bool)
      requires Valid() && written == start + done && done + piece <= all
      modifies this
      ensures Valid() && (ok ==> written == start + (done + piece))
      ensures !ok ==> observed.Some? && !(start + all <= observed.value)
    {
      Refused(start, done, piece, all);
      ok := WriteAll(piece);
    }

    /** The next zeros of `all`. */
    method WriteNextZeros(count: nat, ghost start: Text, ghost done: Text, ghost all: Text) returns (ok: bool)
      requires Valid() && written == start + done && done + Fill(count, 0) <= all
      modifies this
      ensures Valid() && (ok ==> written == start + (done + Fill(count, 0)))
      ensures !ok ==> observed.Some? && !(start + all <= observed.value)
    {
      Refused(start, done, Fill(count, 0), all);
      ok := WriteZeros(count);
    }
  }

  lemma Refused(start: Text, done: Text, piece: Text, all: Text)
    requires done + piece <= all
    ensures start + done + piece == start + (done + piece)
    ensures start + done + piece <= start + all
  {
  }

  lemma MoreZeros(before: Text, count: nat, left: nat, chunk: nat)
    requires chunk <= left <= count
    ensures before + Fill(count - left, 0) + Fill(chunk, 0) == before + Fill(count - left + chunk, 0)
    ensures before + Fill(count - left + chunk, 0) <= before + Fill(count, 0)
  {
  }

  lemma Longer(a: Text, b: Text, c: Text)
    requires a <= b && !(a <= c)
    ensures !(b <= c)
  {
  }

  // ------------------------------------------------------------------------------------------
  // Archives
  // ------------------------------------------------------------------------------------------

  /** The LongLink record of a long name. */
  method WriteLongName(sink: Sink, name: Text, ghost start: Text, ghost all: Text) returns (ok: bool, written: nat)
    requires sink.Valid() && sink.written == start + [] && LongName(name) <= all
    modifies sink
    ensures sink.Valid() && (ok ==> sink.written == start + LongName(name) && written == |LongName(name)|)
    ensures ok ==> (|name| > NAME_ROOM ==> |name| + 1 < Pow8(11))
    ensures !ok ==> !(|name| > NAME_ROOM ==> |name| + 1 < Pow8(11))
                    || (sink.observed.Some? && !(start + all <= sink.observed.value))
  {
    hide Header, Pow8, Padded, Fill, LongName;
    written := 0;
    ok := true;
    LongNameParts(name, all);
    if |name| <= NAME_ROOM {
      return;
    }
    SmallModes();
    var longSize := |name| + 1;
    var header := CanonicalHeader(LONG_LINK, FILE_MODE, longSize, TYPE_LONG);
    if header.None? {
      return false, 0;
    }
    ok := sink.WriteNext(header.value, start, [], all);
    if !ok {
      return;
    }
    ok := sink.WriteNext(name, start, [] + header.value, all);
    if !ok {
      return;
    }
    ok := sink.WriteNext([0], start, [] + header.value + name, all);
    if !ok {
      return;
    }
    var padding := (BLOCK - longSize % BLOCK) % BLOCK;
    ok := sink.WriteNextZeros(padding, start, [] + header.value + name + [0], all);
    written := BLOCK + longSize + padding;
  }

  lemma LongNameParts(name: Text, all: Text)
    requires LongName(name) <= all
    ensures |name| <= NAME_ROOM ==> LongName(name) == []
    ensures |name| > NAME_ROOM ==>
      var h := Header(LONG_LINK, FILE_MODE, |name| + 1, TYPE_LONG);
      var padding := (BLOCK - (|name| + 1) % BLOCK) % BLOCK;
      && LongName(name) == [] + h + name + [0] + Fill(padding, 0)
      && [] + h <= all && [] + h + name <= all && [] + h + name + [0] <= all
      && [] + h + name + [0] + Fill(padding, 0) <= all
      && |LongName(name)| == BLOCK + (|name| + 1) + padding && |LONG_LINK| <= NAME_ROOM && LONG_LINK != []
  {
    hide Header;
    if |name| > NAME_ROOM {
      var h := Header(LONG_LINK, FILE_MODE, |name| + 1, TYPE_LONG);
      var padding := (BLOCK - (|name| + 1) % BLOCK) % BLOCK;
      assert Padded(name + [0]) == name + [0] + Fill(padding, 0);
      assert LongName(name) == [] + h + name + [0] + Fill(padding, 0);
    }
  }

  /** One entry, and how many bytes it took. */
  method WriteEntry(sink: Sink, e: Entry) returns (ok: bool, written: nat)
    requires sink.Valid()
    modifies sink
    ensures sink.Valid() && (ok ==> sink.written == old(sink.written) + EntryBytes(e) && written == |EntryBytes(e)|)
    ensures ok ==> Representable(e)
    ensures !ok ==> !Representable(e)
                    || (sink.observed.Some? && !(old(sink.written) + EntryBytes(e) <= sink.observed.value))
  {
    hide Header, Pow8, Padded, Fill, LongName, EntryBytes;
    written := 0;
    if e.kind.Other? || e.mode != (if e.kind.Regular? then FILE_MODE else DIRECTORY_MODE) {
      return false, 0;
    }
    ghost var start := sink.written;
    var name := if e.kind.Directory? then e.path + [SLASH] else e.path;
    var size := if e.kind.Regular? then |e.kind.content| else 0;
    SmallModes();
    EntryPieces(e);
    assert start + [] == start;
    ok, written := WriteLongName(sink, name, start, EntryBytes(e));
    if !ok {
      return;
    }
    var short := if |name| > NAME_ROOM then name[..NAME_ROOM] else name;
    var header := CanonicalHeader(short, e.mode, size, if e.kind.Regular? then TYPE_FILE else TYPE_DIRECTORY);
    if header.None? {
      return false, written;
    }
    ok := sink.WriteNext(header.value, start, LongName(name), EntryBytes(e));
    if !ok {
      return;
    }
    written := written + BLOCK;
    if e.kind.Regular? {
      ok := sink.WriteNext(e.kind.content, start, LongName(name) + header.value, EntryBytes(e));
      if !ok {
        return;
      }
      var padding := (BLOCK - size % BLOCK) % BLOCK;
      ok := sink.WriteNextZeros(padding, start, LongName(name) + header.value + e.kind.content, EntryBytes(e));
      written := written + size + padding;
    }
  }

  lemma EntryPieces(e: Entry)
    ensures var name := RawName(e); var short := ShortName(name); var all := EntryBytes(e);
      var size := if e.kind.Regular? then |e.kind.content| else 0;
      var header := Header(short, if e.kind.Regular? then FILE_MODE else DIRECTORY_MODE, size,
                           if e.kind.Regular? then TYPE_FILE else TYPE_DIRECTORY);
      var padding := (BLOCK - size % BLOCK) % BLOCK;
      && LongName(name) <= all && LongName(name) + header <= all && |header| == BLOCK
      && (e.kind.Regular? ==> LongName(name) + header + e.kind.content <= all
                              && LongName(name) + header + e.kind.content + Fill(padding, 0) == all)
      && (!e.kind.Regular? ==> LongName(name) + header == all)
  {
    hide Header, LongName;
  }

  lemma {:induction false} BodyAppend(entries: seq<Entry>, i: nat)
    requires i < |entries|
    ensures Body(entries[..i + 1]) == Body(entries[..i]) + EntryBytes(entries[i])
    decreases i
  {
    hide EntryBytes;
    if i == 0 {
      assert entries[..1][1..] == [] && entries[..0] == [];
    } else {
      assert entries[..i + 1][1..] == entries[1..][..i] && entries[..i][1..] == entries[1..][..i - 1];
      BodyAppend(entries[1..], i - 1);
    }
  }

  lemma {:induction false} BodyPrefix(entries: seq<Entry>, i: nat)
    requires i <= |entries|
    ensures Body(entries[..i]) <= Body(entries)
    decreases |entries| - i
  {
    hide EntryBytes, Body;
    if i == |entries| {
      assert entries[..i] == entries;
    } else {
      BodyAppend(entries, i);
      BodyPrefix(entries, i + 1);
    }
  }

  /** `write_canonical_archive` to a fresh sink: accepted exactly when every entry can be represented and the sink
      takes the whole archive. */
  method WriteArchive(sink: Sink, entries: seq<Entry>) returns (ok: bool)
    requires sink.Valid() && sink.written == []
    modifies sink
    ensures sink.Valid() && (ok ==> sink.written == Archive(entries))
    ensures ok <==> (forall e | e in entries :: Representable(e))
                    && (sink.observed.None? || Archive(entries) <= sink.observed.value)
  {
    hide Representable, EntryBytes, Body, Fill;
    var written := 0;
    EmptyBody(entries);
    for i := 0 to |entries|
      invariant sink.Valid() && sink.written == Body(entries[..i]) && written == |sink.written|
      invariant forall j | 0 <= j < i :: Representable(entries[j])
    {
      ghost var before := sink.written;
      BodyAppend(entries, i);
      BodyPrefix(entries, i + 1);
      BodyFirst(entries);
      var more;
      ok, more := WriteEntry(sink, entries[i]);
      if !ok {
        assert entries[i] in entries;
        return;
      }
      written := written + more;
    }
    assert entries[..|entries|] == entries;
    FinalLengthIsLeast(written);
    var records := (written + 2 * BLOCK + RECORD - 1) / RECORD;
    ghost var body := sink.written;
    ok := sink.WriteZeros(records * RECORD - written);
  }

  lemma EmptyBody(entries: seq<Entry>)
    ensures Body(entries[..0]) == []
  {
  }

  lemma BodyFirst(entries: seq<Entry>)
    ensures Body(entries) <= Archive(entries)
  {
    hide Body;
    FinalLengthIsLeast(|Body(entries)|);
  }

  /** `validate_canonical_archive`: a byte string is accepted exactly when it is the archive of these entries. */
  method Validate(bytes: Text, entries: seq<Entry>) returns (ok: bool)
    ensures ok <==> (forall e | e in entries :: Representable(e)) && bytes == Archive(entries)
  {
    hide Representable, Archive;
    var comparator := new Sink(Some(bytes));
    ok := WriteArchive(comparator, entries);
    ok := ok && comparator.offset == |bytes|;
  }

  /** The same writer over a buffer. */
  method Canonical(entries: seq<Entry>) returns (bytes: Option<Text>)
    ensures bytes.Some? <==> forall e | e in entries :: Representable(e)
    ensures bytes.Some? ==> bytes.value == Archive(entries)
  {
    hide Representable, Archive;
    var sink := new Sink(None);
    var ok := WriteArchive(sink, entries);
    return if ok then Some(sink.buffer) else None;
  }
}
