/** Where a vmlinux embeds an initramfs: found by content, once, and inside a loaded segment. */
module ElfScan {
  import opened Bytes
  import opened Newc
  import opened Options

  const IO_CHUNK: nat := 65536
  const ELF_TABLE_LIMIT: nat := 256 * 1024 * 1024
  const ELF_SCAN_ANCHOR: nat := 4 * 1024
  const ELF_SCAN_CHUNK: nat := 4 * 1024 * 1024
  const CPIO_TRAILER_WINDOW: nat := 4 * 1024

  // ------------------------------------------------------------------------------------------
  // ELF
  // ------------------------------------------------------------------------------------------

  const HEADER_SIZE: nat := 64
  const SEGMENT_SIZE: nat := 56
  const PN_XNUM: nat := 0xFFFF
  const PT_LOAD: nat := 1

  datatype Segment = Segment(kind: nat, offset: nat, fileSize: nat)

  function Field(s: Text, at: nat, width: nat): nat
    requires at + width <= |s|
  {
    FromLittleEndian(s[at..at + width])
  }

  predicate InFile(offset: nat, length: nat, size: nat) { offset <= size && length <= size - offset }

  /** ELF64, little-endian, x86-64, executable or shared, with the usual table sizes. */
  predicate HeaderOk(file: Text) {
    && |file| >= HEADER_SIZE
    && file[..7] == [0x7F, 0x45, 0x4C, 0x46, 2, 1, 1]
    && Field(file, 18, 2) == 62 && Field(file, 20, 4) == 1 && Field(file, 16, 2) in {2, 3}
    && Field(file, 52, 2) == HEADER_SIZE && Field(file, 54, 2) == SEGMENT_SIZE
    && Field(file, 56, 2) != PN_XNUM && Field(file, 56, 2) != 0
    && InFile(Field(file, 32, 8), Field(file, 56, 2) * SEGMENT_SIZE, |file|)
  }

  function Segments(file: Text): (s: seq<Segment>)
    requires HeaderOk(file)
  {
    var count, at := Field(file, 56, 2), Field(file, 32, 8);
    seq(count, i requires 0 <= i < count => SegmentAt(file, at + i * SEGMENT_SIZE))
  }

  function SegmentAt(file: Text, at: nat): Segment
    requires at + SEGMENT_SIZE <= |file|
  {
    Segment(Field(file, at, 4), Field(file, at + 8, 8), Field(file, at + 32, 8))
  }

  predicate Inside(s: Segment, offset: nat, length: nat) {
    s.kind == PT_LOAD && s.offset <= offset && offset + length <= s.offset + s.fileSize
  }

  // ------------------------------------------------------------------------------------------
  // Occurrences
  // ------------------------------------------------------------------------------------------

  predicate OnlyAt(file: Text, blob: Text, at: nat) {
    OccursAt(file, blob, at) && forall c | 0 <= c <= |file| - |blob| && OccursAt(file, blob, c) :: c == at
  }

  /** TRAILER!!! stands in the last 4 KiB of the blob. */
  predicate EndsInTrailer(blob: Text) {
    exists i | 0 <= i <= |blob| :: i + CPIO_TRAILER_WINDOW >= |blob| && OccursAt(blob, TRAILER, i)
  }

  /** What it takes to accept the blob at `at`. */
  predicate Accepted(file: Text, blob: Text, at: nat) {
    && HeaderOk(file) && 0 < |blob| <= MEMBER_LIMIT && EndsInTrailer(blob)
    && OnlyAt(file, blob, at) && exists s | s in Segments(file) :: Inside(s, at, |blob|)
  }

  /** What is known after every start before `next` was examined. */
  predicate Scanned(file: Text, blob: Text, next: nat, found: Option<nat>) {
    if found.None? then forall c | 0 <= c < next :: !OccursAt(file, blob, c)
    else found.value < next && OccursAt(file, blob, found.value)
         && forall c | 0 <= c < next && OccursAt(file, blob, c) :: c == found.value
  }

  // ------------------------------------------------------------------------------------------
  // The scan
  // ------------------------------------------------------------------------------------------

  /** `fd_bytes_equal`, a chunk at a time. */
  method BytesEqual(left: Text, right: Text, leftAt: nat, rightAt: nat, length: nat) returns (equal: bool)
    requires leftAt + length <= |left| && rightAt + length <= |right|
    ensures equal <==> left[leftAt..leftAt + length] == right[rightAt..rightAt + length]
  {
    var done := 0;
    while done < length
      invariant done <= length && left[leftAt..leftAt + done] == right[rightAt..rightAt + done]
    {
      var take := if length - done > IO_CHUNK then IO_CHUNK else length - done;
      SliceOfSlice(left, leftAt, length, done, done + take);
      SliceOfSlice(right, rightAt, length, done, done + take);
      if left[leftAt + done..leftAt + done + take] != right[rightAt + done..rightAt + done + take] {
        return false;
      }
      done := done + take;
    }
    return true;
  }

  /** The search for the marker in the tail of the blob. */
  method HasTrailer(blob: Text) returns (yes: bool)
    ensures yes <==> EndsInTrailer(blob)
  {
    var tailLength := if |blob| < CPIO_TRAILER_WINDOW then |blob| else CPIO_TRAILER_WINDOW;
    var start := |blob| - tailLength;
    var tail := blob[start..];
    var i := 0;
    while i + |TRAILER| <= tailLength
      invariant i <= tailLength
      invariant forall k | start <= k < start + i :: !OccursAt(blob, TRAILER, k)
    {
      assert tail[i..i + |TRAILER|] == blob[start + i..start + i + |TRAILER|];
      if tail[i..i + |TRAILER|] == TRAILER {
        assert OccursAt(blob, TRAILER, start + i);
        return true;
      }
      i := i + 1;
    }
    return false;
  }

  /** `memchr`. */
  method FindByte(buffer: Text, from: nat, to: nat, b: Byte) returns (hit: Option<nat>)
    requires from <= to <= |buffer|
    ensures hit.Some? ==> from <= hit.value < to && buffer[hit.value] == b
    ensures forall k | from <= k < (if hit.Some? then hit.value else to) :: buffer[k] != b
  {
    var k := from;
    while k < to
      invariant from <= k <= to && forall j | from <= j < k :: buffer[j] != b
    {
      if buffer[k] == b {
        return Some(k);
      }
      k := k + 1;
    }
    return None;
  }

  /** An occurrence starts with the anchor. */
  lemma OccurrenceHasAnchor(file: Text, blob: Text, at: nat, n: nat)
    requires 0 < n <= |blob| && at + n <= |file|
    ensures OccursAt(file, blob, at) ==> file[at..at + n] == blob[..n] && file[at] == blob[0]
  {
    if OccursAt(file, blob, at) {
      assert file[at..at + n] == file[at..at + |blob|][..n];
      assert file[at] == file[at..at + |blob|][0];
    }
  }

  /** One candidate start. */
  method Examine(file: Text, blob: Text, candidate: nat, window: Text, anchor: Text, before: Option<nat>)
    returns (found: Option<nat>, twice: bool)
    requires 0 < |anchor| <= |blob| <= |file| && anchor == blob[..|anchor|] && candidate + |anchor| <= |file|
    requires window == file[candidate..candidate + |anchor|] && Scanned(file, blob, candidate, before)
    ensures twice ==> Twice(file, blob)
    ensures !twice ==> Scanned(file, blob, candidate + 1, found)
  {
    found, twice := before, false;
    OccurrenceHasAnchor(file, blob, candidate, |anchor|);
    if window == anchor && candidate <= |file| - |blob| {
      var same := BytesEqual(file, blob, candidate, 0, |blob|);
      assert blob[0..|blob|] == blob;
      if same {
        if found.Some? && candidate != found.value {
          assert OccursAt(file, blob, candidate);
          return found, true;
        }
        found := Some(candidate);
      }
    }
  }

  predicate Twice(file: Text, blob: Text) {
    exists a, b | 0 <= a < b <= |file| :: OccursAt(file, blob, a) && OccursAt(file, blob, b)
  }

  /** One window: the starts [pos, pos + scan), each examined once. `twice` reports a second occurrence. */
  method ScanWindow(file: Text, blob: Text, pos: nat, want: nat, anchorLength: nat, before: Option<nat>)
    returns (found: Option<nat>, twice: bool)
    requires 0 < anchorLength <= want && anchorLength <= |blob| <= |file| && pos + want <= |file|
    requires Scanned(file, blob, pos, before)
    ensures twice ==> Twice(file, blob)
    ensures !twice ==> Scanned(file, blob, pos + want - anchorLength + 1, found)
  {
    hide Scanned, OccursAt, Twice;
    var anchor := blob[..anchorLength];
    var buffer := file[pos..pos + want];
    var scan := want - anchorLength + 1;
    found, twice := before, false;
    var i := 0;
    while i < scan
      invariant i <= scan && Scanned(file, blob, pos + i, found) && !twice
    {
      var hit := FindByte(buffer, i, scan, anchor[0]);
      var at := if hit.Some? then hit.value else scan;
      NothingBetween(file, blob, pos, want, anchorLength, i, at, found);
      if hit.None? {
        i := scan;
        break;
      }
      SliceOfSlice(file, pos, want, at, at + anchorLength);
      found, twice := Examine(file, blob, pos + at, buffer[at..at + anchorLength], anchor, found);
      if twice {
        return;
      }
      i := at + 1;
    }
  }

  /** A start whose byte is not the first of the blob is no occurrence. */
  lemma NothingBetween(file: Text, blob: Text, pos: nat, want: nat, n: nat, i: nat, at: nat, found: Option<nat>)
    requires 0 < n <= want && n <= |blob| <= |file| && pos + want <= |file| && i <= at <= want - n + 1
    requires Scanned(file, blob, pos + i, found)
    requires var buffer := file[pos..pos + want]; forall k | i <= k < at :: buffer[k] != blob[0]
    ensures Scanned(file, blob, pos + at, found)
  {
    forall c | pos + i <= c < pos + at ensures !OccursAt(file, blob, c) {
      assert file[pos..pos + want][c - pos] == file[c];
      OccurrenceHasAnchor(file, blob, c, n);
    }
  }

  /** The windows overlap by one byte less than the anchor, so that no start is skipped or seen twice: the scan finds
      exactly what a naive search for the blob finds. */
  method Scan(file: Text, blob: Text) returns (found: Option<nat>)
    requires 0 < |blob| <= |file|
    ensures found.Some? <==> exists at :: OnlyAt(file, blob, at)
    ensures found.Some? ==> OnlyAt(file, blob, found.value)
  {
    var anchorLength := if |blob| < ELF_SCAN_ANCHOR then |blob| else ELF_SCAN_ANCHOR;
    var last := |file| - |blob|;
    var pos := 0;
    found := None;
    while pos <= last
      invariant Scanned(file, blob, pos, found)
      decreases |file| - pos
    {
      var want := if |file| - pos > ELF_SCAN_CHUNK then ELF_SCAN_CHUNK else |file| - pos;
      if want < anchorLength {
        break;
      }
      var twice;
      found, twice := ScanWindow(file, blob, pos, want, anchorLength, found);
      if twice {
        return None;
      }
      pos := pos + want - (anchorLength - 1);
      if want < ELF_SCAN_CHUNK {
        break;
      }
    }
    if found.Some? {
      assert OnlyAt(file, blob, found.value);
    }
  }

  /** A table of 16-bit length never reaches the limit. */
  lemma TableFits(file: Text)
    requires |file| >= HEADER_SIZE
    ensures Field(file, 56, 2) * SEGMENT_SIZE <= ELF_TABLE_LIMIT
  {
    assert Pow256(2) == 65536;
  }

  /** `locate_elf_initramfs`: succeeds exactly when the blob is accepted somewhere, and then says where. */
  method Locate(file: Text, blob: Text) returns (at: Option<nat>)
    ensures at.Some? ==> Accepted(file, blob, at.value)
    ensures at.None? ==> forall c: nat :: !Accepted(file, blob, c)
  {
    if !HeaderOk(file) {
      return None;
    }
    TableFits(file);
    if Field(file, 56, 2) * SEGMENT_SIZE > ELF_TABLE_LIMIT {
      return None;
    }
    if |blob| == 0 || |blob| > MEMBER_LIMIT || |blob| > |file| {
      return None;
    }
    var complete := HasTrailer(blob);
    if !complete {
      return None;
    }
    var found := Scan(file, blob);
    if found.None? {
      return None;
    }
    forall c: nat | OnlyAt(file, blob, c) ensures c == found.value {
      assert OccursAt(file, blob, c);
    }
    hide HeaderOk, Segments, EndsInTrailer, Inside, OnlyAt;
    var mapped := IsMapped(Segments(file), found.value, |blob|);
    at := if mapped then found else None;
  }

  method IsMapped(segments: seq<Segment>, offset: nat, length: nat) returns (mapped: bool)
    ensures mapped <==> exists s | s in segments :: Inside(s, offset, length)
  {
    for i := 0 to |segments|
      invariant forall s | s in segments[..i] :: !Inside(s, offset, length)
    {
      var s := segments[i];
      if s.kind == PT_LOAD && offset >= s.offset {
        var delta := offset - s.offset;
        if delta <= s.fileSize && length <= s.fileSize - delta {
          assert s in segments && Inside(s, offset, length);
          return true;
        }
      }
      assert segments[..i + 1] == segments[..i] + [s];
    }
    assert segments[..|segments|] == segments;
    return false;
  }
}
