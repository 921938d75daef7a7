/** The ELF64 header and program header as structures, and what the scan reads of them. */
module ElfBytes {
  import opened Bytes
  import opened ElfScan
  import opened Newc

  /** `Elf64_Ehdr`, but for its identification. */
  datatype Header = Header(kind: nat, machine: nat, version: nat, entry: nat, phoff: nat, shoff: nat, flags: nat,
                           ehsize: nat, phentsize: nat, phnum: nat, shentsize: nat, shnum: nat, shstrndx: nat)

  /** `Elf64_Phdr` */
  datatype Program = Program(kind: nat, flags: nat, offset: nat, vaddr: nat, paddr: nat, filesz: nat, memsz: nat,
                             alignment: nat)

  const IDENT: Text := [0x7F, 0x45, 0x4C, 0x46, 2, 1, 1, 0, 0, 0, 0, 0, 0, 0, 0, 0]

  function Half(n: nat): (s: Text)
    ensures |s| == 2
  {
    LittleEndian(n, 2)
  }

  function Word(n: nat): (s: Text)
    ensures |s| == 4
  {
    LittleEndian(n, 4)
  }

  function Xword(n: nat): (s: Text)
    ensures |s| == 8
  {
    LittleEndian(n, 8)
  }

  function FirstPart(h: Header): (s: Text)
    ensures |s| == 24
  {
    IDENT + Half(h.kind) + Half(h.machine) + Word(h.version)
  }

  function SecondPart(h: Header): (s: Text)
    ensures |s| == 28
  {
    Xword(h.entry) + Xword(h.phoff) + Xword(h.shoff) + Word(h.flags)
  }

  function ThirdPart(h: Header): (s: Text)
    ensures |s| == 12
  {
    Half(h.ehsize) + Half(h.phentsize) + Half(h.phnum) + Half(h.shentsize) + Half(h.shnum) + Half(h.shstrndx)
  }

  function HeaderBytes(h: Header): (s: Text)
    ensures |s| == 64
  {
    FirstPart(h) + SecondPart(h) + ThirdPart(h)
  }

  function ProgramBytes(p: Program): (s: Text)
    ensures |s| == 56
  {
    (Word(p.kind) + Word(p.flags) + Xword(p.offset) + Xword(p.vaddr))
    + (Xword(p.paddr) + Xword(p.filesz) + Xword(p.memsz) + Xword(p.alignment))
  }

  predicate HeaderFits(h: Header) {
    && h.kind < Pow256(2) && h.machine < Pow256(2) && h.version < Pow256(4) && h.phoff < Pow256(8)
    && h.ehsize < Pow256(2) && h.phentsize < Pow256(2) && h.phnum < Pow256(2)
  }

  predicate ProgramFits(p: Program) { p.kind < Pow256(4) && p.offset < Pow256(8) && p.filesz < Pow256(8) }

  lemma Reads(s: Text, n: nat, width: nat)
    requires n < Pow256(width) && s == LittleEndian(n, width)
    ensures FromLittleEndian(s) == n
  {
    LittleEndianInverts(n, width);
  }

  lemma Slices(file: Text, h: Header)
    requires |file| >= 64 && file[..64] == HeaderBytes(h)
    ensures file[..7] == IDENT[..7]
    ensures file[16..18] == Half(h.kind) && file[18..20] == Half(h.machine) && file[20..24] == Word(h.version)
    ensures file[32..40] == Xword(h.phoff)
    ensures file[52..54] == Half(h.ehsize) && file[54..56] == Half(h.phentsize) && file[56..58] == Half(h.phnum)
  {
    hide Half, Word, Xword;
    var a, b, c := FirstPart(h), SecondPart(h), ThirdPart(h);
    Thirds(file, a, b, c);
    hide HeaderBytes;
    assert a[..7] == IDENT[..7] && a[16..18] == Half(h.kind) && a[18..20] == Half(h.machine)
        && a[20..24] == Word(h.version);
    assert b[8..16] == Xword(h.phoff);
    assert c[..2] == Half(h.ehsize) && c[2..4] == Half(h.phentsize) && c[4..6] == Half(h.phnum);
  }

  lemma Thirds(file: Text, a: Text, b: Text, c: Text)
    requires |a| == 24 && |b| == 28 && |c| == 12 && |file| >= 64 && file[..64] == a + b + c
    ensures file[..7] == a[..7] && file[16..18] == a[16..18] && file[18..20] == a[18..20] && file[20..24] == a[20..24]
    ensures file[32..40] == b[8..16] && file[52..54] == c[..2] && file[54..56] == c[2..4] && file[56..58] == c[4..6]
  {
    assert file[0..24] == a && file[24..52] == b && file[52..64] == c;
    SliceOfSlice(file, 0, 24, 0, 7);
    SliceOfSlice(file, 0, 24, 16, 18);
    SliceOfSlice(file, 0, 24, 18, 20);
    SliceOfSlice(file, 0, 24, 20, 24);
    SliceOfSlice(file, 24, 28, 8, 16);
    SliceOfSlice(file, 52, 12, 0, 2);
    SliceOfSlice(file, 52, 12, 2, 4);
    SliceOfSlice(file, 52, 12, 4, 6);
  }

  /** A file that begins with this header passes exactly if the header is that of an x86-64 executable or shared object
      whose program headers have the usual size and lie within the file. */
  lemma HeaderIsOk(file: Text, h: Header)
    requires HeaderFits(h) && |file| >= 64 && file[..64] == HeaderBytes(h)
    ensures HeaderOk(file) <==>
            && h.machine == 62 && h.version == 1 && (h.kind == 2 || h.kind == 3) && h.ehsize == 64
            && h.phentsize == 56 && 0 < h.phnum < 0xFFFF && h.phoff + h.phnum * 56 <= |file|
    ensures HeaderOk(file) ==> |Segments(file)| == h.phnum
  {
    HeaderNumbers(file, h);
    hide FromLittleEndian, HeaderBytes, HeaderFits;
  }

  lemma HeaderNumbers(file: Text, h: Header)
    requires HeaderFits(h) && |file| >= 64 && file[..64] == HeaderBytes(h)
    ensures file[..7] == [0x7F, 0x45, 0x4C, 0x46, 2, 1, 1] && h.phnum < 0x10000
    ensures Field(file, 16, 2) == h.kind && Field(file, 18, 2) == h.machine && Field(file, 20, 4) == h.version
    ensures Field(file, 32, 8) == h.phoff
    ensures Field(file, 52, 2) == h.ehsize && Field(file, 54, 2) == h.phentsize && Field(file, 56, 2) == h.phnum
  {
    assert Pow256(2) == 0x10000;
    Slices(file, h);
    hide FromLittleEndian, LittleEndian, Pow256, HeaderBytes;
    Reads(file[16..18], h.kind, 2);
    Reads(file[18..20], h.machine, 2);
    Reads(file[20..24], h.version, 4);
    Reads(file[32..40], h.phoff, 8);
    Reads(file[52..54], h.ehsize, 2);
    Reads(file[54..56], h.phentsize, 2);
    Reads(file[56..58], h.phnum, 2);
  }

  /** Of the program header at number `i` the scan reads its type, its offset in the file and its size there. */
  lemma SegmentReads(file: Text, h: Header, i: nat, p: Program)
    requires HeaderFits(h) && |file| >= 64 && file[..64] == HeaderBytes(h) && HeaderOk(file) && ProgramFits(p)
    requires i < h.phnum && h.phoff + i * 56 + 56 <= |file|
    requires file[h.phoff + i * 56..h.phoff + i * 56 + 56] == ProgramBytes(p)
    ensures |Segments(file)| == h.phnum && Segments(file)[i] == Segment(p.kind, p.offset, p.filesz)
  {
    HeaderIsOk(file, h);
    HeaderNumbers(file, h);
    hide FromLittleEndian, HeaderBytes, HeaderFits, ProgramBytes, SegmentAt;
    ProgramReads(file, h.phoff + i * 56, p);
  }

  lemma ProgramReads(file: Text, at: nat, p: Program)
    requires ProgramFits(p) && at + 56 <= |file| && file[at..at + 56] == ProgramBytes(p)
    ensures SegmentAt(file, at) == Segment(p.kind, p.offset, p.filesz)
  {
    ProgramSlices(p);
    hide FromLittleEndian, LittleEndian, Pow256, ProgramBytes;
    SliceOfSlice(file, at, 56, 0, 4);
    SliceOfSlice(file, at, 56, 8, 16);
    SliceOfSlice(file, at, 56, 32, 40);
    Reads(file[at..at + 4], p.kind, 4);
    Reads(file[at + 8..at + 16], p.offset, 8);
    Reads(file[at + 32..at + 40], p.filesz, 8);
  }

  lemma ProgramSlices(p: Program)
    ensures var b := ProgramBytes(p);
      b[..4] == Word(p.kind) && b[8..16] == Xword(p.offset) && b[32..40] == Xword(p.filesz)
  {
    hide Word, Xword;
    var a, c := Word(p.kind) + Word(p.flags) + Xword(p.offset) + Xword(p.vaddr),
                Xword(p.paddr) + Xword(p.filesz) + Xword(p.memsz) + Xword(p.alignment);
    assert ProgramBytes(p) == a + c;
    assert a[..4] == Word(p.kind) && a[8..16] == Xword(p.offset) && c[8..16] == Xword(p.filesz);
    hide ProgramBytes;
    assert (a + c)[32..40] == c[8..16];
  }
}
