/** The GUID partition table of section 5.3 of UEFI 2.10, as the installer lays it out. */
module Gpt {
  import opened Bytes
  import opened EfiOption
  import opened Options

  const ENTRY_COUNT: nat := 128
  const ENTRY_SIZE: nat := 128
  const MIB: nat := 1024 * 1024
  const TWO64: nat := 0x1_0000_0000_0000_0000
  const TWO32: nat := 0x1_0000_0000

  const TYPE_ESP: Octets :=
    [0x28, 0x73, 0x2A, 0xC1, 0x1F, 0xF8, 0xD2, 0x11, 0xBA, 0x4B, 0x00, 0xA0, 0xC9, 0x3E, 0xC9, 0x3B]
  const TYPE_LINUX: Octets :=
    [0xAF, 0x3D, 0xC6, 0x0F, 0x83, 0x84, 0x72, 0x47, 0x8E, 0x79, 0x3D, 0x69, 0xD8, 0x47, 0x7D, 0xE4]
  const TYPE_SWAP: Octets :=
    [0x6D, 0xFD, 0x57, 0x06, 0xAB, 0xA4, 0xC4, 0x43, 0x84, 0xE5, 0x09, 0x33, 0xC8, 0x4B, 0x4F, 0x4F]

  /** "EFI PART" */
  const SIGNATURE: Octets := [0x45, 0x46, 0x49, 0x20, 0x50, 0x41, 0x52, 0x54]

  /** First and last sector of a partition. */
  datatype Range = Range(first: nat, last: nat)

  function Length(r: Range): int { r.last - r.first + 1 }

  predicate Disjoint(a: Range, b: Range) { a.last < b.first || b.last < a.first }

  // ------------------------------------------------------------------------------------------
  // The layout
  // ------------------------------------------------------------------------------------------

  predicate SectorOk(sector: nat) { sector in {512, 1024, 2048, 4096} }

  datatype Layout = Layout(esp: Range, root: Range, swap: Option<Range>)

  /** The sectors that one copy of the entries takes. */
  function TableSectors(sector: nat): nat
    requires SectorOk(sector)
  {
    (ENTRY_COUNT * ENTRY_SIZE + sector - 1) / sector
  }

  function FirstUsable(sector: nat): nat
    requires SectorOk(sector)
  {
    MIB / sector
  }

  /** Where the partitions go, or nothing when the disk is too small. */
  function Plan(totalBytes: nat, espMib: nat, swapMib: nat, sector: nat): Option<Layout>
    requires SectorOk(sector)
  {
    var total := totalBytes / sector;
    var espSectors := espMib * MIB / sector;
    if espMib < 16 || total < TableSectors(sector) + 2 then None
    else
      var lastUsable := total - (TableSectors(sector) + 2);
      var esp := Range(FirstUsable(sector), FirstUsable(sector) + espSectors - 1);
      var rootFirst := esp.last + 1;
      var floor := 64 * MIB / sector;
      if rootFirst + floor > lastUsable then None
      else
        var swapSectors := swapMib * MIB / sector;
        if swapSectors > 0 && rootFirst + floor + swapSectors <= lastUsable then
          var swapFirst := lastUsable - swapSectors + 1;
          Some(Layout(esp, Range(rootFirst, swapFirst - 1), Some(Range(swapFirst, lastUsable))))
        else Some(Layout(esp, Range(rootFirst, lastUsable), None))
  }

  /** The two header sectors and the two tables. */
  function Reserved(total: nat, sector: nat): seq<Range>
    requires SectorOk(sector) && total > TableSectors(sector) + 1
  {
    var t := TableSectors(sector);
    [Range(0, 1), Range(2, 2 + t - 1), Range(total - 1 - t, total - 2), Range(total - 1, total - 1)]
  }

  function Ranges(l: Layout): seq<Range> { [l.esp, l.root] + if l.swap.None? then [] else [l.swap.value] }

  /** A successful layout: ESP, root and swap follow each other without a gap, all within the disk, none over a header
      or a table, the root with at least 64 MiB and the others as large as asked. */
  lemma PlanIsSound(totalBytes: nat, espMib: nat, swapMib: nat, sector: nat)
    requires SectorOk(sector) && Plan(totalBytes, espMib, swapMib, sector).Some?
    ensures var l, total := Plan(totalBytes, espMib, swapMib, sector).value, totalBytes / sector;
      && l.root.first == l.esp.last + 1 && (l.swap.Some? ==> l.swap.value.first == l.root.last + 1)
      && Length(l.esp) * sector == espMib * MIB && Length(l.root) * sector >= 64 * MIB
      && (l.swap.Some? ==> Length(l.swap.value) * sector == swapMib * MIB)
      && total > TableSectors(sector) + 1
      && (if l.swap.Some? then l.swap.value.last else l.root.last) + TableSectors(sector) + 2 == total
      && l.esp.first * sector == MIB
  {
    WholeSectors(espMib, sector);
    WholeSectors(swapMib, sector);
    WholeSectors(64, sector);
    WholeSectors(1, sector);
  }

  /** Whether the disk holds, in whole sectors, the alignment, the root's floor, `mib` MiB more and after them a usable
      sector, the backup table and its header. */
  predicate Roomy(totalBytes: nat, mib: nat, sector: nat)
    requires SectorOk(sector)
  {
    (1 + 64 + mib) * MIB + 128 * 128 + 2 * sector <= totalBytes / sector * sector
  }

  /** A layout exists exactly when the ESP is large enough and fits beside the root's floor, and it has a swap exactly
      when one is asked for and fits as well. */
  lemma PlanExists(totalBytes: nat, espMib: nat, swapMib: nat, sector: nat)
    requires SectorOk(sector)
    ensures var l := Plan(totalBytes, espMib, swapMib, sector);
      && (l.Some? <==> espMib >= 16 && Roomy(totalBytes, espMib, sector))
      && (l.Some? ==> (l.value.swap.Some? <==> swapMib > 0 && Roomy(totalBytes, espMib + swapMib, sector)))
  {
    PlanInSectors(totalBytes, espMib, swapMib, sector);
    RoomyInSectors(totalBytes, espMib, sector);
    RoomyInSectors(totalBytes, espMib + swapMib, sector);
    MibsAdd(espMib, swapMib, sector);
    hide Plan, Roomy, TableSectors, FirstUsable;
  }

  lemma PlanInSectors(totalBytes: nat, espMib: nat, swapMib: nat, sector: nat)
    requires SectorOk(sector)
    ensures var l := Plan(totalBytes, espMib, swapMib, sector);
      var esp, swap := espMib * MIB / sector, swapMib * MIB / sector;
      var least := FirstUsable(sector) + 64 * MIB / sector + TableSectors(sector) + 2;
      && (l.Some? <==> espMib >= 16 && esp + least <= totalBytes / sector)
      && (l.Some? ==> (l.value.swap.Some? <==> swap > 0 && esp + swap + least <= totalBytes / sector))
  {
    hide TableSectors, FirstUsable;
  }

  lemma RoomyInSectors(totalBytes: nat, mib: nat, sector: nat)
    requires SectorOk(sector)
    ensures Roomy(totalBytes, mib, sector)
       <==> mib * MIB / sector + FirstUsable(sector) + 64 * MIB / sector + TableSectors(sector) + 2
            <= totalBytes / sector
  {
    Tables(sector);
    WholeSectors(1, sector);
    WholeSectors(64, sector);
    WholeSectors(mib, sector);
    hide TableSectors;
    var size, total := mib * MIB / sector, totalBytes / sector;
    InSectors(size, FirstUsable(sector), 64 * MIB / sector, TableSectors(sector), total, sector);
  }

  lemma MibsAdd(a: nat, b: nat, sector: nat)
    requires SectorOk(sector)
    ensures (a + b) * MIB / sector == a * MIB / sector + b * MIB / sector
    ensures b * MIB / sector > 0 <==> b > 0
  {
    WholeSectors(a, sector);
    WholeSectors(b, sector);
    WholeSectors(a + b, sector);
    SumOfSectors(a * MIB / sector, b * MIB / sector, (a + b) * MIB / sector, sector);
    SomeSectors(b * MIB / sector, b, sector);
  }

  lemma SumOfSectors(a: nat, b: nat, c: nat, sector: nat)
    requires sector > 0 && a * sector + b * sector == c * sector
    ensures a + b == c
  {
    assert (a + b) * sector == c * sector;
    InOrder(a + b, c, sector);
    InOrder(c, a + b, sector);
  }

  lemma SomeSectors(sectors: nat, mib: nat, sector: nat)
    requires SectorOk(sector) && sectors * sector == mib * MIB
    ensures sectors > 0 <==> mib > 0
  {
  }

  /** The same comparison in sectors and in bytes. */
  lemma InSectors(a: nat, b: nat, c: nat, t: nat, total: nat, sector: nat)
    requires SectorOk(sector)
    ensures a + b + c + t + 2 <= total
       <==> a * sector + b * sector + c * sector + t * sector + 2 * sector <= total * sector
  {
    assert (a + b + c + t + 2) * sector == a * sector + b * sector + c * sector + t * sector + 2 * sector;
    InOrder(a + b + c + t + 2, total, sector);
  }

  lemma InOrder(m: nat, n: nat, sector: nat)
    requires sector > 0
    ensures m <= n <==> m * sector <= n * sector
  {
    if m > n {
      assert m * sector == n * sector + (m - n) * sector;
    } else {
      assert n * sector == m * sector + (n - m) * sector;
    }
  }

  /** Every partition has sectors, between the primary and the backup copies. */
  lemma PlanBounds(totalBytes: nat, espMib: nat, swapMib: nat, sector: nat)
    requires SectorOk(sector) && Plan(totalBytes, espMib, swapMib, sector).Some?
    ensures var l, total := Plan(totalBytes, espMib, swapMib, sector).value, totalBytes / sector;
      && total > TableSectors(sector) + 1
      && 2 + TableSectors(sector) <= l.esp.first <= l.esp.last < l.root.first <= l.root.last
      && (if l.swap.Some? then l.root.last < l.swap.value.first <= l.swap.value.last else true)
      && (if l.swap.Some? then l.swap.value.last else l.root.last) + TableSectors(sector) + 2 == total
  {
    PlanIsSound(totalBytes, espMib, swapMib, sector);
    Tables(sector);
    var l := Plan(totalBytes, espMib, swapMib, sector).value;
    PositiveLength(Length(l.esp), sector);
    PositiveLength(Length(l.root), sector);
    assert espMib >= 16;
    if l.swap.Some? {
      SomeSwap(totalBytes, espMib, swapMib, sector);
    }
  }

  lemma SomeSwap(totalBytes: nat, espMib: nat, swapMib: nat, sector: nat)
    requires SectorOk(sector) && Plan(totalBytes, espMib, swapMib, sector).Some?
    ensures var l := Plan(totalBytes, espMib, swapMib, sector).value; l.swap.Some? ==> Length(l.swap.value) > 0
  {
  }

  lemma PositiveLength(n: int, sector: nat)
    requires SectorOk(sector) && n * sector > 0
    ensures n > 0
  {
  }

  /** The partitions are disjoint from each other and from both copies of header and table. */
  lemma PartitionsApart(totalBytes: nat, espMib: nat, swapMib: nat, sector: nat)
    requires SectorOk(sector) && Plan(totalBytes, espMib, swapMib, sector).Some?
    ensures var l, total := Plan(totalBytes, espMib, swapMib, sector).value, totalBytes / sector;
      && total > TableSectors(sector) + 1
      && (forall r | r in Ranges(l) :: r.first <= r.last < total)
      && (forall r, x | r in Ranges(l) && x in Reserved(total, sector) :: Disjoint(r, x))
      && Disjoint(l.esp, l.root) && (l.swap.Some? ==> Disjoint(l.esp, l.swap.value) && Disjoint(l.root, l.swap.value))
  {
    PlanBounds(totalBytes, espMib, swapMib, sector);
    Tables(sector);
    hide Plan, TableSectors, FirstUsable;
  }

  /** A whole number of MiB is a whole number of sectors. */
  lemma WholeSectors(mib: nat, sector: nat)
    requires SectorOk(sector)
    ensures mib * MIB / sector * sector == mib * MIB
  {
    if sector == 512 {
      Sectors512(mib);
    } else if sector == 1024 {
      Sectors1024(mib);
    } else if sector == 2048 {
      Sectors2048(mib);
    } else {
      Sectors4096(mib);
    }
  }

  lemma Sectors512(mib: nat)
    ensures mib * MIB / 512 == 2048 * mib
  {
  }

  lemma Sectors1024(mib: nat)
    ensures mib * MIB / 1024 == 1024 * mib
  {
  }

  lemma Sectors2048(mib: nat)
    ensures mib * MIB / 2048 == 512 * mib
  {
  }

  lemma Sectors4096(mib: nat)
    ensures mib * MIB / 4096 == 256 * mib
  {
  }

  /** The primary table ends before the first usable sector. */
  lemma Tables(sector: nat)
    requires SectorOk(sector)
    ensures TableSectors(sector) * sector == ENTRY_COUNT * ENTRY_SIZE && 2 + TableSectors(sector) <= FirstUsable(sector)
    ensures TableSectors(sector) >= 4
  {
  }

  // ------------------------------------------------------------------------------------------
  // The bytes
  // ------------------------------------------------------------------------------------------

  const NAME_UNITS: nat := 36

  function NameUnits(name: string): seq<Unit> {
    var units := Encode(name);
    if |units| <= NAME_UNITS then units else units[..NAME_UNITS]
  }

  function EntryBytes(kind: Octets, guid: Octets, r: Range, name: string): (b: Octets)
    requires |kind| == 16 && |guid| == 16
    ensures |b| == ENTRY_SIZE
  {
    var units := AllBytes(NameUnits(name));
    kind + guid + LittleEndian(r.first, 8) + LittleEndian(r.last, 8) + Fill(8, 0) + units + Fill(72 - |units|, 0)
  }

  datatype Names = Names(esp: string, root: string, swap: string)

  /** The random bytes drawn for the three partitions and the disk, and the names of the partitions. */
  datatype Guids = Guids(esp: Octets, root: Octets, swap: Octets, disk: Octets, names: Names)

  predicate GuidsOk(g: Guids) { |g.esp| == 16 && |g.root| == 16 && |g.swap| == 16 && |g.disk| == 16 }

  /** `random_guid` on 16 random bytes. */
  function Version4(raw: Octets): (g: Octets)
    requires |raw| == 16
    ensures |g| == 16 && g[7] != 0
  {
    raw[7 := raw[7] % 16 + 0x40][8 := raw[8] % 64 + 0x80]
  }

  function Entries(l: Layout, g: Guids): Octets
    requires GuidsOk(g)
  {
    EntryBytes(TYPE_ESP, Version4(g.esp), l.esp, g.names.esp)
    + EntryBytes(TYPE_LINUX, Version4(g.root), l.root, g.names.root)
    + if l.swap.None? then [] else EntryBytes(TYPE_SWAP, Version4(g.swap), l.swap.value, g.names.swap)
  }

  function Table(l: Layout, g: Guids): (t: Octets)
    requires GuidsOk(g)
    ensures |t| == ENTRY_COUNT * ENTRY_SIZE
  {
    Entries(l, g) + Fill(ENTRY_COUNT * ENTRY_SIZE - |Entries(l, g)|, 0)
  }

  function HeaderFront(): Octets { SIGNATURE + LittleEndian(0x10000, 4) + LittleEndian(92, 4) }

  datatype Place = Place(current: nat, backup: nat, firstUsable: nat, lastUsable: nat, entries: nat)

  function HeaderBody(p: Place, disk: Octets, tableCrc: nat): Octets {
    LittleEndian(0, 4) + LittleEndian(p.current, 8) + LittleEndian(p.backup, 8) + LittleEndian(p.firstUsable, 8)
    + LittleEndian(p.lastUsable, 8) + disk + LittleEndian(p.entries, 8) + LittleEndian(ENTRY_COUNT, 4)
    + LittleEndian(ENTRY_SIZE, 4) + LittleEndian(tableCrc, 4)
  }

  /** A header block; its CRC32 is taken with the CRC field zero. */
  function HeaderBytes(sector: nat, p: Place, disk: Octets, tableCrc: nat, crc: Octets -> nat): Octets
    requires SectorOk(sector)
  {
    var front, body := HeaderFront(), HeaderBody(p, disk, tableCrc);
    front + LittleEndian(crc(front + Fill(4, 0) + body), 4) + body + Fill(sector - 92, 0)
  }

  // ------------------------------------------------------------------------------------------
  // Reading an ESP
  // ------------------------------------------------------------------------------------------

  function Number(s: Octets, at: nat, width: nat): nat
    requires at + width <= |s|
  {
    FromLittleEndian(s[at..at + width])
  }

  /** `le_esp` */
  function ReadEsp(disk: Octets, n: nat, sector: nat): Option<Partition>
    requires SectorOk(sector)
  {
    if n == 0 || |disk| < 2 * sector then None
    else
      var header := disk[sector..2 * sector];
      if header[..8] != SIGNATURE then None
      else
        var at, count, size := Number(header, 72, 8), Number(header, 80, 4), Number(header, 84, 4);
        if n > count || size < 128 || Offset(at, sector, n - 1, size) >= TWO64 then None
        else
          var offset := Offset(at, sector, n - 1, size);
          if offset + size > |disk| then None else ReadEntry(disk[offset..offset + size], n)
  }

  /** Where entry `i` of a table is; the sum must fit into 64 bits. */
  function Offset(lba: nat, sector: nat, i: nat, size: nat): nat { lba * sector + i * size }

  function ReadEntry(entry: Octets, n: nat): Option<Partition>
    requires |entry| >= 128
  {
    var first, last, guid := Number(entry, 32, 8), Number(entry, 40, 8), entry[16..32];
    if entry[..16] != TYPE_ESP || first == 0 || last < first || guid == Fill(16, 0) then None
    else Some(Partition(n, first, last - first + 1, guid))
  }

  /** Partition `n` as a device path needs it. */
  function AsPartition(n: nat, r: Range, guid: Octets): Partition {
    Partition(n, r.first, if r.last < r.first then 0 else r.last - r.first + 1, guid)
  }

  // ------------------------------------------------------------------------------------------
  // What is written reads back
  // ------------------------------------------------------------------------------------------

  lemma Part(a: Octets, b: Octets, c: Octets)
    ensures (a + b + c)[|a|..|a| + |b|] == b
  {
  }

  /** The fields of an entry where table 23 of the standard has them. */
  ghost predicate EntrySays(e: Octets, kind: Octets, guid: Octets, r: Range, name: string)
    requires |e| == ENTRY_SIZE
  {
    var text := AllBytes(NameUnits(name));
    && e[..16] == kind && e[16..32] == guid && Number(e, 32, 8) == r.first && Number(e, 40, 8) == r.last
    && e[48..56] == [0, 0, 0, 0, 0, 0, 0, 0] && |text| <= 72 && e[56..56 + |text|] == text
    && forall i | 56 + |text| <= i < ENTRY_SIZE :: e[i] == 0
  }

  lemma EntryFields(kind: Octets, guid: Octets, r: Range, name: string)
    requires |kind| == 16 && |guid| == 16 && r.first < TWO64 && r.last < TWO64
    ensures EntrySays(EntryBytes(kind, guid, r, name), kind, guid, r, name)
  {
    hide LittleEndian, FromLittleEndian, Encode, AllBytes;
    EightBytes(r.first);
    EightBytes(r.last);
    var units := AllBytes(NameUnits(name));
    var first, last, z := LittleEndian(r.first, 8), LittleEndian(r.last, 8), Fill(72 - |units|, 0);
    var e := EntryBytes(kind, guid, r, name);
    FiveParts(kind, guid, first, last, Fill(8, 0), units, z);
    assert e == kind + guid + first + last + Fill(8, 0) + units + z;
  }

  lemma FiveParts(a: Octets, b: Octets, c: Octets, d: Octets, e: Octets, f: Octets, z: Octets)
    ensures var s := a + b + c + d + e + f + z; var k := |a| + |b| + |c|;
      && s[..|a|] == a && s[|a|..|a| + |b|] == b && s[|a| + |b|..k] == c && s[k..k + |d|] == d
      && s[k + |d|..k + |d| + |e|] == e && s[k + |d| + |e|..k + |d| + |e| + |f|] == f
      && s[k + |d| + |e| + |f|..] == z
  {
    Regrouped(a, b, c, d, e, f, z);
    FirstParts(a, b, c, d + e + f + z);
    ThreeParts(a + b + c, d, e, f, z);
  }

  lemma Regrouped(a: Octets, b: Octets, c: Octets, d: Octets, e: Octets, f: Octets, z: Octets)
    ensures a + b + c + d + e + f + z == a + b + c + (d + e + f + z)
  {
  }

  lemma FirstParts(a: Octets, b: Octets, c: Octets, z: Octets)
    ensures var s := a + b + c + z; var k := |a| + |b|; s[..|a|] == a && s[|a|..k] == b && s[k..k + |c|] == c
  {
    assert a + b + c + z == a + b + (c + z);
    Part(a, b, c + z);
    Part(a + b, c, z);
  }

  lemma ThreeParts(a: Octets, b: Octets, c: Octets, d: Octets, z: Octets)
    ensures var s := a + b + c + d + z; var k := |a| + |b|;
      s[|a|..k] == b && s[k..k + |c|] == c && s[k + |c|..k + |c| + |d|] == d && s[k + |c| + |d|..] == z
  {
    var s := a + b + c + d + z;
    assert s == a + b + (c + d + z);
    Part(a, b, c + d + z);
    assert s == a + b + c + (d + z);
    Part(a + b, c, d + z);
    Part(a + b + c, d, z);
  }

  lemma EntryReads(kind: Octets, guid: Octets, r: Range, name: string, n: nat)
    requires |kind| == 16 && |guid| == 16 && 0 < r.first <= r.last < TWO64 && guid != Fill(16, 0)
    ensures ReadEntry(EntryBytes(kind, guid, r, name), n)
         == if kind == TYPE_ESP then Some(AsPartition(n, r, guid)) else None
  {
    EntryFields(kind, guid, r, name);
    hide EntryBytes, Number, AllBytes, NameUnits;
  }

  lemma EightBytes(n: nat)
    requires n < TWO64
    ensures FromLittleEndian(LittleEndian(n, 8)) == n
  {
    assert Pow256(8) == TWO64;
    LittleEndianInverts(n, 8);
  }

  /** The body before the place of the table. */
  function BodyFront(p: Place, disk: Octets): Octets {
    LittleEndian(0, 4) + LittleEndian(p.current, 8) + LittleEndian(p.backup, 8) + LittleEndian(p.firstUsable, 8)
    + LittleEndian(p.lastUsable, 8) + disk
  }

  lemma HeaderSplits(front: Octets, sum: Octets, b: Octets, at: Octets, count: Octets, size: Octets, c: Octets,
                     z: Octets)
    ensures var h := front + sum + (b + at + count + size + c) + z; var k := |front| + |sum| + |b|;
      && h[..|front|] == front && h[k..k + |at|] == at && h[k + |at|..k + |at| + |count|] == count
      && h[k + |at| + |count|..k + |at| + |count| + |size|] == size
  {
    var h := front + sum + (b + at + count + size + c) + z;
    var a := front + sum + b;
    assert h == a + at + (count + size + c + z);
    Part(a, at, count + size + c + z);
    assert h == a + at + count + (size + c + z);
    Part(a + at, count, size + c + z);
    assert h == a + at + count + size + (c + z);
    Part(a + at + count, size, c + z);
  }

  lemma HeaderReads(sector: nat, p: Place, disk: Octets, tableCrc: nat, crc: Octets -> nat)
    requires SectorOk(sector) && |disk| == 16 && p.entries < TWO64
    ensures var h := HeaderBytes(sector, p, disk, tableCrc, crc);
      && |h| == sector && h[..8] == SIGNATURE && Number(h, 72, 8) == p.entries
      && Number(h, 80, 4) == ENTRY_COUNT && Number(h, 84, 4) == ENTRY_SIZE
  {
    hide LittleEndian, FromLittleEndian, Fill;
    EightBytes(p.entries);
    SmallNumbers();
    var front, body := HeaderFront(), HeaderBody(p, disk, tableCrc);
    var sum := LittleEndian(crc(front + Fill(4, 0) + body), 4);
    HeaderSplits(front, sum, BodyFront(p, disk), LittleEndian(p.entries, 8), LittleEndian(ENTRY_COUNT, 4),
                 LittleEndian(ENTRY_SIZE, 4), LittleEndian(tableCrc, 4), Fill(sector - 92, 0));
    assert front[..8] == SIGNATURE;
    assert HeaderBytes(sector, p, disk, tableCrc, crc)[..16] == front;
  }

  /** The fields of a header where table 21 of the standard has them. */
  ghost predicate HeaderSays(h: Octets, p: Place, disk: Octets, tableCrc: nat, crc: Octets -> nat)
    requires |h| >= 512
  {
    && h[..8] == SIGNATURE && Number(h, 8, 4) == 0x10000 && Number(h, 12, 4) == 92
    && h[16..20] == LittleEndian(crc(h[..16] + [0, 0, 0, 0] + h[20..92]), 4) && h[20..24] == [0, 0, 0, 0]
    && Number(h, 24, 8) == p.current && Number(h, 32, 8) == p.backup
    && Number(h, 40, 8) == p.firstUsable && Number(h, 48, 8) == p.lastUsable && h[56..72] == disk
    && Number(h, 72, 8) == p.entries && Number(h, 80, 4) == 128 && Number(h, 84, 4) == 128
    && h[88..92] == LittleEndian(tableCrc, 4)
  }

  predicate PlaceFits(p: Place) {
    && p.current < TWO64 && p.backup < TWO64 && p.firstUsable < TWO64 && p.lastUsable < TWO64 && p.entries < TWO64
  }

  lemma HeaderFields(sector: nat, p: Place, disk: Octets, tableCrc: nat, crc: Octets -> nat)
    requires SectorOk(sector) && |disk| == 16 && PlaceFits(p)
    ensures var h := HeaderBytes(sector, p, disk, tableCrc, crc); |h| == sector && HeaderSays(h, p, disk, tableCrc, crc)
  {
    HeaderReads(sector, p, disk, tableCrc, crc);
    FrontFields();
    BodyFields(p, disk, tableCrc);
    hide LittleEndian, FromLittleEndian;
    var front, body, z := HeaderFront(), HeaderBody(p, disk, tableCrc), Fill(sector - 92, 0);
    var sum := LittleEndian(crc(front + Fill(4, 0) + body), 4);
    var h := HeaderBytes(sector, p, disk, tableCrc, crc);
    hide HeaderFront, HeaderBody;
    HeaderThirds(h, front, sum, body, z);
    BodyShifts(h, body);
    FrontShifts(h, front);
  }

  lemma HeaderThirds(h: Octets, front: Octets, sum: Octets, body: Octets, z: Octets)
    requires h == front + sum + body + z && |front| == 16 && |sum| == 4 && |body| == 72
    ensures h[..16] == front && h[16..20] == sum && h[20..92] == body
    ensures Fill(4, 0) == [0, 0, 0, 0]
  {
  }

  lemma FrontShifts(h: Octets, front: Octets)
    requires |h| >= 92 && |front| == 16 && h[..16] == front
    ensures h[8..12] == front[8..12] && h[12..16] == front[12..16]
  {
  }

  lemma BodyShifts(h: Octets, body: Octets)
    requires |h| >= 92 && |body| == 72 && h[20..92] == body
    ensures h[20..24] == body[..4] && h[24..32] == body[4..12] && h[32..40] == body[12..20] && h[40..48] == body[20..28]
    ensures h[48..56] == body[28..36] && h[56..72] == body[36..52] && h[88..92] == body[68..72]
  {
    SliceOfSlice(h, 20, 72, 0, 4);
    SliceOfSlice(h, 20, 72, 4, 12);
    SliceOfSlice(h, 20, 72, 12, 20);
    SliceOfSlice(h, 20, 72, 20, 28);
    SliceOfSlice(h, 20, 72, 28, 36);
    SliceOfSlice(h, 20, 72, 36, 52);
    SliceOfSlice(h, 20, 72, 68, 72);
  }

  lemma FrontFields()
    ensures var f := HeaderFront(); FromLittleEndian(f[8..12]) == 0x10000 && FromLittleEndian(f[12..16]) == 92
  {
    hide LittleEndian, FromLittleEndian;
    var f := HeaderFront();
    assert f[8..12] == LittleEndian(0x10000, 4);
    FourBytes(f[8..12], 0x10000);
    assert f[12..16] == LittleEndian(92, 4);
    FourBytes(f[12..16], 92);
  }

  lemma FourBytes(s: Octets, n: nat)
    requires n < TWO32 && s == LittleEndian(n, 4)
    ensures FromLittleEndian(s) == n
  {
    assert Pow256(4) == TWO32;
    LittleEndianInverts(n, 4);
  }

  lemma BodyFields(p: Place, disk: Octets, tableCrc: nat)
    requires |disk| == 16 && PlaceFits(p)
    ensures var b := HeaderBody(p, disk, tableCrc);
      && |b| == 72 && b[..4] == [0, 0, 0, 0] && Number(b, 4, 8) == p.current && Number(b, 12, 8) == p.backup
      && Number(b, 20, 8) == p.firstUsable && Number(b, 28, 8) == p.lastUsable && b[36..52] == disk
      && b[68..72] == LittleEndian(tableCrc, 4)
  {
    EightBytes(p.current);
    EightBytes(p.backup);
    EightBytes(p.firstUsable);
    EightBytes(p.lastUsable);
    FourZeros();
    BodySlices(p, disk, tableCrc);
    hide LittleEndian, FromLittleEndian, PlaceFits, HeaderBody;
  }

  lemma BodySlices(p: Place, disk: Octets, tableCrc: nat)
    requires |disk| == 16
    ensures var b := HeaderBody(p, disk, tableCrc);
      && |b| == 72 && b[..4] == LittleEndian(0, 4) && b[4..12] == LittleEndian(p.current, 8)
      && b[12..20] == LittleEndian(p.backup, 8) && b[20..28] == LittleEndian(p.firstUsable, 8)
      && b[28..36] == LittleEndian(p.lastUsable, 8) && b[36..52] == disk && b[68..72] == LittleEndian(tableCrc, 4)
  {
    hide LittleEndian;
    var current, backup := LittleEndian(p.current, 8), LittleEndian(p.backup, 8);
    var first, last := LittleEndian(p.firstUsable, 8), LittleEndian(p.lastUsable, 8);
    var rest := LittleEndian(p.entries, 8) + LittleEndian(ENTRY_COUNT, 4) + LittleEndian(ENTRY_SIZE, 4);
    var z := rest + LittleEndian(tableCrc, 4);
    FiveParts(LittleEndian(0, 4), current, backup, first, last, disk, z);
    var b := HeaderBody(p, disk, tableCrc);
    assert b == LittleEndian(0, 4) + current + backup + first + last + disk + z;
    assert b == (LittleEndian(0, 4) + current + backup + first + last + disk) + rest + LittleEndian(tableCrc, 4);
    hide HeaderBody;
    LastPart(LittleEndian(0, 4) + current + backup + first + last + disk + rest, LittleEndian(tableCrc, 4));
  }

  lemma LastPart(a: Octets, z: Octets)
    ensures (a + z)[|a|..|a + z|] == z
  {
  }

  lemma FourZeros()
    ensures LittleEndian(0, 4) == [0, 0, 0, 0]
  {
    assert LittleEndian(0, 4) == [0] + LittleEndian(0, 3);
    assert LittleEndian(0, 3) == [0] + LittleEndian(0, 2);
    assert LittleEndian(0, 2) == [0] + LittleEndian(0, 1);
    assert LittleEndian(0, 1) == [0] + LittleEndian(0, 0);
  }

  lemma SmallNumbers()
    ensures FromLittleEndian(LittleEndian(ENTRY_COUNT, 4)) == ENTRY_COUNT
    ensures FromLittleEndian(LittleEndian(ENTRY_SIZE, 4)) == ENTRY_SIZE
  {
    assert Pow256(4) == TWO32;
    LittleEndianInverts(ENTRY_COUNT, 4);
    LittleEndianInverts(ENTRY_SIZE, 4);
  }

  function EntryOf(l: Layout, g: Guids, n: nat): Octets
    requires GuidsOk(g)
  {
    if n == 1 then EntryBytes(TYPE_ESP, Version4(g.esp), l.esp, g.names.esp)
    else if n == 2 then EntryBytes(TYPE_LINUX, Version4(g.root), l.root, g.names.root)
    else if n == 3 && l.swap.Some? then EntryBytes(TYPE_SWAP, Version4(g.swap), l.swap.value, g.names.swap)
    else Fill(ENTRY_SIZE, 0)
  }

  lemma TableSlices(l: Layout, g: Guids, n: nat)
    requires GuidsOk(g) && 1 <= n <= ENTRY_COUNT
    ensures Table(l, g)[(n - 1) * ENTRY_SIZE..n * ENTRY_SIZE] == EntryOf(l, g, n)
  {
    hide EntryBytes, Version4;
    var e, r, s := EntryOf(l, g, 1), EntryOf(l, g, 2), EntryOf(l, g, 3);
    ThreeEntries(l, g);
    var t := Table(l, g);
    if n == 1 {
      assert t == [] + e + (r + s + Fill(125 * ENTRY_SIZE, 0));
    } else if n == 2 {
      assert t == e + r + (s + Fill(125 * ENTRY_SIZE, 0));
    } else if n == 3 {
      assert t == (e + r) + s + Fill(125 * ENTRY_SIZE, 0);
    } else {
      var a, z := (n - 1) * ENTRY_SIZE, n * ENTRY_SIZE;
      assert forall k | a <= k < z :: t[k] == 0;
      assert t[a..z] == Fill(ENTRY_SIZE, 0);
    }
  }

  lemma ThreeEntries(l: Layout, g: Guids)
    requires GuidsOk(g)
    ensures Table(l, g) == EntryOf(l, g, 1) + EntryOf(l, g, 2) + EntryOf(l, g, 3) + Fill(125 * ENTRY_SIZE, 0)
  {
    hide EntryBytes, Version4;
    if l.swap.None? {
      assert Fill(126 * ENTRY_SIZE, 0) == Fill(ENTRY_SIZE, 0) + Fill(125 * ENTRY_SIZE, 0);
      assert Entries(l, g) == EntryOf(l, g, 1) + EntryOf(l, g, 2);
    }
  }

  /** Of the entries of a table only the first is an ESP. */
  lemma TableReads(l: Layout, g: Guids, n: nat)
    requires GuidsOk(g) && 1 <= n <= ENTRY_COUNT && 0 < l.esp.first <= l.esp.last < TWO64
    ensures var entry := Table(l, g)[(n - 1) * ENTRY_SIZE..n * ENTRY_SIZE];
      ReadEntry(entry, n) == if n == 1 then Some(AsPartition(1, l.esp, Version4(g.esp))) else None
  {
    hide Table;
    TableSlices(l, g, n);
    if n == 1 {
      EntryReads(TYPE_ESP, Version4(g.esp), l.esp, g.names.esp, 1);
    } else {
      OtherTypes(l, g, n);
    }
  }

  lemma OtherTypes(l: Layout, g: Guids, n: nat)
    requires GuidsOk(g) && n > 1
    ensures EntryOf(l, g, n)[..16] != TYPE_ESP
  {
    hide LittleEndian, Encode, AllBytes, Version4;
    var e := EntryOf(l, g, n);
    if n == 2 {
      assert e[0] == TYPE_LINUX[0];
    } else if n == 3 && l.swap.Some? {
      assert e[0] == TYPE_SWAP[0];
    } else {
      assert e[0] == 0;
    }
    assert e[..16][0] == e[0];
  }

  /** A disk with the primary header at LBA 1 and the table at LBA 2 shows the ESP as partition 1, exactly, and no ESP
      under any other number. */
  lemma EspReadsBack(disk: Octets, l: Layout, g: Guids, sector: nat, header: Octets, n: nat)
    requires SectorOk(sector) && GuidsOk(g) && 0 < l.esp.first <= l.esp.last < TWO64
    requires |disk| >= 2 * sector + ENTRY_COUNT * ENTRY_SIZE && |header| == sector
    requires disk[sector..2 * sector] == header && header[..8] == SIGNATURE && Number(header, 72, 8) == 2
    requires Number(header, 80, 4) == ENTRY_COUNT && Number(header, 84, 4) == ENTRY_SIZE
    requires disk[2 * sector..2 * sector + ENTRY_COUNT * ENTRY_SIZE] == Table(l, g)
    ensures ReadEsp(disk, n, sector)
         == if n == 1 then Some(AsPartition(1, l.esp, Version4(g.esp))) else None
  {
    if 1 <= n <= ENTRY_COUNT {
      EntryStands(disk, l, g, sector, n);
      hide Table, Number, ReadEntry, Version4;
      assert Offset(2, sector, n - 1, ENTRY_SIZE) == 2 * sector + (n - 1) * ENTRY_SIZE;
    }
  }

  /** What `le_esp` reads of a disk that holds the table. */
  lemma EntryStands(disk: Octets, l: Layout, g: Guids, sector: nat, n: nat)
    requires SectorOk(sector) && GuidsOk(g) && 0 < l.esp.first <= l.esp.last < TWO64 && 1 <= n <= ENTRY_COUNT
    requires |disk| >= 2 * sector + ENTRY_COUNT * ENTRY_SIZE
    requires disk[2 * sector..2 * sector + ENTRY_COUNT * ENTRY_SIZE] == Table(l, g)
    ensures var at := 2 * sector + (n - 1) * ENTRY_SIZE;
      at + ENTRY_SIZE <= |disk| && ReadEntry(disk[at..at + ENTRY_SIZE], n)
                                == if n == 1 then Some(AsPartition(1, l.esp, Version4(g.esp))) else None
  {
    TableReads(l, g, n);
    TableSlice(disk, 2 * sector, n);
    hide Table, Number, ReadEntry, Version4, AsPartition;
  }

  lemma TableSlice(disk: Octets, at: nat, n: nat)
    requires 1 <= n <= ENTRY_COUNT && at + ENTRY_COUNT * ENTRY_SIZE <= |disk|
    ensures var i := at + (n - 1) * ENTRY_SIZE;
      && i + ENTRY_SIZE <= |disk|
      && disk[at..at + ENTRY_COUNT * ENTRY_SIZE][(n - 1) * ENTRY_SIZE..n * ENTRY_SIZE] == disk[i..i + ENTRY_SIZE]
  {
    var a := (n - 1) * ENTRY_SIZE;
    SliceOfSlice(disk, at, ENTRY_COUNT * ENTRY_SIZE, a, a + ENTRY_SIZE);
  }
}
