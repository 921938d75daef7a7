/** `write_layout`: buffers filled field by field, and five ordered writes by a process that may be killed before any
    of them. */
module GptWriter {
  import opened Buffers
  import opened Bytes
  import opened Durability
  import opened EfiOption
  import opened Gpt
  import opened Options

  datatype Reason = BadSector | EspTooSmall | DiskTooSmall

  type Result = Outcome<Reason>

  // ------------------------------------------------------------------------------------------
  // Buffers
  // ------------------------------------------------------------------------------------------

  /** `header`: the fields in their places, then the CRC over the first 92 bytes. */
  method BuildHeader(sector: nat, p: Place, disk: Octets, tableCrc: nat, crc: Octets -> nat) returns (head: array<Byte>)
    requires SectorOk(sector) && |disk| == 16
    ensures fresh(head) && head[..] == HeaderBytes(sector, p, disk, tableCrc, crc)
  {
    head := new Byte[sector](_ => 0);
    assert head[..] == [] + Fill(sector, 0);
    ghost var front := HeaderFront();
    PutFields(head, p, disk, tableCrc);
    ghost var body := HeaderBody(p, disk, tableCrc);
    FirstPart(head, front + Fill(4, 0) + body, sector);
    var sum := LittleEndian(crc(head[..92]), 4);
    hide LittleEndian, HeaderFront, HeaderBody;
    ghost var before := head[..];
    SumGoes(before, front, body, sector);
    assert head[..16] == before[..16] && head[20..] == before[20..];
    Put(head, 16, sum);
  }

  lemma FirstPart(head: array<Byte>, done: Octets, sector: nat)
    requires head.Length == sector && |done| == 92 && Filled(head, done)
    ensures head[..92] == done && head[..] == done + Fill(sector - 92, 0)
  {
  }

  lemma SumGoes(before: Octets, front: Octets, body: Octets, sector: nat)
    requires |front| == 16 && |body| == 72 && sector >= 92 && before == front + Fill(4, 0) + body + Fill(sector - 92, 0)
    ensures before[..16] == front && before[20..] == body + Fill(sector - 92, 0)
  {
  }

  /** The fields of a header but for its CRC. */
  method PutFields(head: array<Byte>, p: Place, disk: Octets, tableCrc: nat)
    requires head.Length >= 92 && Filled(head, []) && |disk| == 16
    modifies head
    ensures var done := HeaderFront() + Fill(4, 0) + HeaderBody(p, disk, tableCrc); |done| == 92 && Filled(head, done)
  {
    FourZeros();
    assert Fill(4, 0) == [0, 0, 0, 0];
    hide LittleEndian, Fill, Filled;
    PutNext(head, 0, SIGNATURE, []);
    PutNext(head, 8, LittleEndian(0x10000, 4), [] + SIGNATURE);
    PutNext(head, 12, LittleEndian(92, 4), [] + SIGNATURE + LittleEndian(0x10000, 4));
    ghost var front := [] + SIGNATURE + LittleEndian(0x10000, 4) + LittleEndian(92, 4);
    SkipZeros(head, front, 4);
    SkipZeros(head, front + Fill(4, 0), 4);
    PutBody(head, p, disk, tableCrc, front + Fill(4, 0));
    assert front == HeaderFront();
  }

  method PutBody(head: array<Byte>, p: Place, disk: Octets, tableCrc: nat, ghost front: Octets)
    requires head.Length >= 92 && |front| == 20 && Filled(head, front + LittleEndian(0, 4)) && |disk| == 16
    modifies head
    ensures Filled(head, front + HeaderBody(p, disk, tableCrc)) && |HeaderBody(p, disk, tableCrc)| == 72
  {
    hide LittleEndian, Fill, Filled;
    ghost var d := front + LittleEndian(0, 4);
    PutNext(head, 24, LittleEndian(p.current, 8), d);
    d := d + LittleEndian(p.current, 8);
    PutNext(head, 32, LittleEndian(p.backup, 8), d);
    d := d + LittleEndian(p.backup, 8);
    PutNext(head, 40, LittleEndian(p.firstUsable, 8), d);
    d := d + LittleEndian(p.firstUsable, 8);
    PutNext(head, 48, LittleEndian(p.lastUsable, 8), d);
    d := d + LittleEndian(p.lastUsable, 8);
    PutNext(head, 56, disk, d);
    d := d + disk;
    PutNext(head, 72, LittleEndian(p.entries, 8), d);
    d := d + LittleEndian(p.entries, 8);
    PutNext(head, 80, LittleEndian(ENTRY_COUNT, 4), d);
    d := d + LittleEndian(ENTRY_COUNT, 4);
    PutNext(head, 84, LittleEndian(ENTRY_SIZE, 4), d);
    d := d + LittleEndian(ENTRY_SIZE, 4);
    PutNext(head, 88, LittleEndian(tableCrc, 4), d);
    d := d + LittleEndian(tableCrc, 4);
    assert d == front + HeaderBody(p, disk, tableCrc);
  }

  /** `entry` */
  method BuildEntry(kind: Octets, guid: Octets, r: Range, name: string) returns (raw: Octets)
    requires |kind| == 16 && |guid| == 16
    ensures raw == EntryBytes(kind, guid, r, name)
  {
    var buffer := new Byte[ENTRY_SIZE](_ => 0);
    assert buffer[..] == [] + Fill(ENTRY_SIZE, 0);
    hide LittleEndian, Encode, AllBytes, Fill, Filled, EntryBytes, NameUnits;
    ghost var d := [];
    PutNext(buffer, 0, kind, d);
    d := d + kind;
    PutNext(buffer, 16, guid, d);
    d := d + guid;
    PutNext(buffer, 32, LittleEndian(r.first, 8), d);
    d := d + LittleEndian(r.first, 8);
    PutNext(buffer, 40, LittleEndian(r.last, 8), d);
    d := d + LittleEndian(r.last, 8);
    SkipZeros(buffer, d, 8);
    d := d + Fill(8, 0);
    var text := AllBytes(NameUnits(name));
    NameFits(name);
    PutNext(buffer, 56, text, d);
    d := d + text;
    SkipZeros(buffer, d, 72 - |text|);
    EntryInPieces(kind, guid, r, name);
    WholeBuffer(buffer, d + Fill(72 - |text|, 0));
    raw := buffer[..];
  }

  lemma NameFits(name: string)
    ensures |AllBytes(NameUnits(name))| <= 72
  {
  }

  lemma EntryInPieces(kind: Octets, guid: Octets, r: Range, name: string)
    requires |kind| == 16 && |guid| == 16
    ensures |AllBytes(NameUnits(name))| <= 72
    ensures [] + kind + guid + LittleEndian(r.first, 8) + LittleEndian(r.last, 8) + Fill(8, 0)
            + AllBytes(NameUnits(name)) + Fill(72 - |AllBytes(NameUnits(name))|, 0) == EntryBytes(kind, guid, r, name)
  {
    NameFits(name);
    hide LittleEndian, AllBytes, Fill, NameUnits;
  }

  lemma WholeBuffer(buffer: array<Byte>, done: Octets)
    requires Filled(buffer, done) && |done| == buffer.Length
    ensures buffer[..] == done
  {
    assert done + Fill(0, 0) == done;
  }

  /** The table of entries. */
  method BuildTable(l: Layout, g: Guids) returns (entries: Octets)
    requires GuidsOk(g)
    ensures entries == Table(l, g)
  {
    hide EntryBytes, Version4, Fill, Filled;
    var table := new Byte[ENTRY_COUNT * ENTRY_SIZE](_ => 0);
    FreshBuffer(table);
    var esp := BuildEntry(TYPE_ESP, Version4(g.esp), l.esp, g.names.esp);
    PutNext(table, 0, esp, []);
    var root := BuildEntry(TYPE_LINUX, Version4(g.root), l.root, g.names.root);
    PutNext(table, 128, root, [] + esp);
    ghost var d := [] + esp + root;
    if l.swap.Some? {
      var swap := BuildEntry(TYPE_SWAP, Version4(g.swap), l.swap.value, g.names.swap);
      PutNext(table, 256, swap, d);
      d := d + swap;
    }
    assert d == Entries(l, g);
    SkipZeros(table, d, ENTRY_COUNT * ENTRY_SIZE - |d|);
    WholeBuffer(table, Table(l, g));
    entries := table[..];
  }

  lemma FreshBuffer(buffer: array<Byte>)
    requires forall i | 0 <= i < buffer.Length :: buffer[i] == 0
    ensures Filled(buffer, [])
  {
    assert buffer[..] == [] + Fill(buffer.Length, 0);
  }

  // ------------------------------------------------------------------------------------------
  // The disk
  // ------------------------------------------------------------------------------------------

  const TABLE_BYTES: nat := ENTRY_COUNT * ENTRY_SIZE

  function Splice(b: Octets, at: nat, data: Octets): Octets
    requires at + |data| <= |b|
  {
    b[..at] + data + b[at + |data|..]
  }

  /** A write shows in its own range and nowhere else. */
  lemma SpliceShows(b: Octets, at: nat, data: Octets)
    requires at + |data| <= |b|
    ensures |Splice(b, at, data)| == |b| && Splice(b, at, data)[at..at + |data|] == data
    ensures forall i, j | 0 <= i <= j <= |b| && (j <= at || at + |data| <= i) :: Splice(b, at, data)[i..j] == b[i..j]
  {
    forall i, j | 0 <= i <= j <= |b| && (j <= at || at + |data| <= i) ensures Splice(b, at, data)[i..j] == b[i..j] {
      var c := Splice(b, at, data);
      assert forall k | i <= k < j :: c[k] == b[k];
    }
  }

  /** Where the five writes go, in bytes: the primary copies, then the data, then the backup copies. */
  datatype Map = Map(sector: nat, table: nat, backupTable: nat, backupHeader: nat, end: nat)

  predicate MapOk(m: Map) {
    && 512 <= m.sector && m.table == 2 * m.sector && m.table + TABLE_BYTES <= m.backupTable
    && m.backupTable + TABLE_BYTES == m.backupHeader && m.backupHeader + m.sector == m.end
  }

  /** Sector size, sectors of the disk, and sectors of a table. */
  datatype Geometry = Geometry(sector: nat, total: nat, table: nat)

  predicate GeometryOk(geo: Geometry) {
    SectorOk(geo.sector) && geo.table == TableSectors(geo.sector) && geo.total >= 2 * geo.table + 4
  }

  /** Where sector `lba` begins. */
  function ByteOf(lba: nat, sector: nat): nat { lba * sector }

  function MapOf(geo: Geometry): Map
    requires geo.total > geo.table
  {
    var last: nat := geo.total - 1;
    Map(geo.sector, 2 * geo.sector, ByteOf(last - geo.table, geo.sector), ByteOf(last, geo.sector),
        ByteOf(geo.total, geo.sector))
  }

  lemma MapIsOk(geo: Geometry)
    requires GeometryOk(geo)
    ensures MapOk(MapOf(geo))
  {
    Tables(geo.sector);
    Products(geo.total, geo.table, geo.sector);
    hide TableSectors;
  }

  lemma Products(total: nat, t: nat, sector: nat)
    requires total >= 2 * t + 4 && SectorOk(sector)
    ensures (total - 1 - t) * sector + t * sector == (total - 1) * sector
    ensures (total - 1) * sector + sector == total * sector
    ensures 2 * sector + t * sector <= (total - 1 - t) * sector
  {
    assert (total - 1 - t) * sector == (total - 3 - 2 * t) * sector + t * sector + 2 * sector;
  }

  /** The protective MBR: one entry of type 0xEE over the whole disk. */
  function Mbr(sector: nat, total: nat): (m: Octets)
    requires SectorOk(sector)
    ensures |m| == sector
  {
    Fill(446, 0) + Protective(total) + Fill(48, 0) + [0x55, 0xAA] + Fill(sector - 512, 0)
  }

  function Protective(total: nat): (e: Octets)
    ensures |e| == 16
  {
    var left := if total == 0 then 0 else total - 1;
    var size := if left < TWO32 then left else TWO32 - 1;
    [0, 0x00, 0x02, 0x00, 0xEE, 0xFF, 0xFF, 0xFF] + LittleEndian(1, 4) + LittleEndian(size, 4)
  }

  /** The five areas of a finished layout; nothing else differs from `before`. */
  ghost predicate LaidOut(before: Octets, after: Octets, m: Map, mbr: Octets, primary: Octets, backup: Octets,
                          table: Octets)
    requires MapOk(m) && m.end <= |before| == |after|
  {
    && after[..m.sector] == mbr && after[m.sector..m.table] == primary && after[m.table..m.table + TABLE_BYTES] == table
    && after[m.backupTable..m.backupHeader] == table && after[m.backupHeader..m.end] == backup
    && after[m.table + TABLE_BYTES..m.backupTable] == before[m.table + TABLE_BYTES..m.backupTable]
    && after[m.end..] == before[m.end..]
  }

  /** The five writes of a layout: where, and what. */
  function Writes(m: Map, mbr: Octets, primary: Octets, backup: Octets, table: Octets): (w: seq<(nat, Octets)>)
    ensures |w| == 5
  {
    [(m.backupTable, table), (m.backupHeader, backup), (m.table, table), (0, mbr), (m.sector, primary)]
  }

  /** The contents after these writes, one after the other. */
  function AfterWrites(b: Octets, w: seq<(nat, Octets)>): (after: Octets)
    requires forall x | x in w :: x.0 + |x.1| <= |b|
    ensures |after| == |b|
  {
    if w == [] then b else
      var last := w[|w| - 1];
      Splice(AfterWrites(b, w[..|w| - 1]), last.0, last.1)
  }

  lemma NextWrite(b: Octets, w: seq<(nat, Octets)>, k: nat)
    requires k < |w| && forall x | x in w :: x.0 + |x.1| <= |b|
    ensures AfterWrites(b, w[..k + 1]) == Splice(AfterWrites(b, w[..k]), w[k].0, w[k].1)
  {
    assert w[..k + 1][..k] == w[..k];
  }

  lemma WritesInOrder(b: Octets, m: Map, mbr: Octets, primary: Octets, backup: Octets, table: Octets)
    requires MapOk(m) && m.end <= |b| && |mbr| == |primary| == |backup| == m.sector && |table| == TABLE_BYTES
    ensures var w := Writes(m, mbr, primary, backup, table);
      && (forall x | x in w :: x.0 + |x.1| <= |b|)
      && AfterWrites(b, w[..0]) == b
      && AfterWrites(b, w[..1]) == Splice(b, m.backupTable, table)
      && AfterWrites(b, w[..2]) == Splice(AfterWrites(b, w[..1]), m.backupHeader, backup)
      && AfterWrites(b, w[..3]) == Splice(AfterWrites(b, w[..2]), m.table, table)
      && AfterWrites(b, w[..4]) == Splice(AfterWrites(b, w[..3]), 0, mbr)
      && AfterWrites(b, w[..5]) == Splice(AfterWrites(b, w[..4]), m.sector, primary)
  {
    var w := Writes(m, mbr, primary, backup, table);
    WritesFit(b, m, mbr, primary, backup, table);
    FirstWrite(b, w);
    hide Splice, AfterWrites, Writes;
    NextWrite(b, w, 0);
    NextWrite(b, w, 1);
    NextWrite(b, w, 2);
    NextWrite(b, w, 3);
    NextWrite(b, w, 4);
  }

  lemma WritesFit(b: Octets, m: Map, mbr: Octets, primary: Octets, backup: Octets, table: Octets)
    requires MapOk(m) && m.end <= |b| && |mbr| == |primary| == |backup| == m.sector && |table| == TABLE_BYTES
    ensures var w := Writes(m, mbr, primary, backup, table);
      && (forall x | x in w :: x.0 + |x.1| <= |b|)
      && w[0] == (m.backupTable, table) && w[1] == (m.backupHeader, backup) && w[2] == (m.table, table)
      && w[3] == (0, mbr) && w[4] == (m.sector, primary)
  {
  }

  lemma FirstWrite(b: Octets, w: seq<(nat, Octets)>)
    ensures AfterWrites(b, w[..0]) == b
  {
  }

  class Disk {
    var bytes: Octets
    var life: Life

    constructor (bytes: Octets)
      ensures this.bytes == bytes && life == Forever
    {
      this.bytes := bytes;
      life := Forever;
    }

    /** A seek and a write. The kill, if it is due, comes before. */
    method WriteAt(at: nat, data: Octets) returns (o: Result)
      requires at + |data| <= |bytes|
      modifies this
      ensures !o.Died? && bytes == (if o.Done? then Splice(old(bytes), at, data) else old(bytes))
      ensures old(life) == Forever ==> life == Forever && o.Done?
      ensures if o.Done? then old(life) != Calls(0) && life == old(life).Spent() else old(life) == Calls(0)
    {
      if life == Calls(0) {
        return Killed;
      }
      life := life.Spent();
      bytes := bytes[..at] + data + bytes[at + |data|..];
      return Done;
    }

    /** The backup copies, then the primary table and the MBR, and the primary header last. A kill leaves exactly the
        writes before it, so until the last one the sector of the primary header is as it was. */
    method WriteAll(m: Map, mbr: Octets, primary: Octets, backup: Octets, table: Octets) returns (o: Result)
      requires MapOk(m) && m.end <= |bytes| && |mbr| == |primary| == |backup| == m.sector && |table| == TABLE_BYTES
      modifies this
      ensures old(life) == Forever ==> life == Forever && o.Done?
      ensures !o.Died? && |bytes| == |old(bytes)|
      ensures o.Done? ==> LaidOut(old(bytes), bytes, m, mbr, primary, backup, table)
      ensures !o.Done? ==> bytes[m.sector..m.table] == old(bytes)[m.sector..m.table]
      ensures o.Killed? ==> old(life).Calls? && old(life).left < 5
      ensures bytes
           == AfterWrites(old(bytes), Writes(m, mbr, primary, backup, table)[..if o.Done? then 5 else old(life).left])
    {
      WritesAt(bytes, m, mbr, primary, backup, table);
      WritesInOrder(bytes, m, mbr, primary, backup, table);
      assert m.backupTable + |table| <= m.end && m.backupHeader + |backup| <= m.end && m.table + |table| <= m.end;
      assert |mbr| <= m.end && m.sector + |primary| <= m.end;
      hide *;
      :- WriteAt(m.backupTable, table);
      :- WriteAt(m.backupHeader, backup);
      :- WriteAt(m.table, table);
      :- WriteAt(0, mbr);
      o := WriteAt(m.sector, primary);
    }
  }

  /** The contents after each of the five writes. */
  lemma WritesAt(b0: Octets, m: Map, mbr: Octets, primary: Octets, backup: Octets, table: Octets)
    requires MapOk(m) && m.end <= |b0| && |mbr| == |primary| == |backup| == m.sector && |table| == TABLE_BYTES
    ensures var b1 := Splice(b0, m.backupTable, table);
      && |b1| == |b0| && b1[m.sector..m.table] == b0[m.sector..m.table]
      && var b2 := Splice(b1, m.backupHeader, backup);
         && |b2| == |b0| && b2[m.sector..m.table] == b0[m.sector..m.table]
         && var b3 := Splice(b2, m.table, table);
            && |b3| == |b0| && b3[m.sector..m.table] == b0[m.sector..m.table]
            && var b4 := Splice(b3, 0, mbr);
               && |b4| == |b0| && b4[m.sector..m.table] == b0[m.sector..m.table]
               && var b5 := Splice(b4, m.sector, primary);
                  |b5| == |b0| && LaidOut(b0, b5, m, mbr, primary, backup, table)
  {
    hide Splice;
    var b1 := Splice(b0, m.backupTable, table);
    SpliceShows(b0, m.backupTable, table);
    var b2 := Splice(b1, m.backupHeader, backup);
    SpliceShows(b1, m.backupHeader, backup);
    var b3 := Splice(b2, m.table, table);
    SpliceShows(b2, m.table, table);
    var b4 := Splice(b3, 0, mbr);
    SpliceShows(b3, 0, mbr);
    var b5 := Splice(b4, m.sector, primary);
    SpliceShows(b4, m.sector, primary);
    assert b5[0..m.sector] == b4[0..m.sector] == mbr;
    assert b5[m.end..|b0|] == b0[m.end..|b0|];
  }

  /** The protective MBR, put into a buffer of zeros. */
  method BuildMbr(sector: nat, total: nat) returns (mbr: Octets)
    requires SectorOk(sector)
    ensures mbr == Mbr(sector, total)
  {
    var buffer := new Byte[sector](_ => 0);
    FreshBuffer(buffer);
    hide LittleEndian, Fill, Filled;
    SkipZeros(buffer, [], 446);
    PutProtective(buffer, total);
    ghost var d := Fill(446, 0) + Protective(total) + Fill(48, 0);
    PutNext(buffer, 510, [0x55, 0xAA], d);
    SkipZeros(buffer, d + [0x55, 0xAA], sector - 512);
    WholeBuffer(buffer, Mbr(sector, total));
    mbr := buffer[..];
  }

  /** The one entry of the MBR. */
  method PutProtective(buffer: array<Byte>, total: nat)
    requires buffer.Length >= 512 && Filled(buffer, [] + Fill(446, 0))
    modifies buffer
    ensures Filled(buffer, Fill(446, 0) + Protective(total) + Fill(48, 0))
  {
    hide LittleEndian, Fill, Filled;
    ghost var d := [] + Fill(446, 0);
    var head := [0, 0x00, 0x02, 0x00, 0xEE, 0xFF, 0xFF, 0xFF];
    PutNext(buffer, 446, head, d);
    d := d + head;
    PutNext(buffer, 454, LittleEndian(1, 4), d);
    d := d + LittleEndian(1, 4);
    var left := if total == 0 then 0 else total - 1;
    var size := if left < TWO32 then left else TWO32 - 1;
    PutNext(buffer, 458, LittleEndian(size, 4), d);
    d := d + LittleEndian(size, 4);
    SkipZeros(buffer, d, 48);
    assert d == Fill(446, 0) + Protective(total);
  }

  // ------------------------------------------------------------------------------------------
  // `write_layout`
  // ------------------------------------------------------------------------------------------

  /** Where the primary copy says that everything is, and where the backup copy does. */
  function PrimaryPlace(geo: Geometry): Place
    requires GeometryOk(geo)
  {
    Place(1, geo.total - 1, FirstUsable(geo.sector), geo.total - geo.table - 2, 2)
  }

  function BackupPlace(geo: Geometry): Place
    requires GeometryOk(geo)
  {
    Place(geo.total - 1, 1, FirstUsable(geo.sector), geo.total - geo.table - 2, geo.total - 1 - geo.table)
  }

  /** The disk after a finished layout. */
  ghost predicate Written(before: Octets, after: Octets, geo: Geometry, l: Layout, g: Guids, crc: Octets -> nat)
    requires GuidsOk(g) && GeometryOk(geo)
  {
    && |after| == |before| && MapOk(MapOf(geo)) && MapOf(geo).end <= |before|
    && LaidOut(before, after, MapOf(geo), Mbr(geo.sector, geo.total),
               HeaderBytes(geo.sector, PrimaryPlace(geo), Version4(g.disk), crc(Table(l, g)), crc),
               HeaderBytes(geo.sector, BackupPlace(geo), Version4(g.disk), crc(Table(l, g)), crc), Table(l, g))
  }

  /** The five buffers of a planned layout, written. */
  method WritePlanned(d: Disk, geo: Geometry, l: Layout, g: Guids, crc: Octets -> nat) returns (o: Result)
    requires GeometryOk(geo) && GuidsOk(g) && geo.total * geo.sector <= |d.bytes|
    modifies d
    ensures old(d.life) == Forever ==> o.Done?
    ensures !o.Died? && (o.Done? ==> Written(old(d.bytes), d.bytes, geo, l, g, crc))
    ensures o.Killed? ==> |d.bytes| == |old(d.bytes)| >= 2 * geo.sector
    ensures o.Killed? ==> d.bytes[geo.sector..2 * geo.sector] == old(d.bytes)[geo.sector..2 * geo.sector]
  {
    MapIsOk(geo);
    hide HeaderBytes, Table, Mbr, LaidOut, TableSectors, Version4;
    var entries := BuildTable(l, g);
    var tableCrc := crc(entries);
    var mbr := BuildMbr(geo.sector, geo.total);
    var disk := Version4(g.disk);
    var primary := BuildHeader(geo.sector, PrimaryPlace(geo), disk, tableCrc, crc);
    var backup := BuildHeader(geo.sector, BackupPlace(geo), disk, tableCrc, crc);
    HeaderSizes(geo, disk, tableCrc, crc);
    o := d.WriteAll(MapOf(geo), mbr, primary[..], backup[..], entries);
  }

  lemma HeaderSizes(geo: Geometry, disk: Octets, tableCrc: nat, crc: Octets -> nat)
    requires GeometryOk(geo) && |disk| == 16
    ensures |HeaderBytes(geo.sector, PrimaryPlace(geo), disk, tableCrc, crc)| == geo.sector
    ensures |HeaderBytes(geo.sector, BackupPlace(geo), disk, tableCrc, crc)| == geo.sector
  {
    hide LittleEndian, TableSectors;
  }

  /** Refuses without a change, or writes the planned layout; a kill leaves the sector of the primary header alone. The
      requests do not overflow 64 bits when turned into bytes, and a file has fewer than 2^63 of them. */
  method WriteLayout(d: Disk, espMib: nat, swapMib: nat, sector: nat, g: Guids, crc: Octets -> nat)
    returns (o: Result, layout: Option<Layout>, ghost geo: Geometry)
    requires |d.bytes| < TWO64 / 2 && espMib * MIB < TWO64 && swapMib * MIB < TWO64 && GuidsOk(g)
    modifies d
    ensures old(d.life) == Forever ==> !o.Killed?
    ensures o.Died? <==> !SectorOk(sector) || espMib < 16 || !Roomy(|old(d.bytes)|, espMib, sector)
    ensures o.Died? ==> d.bytes == old(d.bytes)
    ensures o.Done? ==> layout.Some? && layout == Plan(|old(d.bytes)|, espMib, swapMib, sector)
    ensures o.Done?
        ==> (layout.value.swap.Some? <==> swapMib > 0 && Roomy(|old(d.bytes)|, espMib + swapMib, sector))
    ensures !o.Died? ==> GeometryOk(geo) && geo == GeometryOf(|old(d.bytes)|, sector)
    ensures o.Done? ==> Written(old(d.bytes), d.bytes, geo, layout.value, g, crc)
    ensures o.Killed? ==> |d.bytes| == |old(d.bytes)| >= 2 * sector
    ensures o.Killed? ==> d.bytes[sector..2 * sector] == old(d.bytes)[sector..2 * sector]
  {
    layout, geo := None, Geometry(0, 0, 0);
    if sector !in {512, 1024, 2048, 4096} {
      return Died(BadSector), layout, geo;
    }
    hide TableSectors, FirstUsable, Written;
    var plan := Plan(|d.bytes|, espMib, swapMib, sector);
    if espMib < 16 {
      return Died(EspTooSmall), layout, geo;
    }
    PlanExists(|d.bytes|, espMib, swapMib, sector);
    hide Plan, Roomy;
    if plan.None? {
      return Died(DiskTooSmall), layout, geo;
    }
    PlanGeometry(|d.bytes|, espMib, swapMib, sector);
    var exact := GeometryOf(|d.bytes|, sector);
    geo := exact;
    hide GeometryOf, GeometryOk;
    o := WritePlanned(d, exact, plan.value, g, crc);
    layout := if o.Done? then plan else None;
  }

  function GeometryOf(bytes: nat, sector: nat): Geometry
    requires SectorOk(sector)
  {
    Geometry(sector, bytes / sector, TableSectors(sector))
  }

  lemma PlanGeometry(bytes: nat, espMib: nat, swapMib: nat, sector: nat)
    requires SectorOk(sector) && Plan(bytes, espMib, swapMib, sector).Some?
    ensures var geo := GeometryOf(bytes, sector);
      geo.sector == sector && GeometryOk(geo) && geo.total * sector <= bytes
  {
    PlanBounds(bytes, espMib, swapMib, sector);
    Tables(sector);
    hide Plan, TableSectors;
    WholeSectorsFit(bytes, sector);
  }

  lemma WholeSectorsFit(bytes: nat, sector: nat)
    requires SectorOk(sector)
    ensures bytes / sector * sector <= bytes
  {
  }

  /** After a finished layout the installer reads its ESP back exactly as partition 1, and no other number is one. */
  lemma LayoutReadsBack(before: Octets, after: Octets, geo: Geometry, l: Layout, g: Guids, crc: Octets -> nat, n: nat)
    requires GeometryOk(geo) && GuidsOk(g) && Written(before, after, geo, l, g, crc)
    requires 0 < l.esp.first <= l.esp.last < TWO64
    ensures ReadEsp(after, n, geo.sector) == if n == 1 then Some(AsPartition(1, l.esp, Version4(g.esp))) else None
  {
    hide HeaderBytes, Table, Mbr, Version4, ReadEsp, Number, TableSectors, AsPartition;
    var disk := Version4(g.disk);
    HeaderReads(geo.sector, PrimaryPlace(geo), disk, crc(Table(l, g)), crc);
    EspReadsBack(after, l, g, geo.sector, HeaderBytes(geo.sector, PrimaryPlace(geo), disk, crc(Table(l, g)), crc), n);
  }

  /** Whatever the request, a finished layout reads back. */
  lemma FinishedReadsBack(before: Octets, after: Octets, espMib: nat, swapMib: nat, sector: nat, g: Guids,
                          crc: Octets -> nat, n: nat)
    requires SectorOk(sector) && GuidsOk(g) && |before| < TWO64 && Plan(|before|, espMib, swapMib, sector).Some?
    requires GeometryOk(GeometryOf(|before|, sector))
    requires Written(before, after, GeometryOf(|before|, sector), Plan(|before|, espMib, swapMib, sector).value, g, crc)
    ensures var l := Plan(|before|, espMib, swapMib, sector).value;
      ReadEsp(after, n, sector) == if n == 1 then Some(AsPartition(1, l.esp, Version4(g.esp))) else None
  {
    PlanBounds(|before|, espMib, swapMib, sector);
    WholeSectorsFit(|before|, sector);
    var geo, l := GeometryOf(|before|, sector), Plan(|before|, espMib, swapMib, sector).value;
    EspFits(|before|, espMib, swapMib, sector);
    hide Plan, TableSectors, Written, AsPartition, ReadEsp, GeometryOk;
    LayoutReadsBack(before, after, geo, l, g, crc, n);
  }

  // ------------------------------------------------------------------------------------------
  // The finished disk, field by field
  // ------------------------------------------------------------------------------------------

  /** The protective MBR: one partition from sector 1, as long as its 32 bits can tell. */
  ghost predicate MbrSays(m: Octets, total: nat)
    requires |m| >= 512 && total > 0
  {
    && (forall i | 0 <= i < 446 || 462 <= i < 510 :: m[i] == 0)
    && m[446..454] == [0, 0, 2, 0, 0xEE, 0xFF, 0xFF, 0xFF] && Number(m, 454, 4) == 1
    && Number(m, 458, 4) == (if total <= 0x1_0000_0000 then total - 1 else 0xFFFF_FFFF)
    && m[510] == 0x55 && m[511] == 0xAA
  }

  lemma MbrFields(sector: nat, total: nat)
    requires SectorOk(sector) && total > 0
    ensures MbrSays(Mbr(sector, total), total)
  {
    hide LittleEndian, FromLittleEndian;
    var size := if total <= 0x1_0000_0000 then total - 1 else 0xFFFF_FFFF;
    var m, e := Mbr(sector, total), Protective(total);
    ProtectiveFields(total, size);
    MbrSlices(sector, total);
    hide Mbr, Protective;
    SliceOfSlice(m, 446, 16, 0, 8);
    SliceOfSlice(m, 446, 16, 8, 12);
    SliceOfSlice(m, 446, 16, 12, 16);
  }

  lemma ProtectiveFields(total: nat, size: nat)
    requires total > 0 && size == if total <= 0x1_0000_0000 then total - 1 else 0xFFFF_FFFF
    ensures var e := Protective(total);
      e[..8] == [0, 0, 2, 0, 0xEE, 0xFF, 0xFF, 0xFF] && Number(e, 8, 4) == 1 && Number(e, 12, 4) == size
  {
    hide LittleEndian, FromLittleEndian;
    var e := Protective(total);
    assert e[8..12] == LittleEndian(1, 4) && e[12..16] == LittleEndian(size, 4);
    FourBytes(e[8..12], 1);
    FourBytes(e[12..16], size);
  }

  lemma MbrSlices(sector: nat, total: nat)
    requires SectorOk(sector)
    ensures var m := Mbr(sector, total);
      && (forall i | 0 <= i < 446 || 462 <= i < 510 :: m[i] == 0)
      && m[446..462] == Protective(total) && m[510] == 0x55 && m[511] == 0xAA
  {
    hide Protective;
  }

  /** The entries of a table, and nothing but zeros behind them. */
  ghost predicate TableSays(t: Octets, l: Layout, g: Guids)
    requires |t| == ENTRY_COUNT * ENTRY_SIZE && GuidsOk(g)
  {
    && EntrySays(t[..128], TYPE_ESP, Version4(g.esp), l.esp, g.names.esp)
    && EntrySays(t[128..256], TYPE_LINUX, Version4(g.root), l.root, g.names.root)
    && (l.swap.Some? ==> EntrySays(t[256..384], TYPE_SWAP, Version4(g.swap), l.swap.value, g.names.swap))
    && forall i | (if l.swap.Some? then 384 else 256) <= i < |t| :: t[i] == 0
  }

  predicate RangesFit(l: Layout) {
    l.esp.last < TWO64 && l.root.last < TWO64 && l.esp.first < TWO64 && l.root.first < TWO64
    && (l.swap.Some? ==> l.swap.value.first < TWO64 && l.swap.value.last < TWO64)
  }

  lemma TableFields(l: Layout, g: Guids)
    requires GuidsOk(g) && RangesFit(l)
    ensures TableSays(Table(l, g), l, g)
  {
    TableSlices(l, g, 1);
    TableSlices(l, g, 2);
    TableSlices(l, g, 3);
    EntryFields(TYPE_ESP, Version4(g.esp), l.esp, g.names.esp);
    EntryFields(TYPE_LINUX, Version4(g.root), l.root, g.names.root);
    if l.swap.Some? {
      EntryFields(TYPE_SWAP, Version4(g.swap), l.swap.value, g.names.swap);
    }
    hide EntryBytes, EntrySays, Version4;
  }

  /** What a disk of so many sectors says at every place: the protective MBR, both headers with their places and sums,
      and the same table twice. */
  ghost predicate DiskSays(disk: Octets, sector: nat, total: nat, l: Layout, g: Guids, crc: Octets -> nat)
    requires SectorOk(sector) && GuidsOk(g)
  {
    var t := 16384 / sector;
    && total > 2 * t + 3
    && var copy, last, end := ByteOf(total - 1 - t, sector), ByteOf(total - 1, sector), ByteOf(total, sector);
       && 2 * sector + 16384 <= copy && copy + 16384 == last && last + sector == end <= |disk|
       && var table := disk[2 * sector..2 * sector + 16384];
          && MbrSays(disk[..sector], total)
          && HeaderSays(disk[sector..2 * sector], Place(1, total - 1, MIB / sector, total - 2 - t, 2),
                        Version4(g.disk), crc(table), crc)
          && HeaderSays(disk[last..end], Place(total - 1, 1, MIB / sector, total - 2 - t, total - 1 - t),
                        Version4(g.disk), crc(table), crc)
          && disk[copy..last] == table && TableSays(table, l, g)
  }

  /** A finished layout says exactly the planned partitions, at every place of the disk. */
  lemma FinishedLayout(before: Octets, after: Octets, espMib: nat, swapMib: nat, sector: nat, g: Guids,
                       crc: Octets -> nat)
    requires SectorOk(sector) && GuidsOk(g) && |before| < TWO64 && Plan(|before|, espMib, swapMib, sector).Some?
    requires GeometryOk(GeometryOf(|before|, sector))
    requires Written(before, after, GeometryOf(|before|, sector), Plan(|before|, espMib, swapMib, sector).value, g, crc)
    ensures DiskSays(after, sector, |before| / sector, Plan(|before|, espMib, swapMib, sector).value, g, crc)
  {
    LayoutFits(|before|, espMib, swapMib, sector);
    FewSectors(|before|, sector);
    hide Plan, DiskSays, Written, RangesFit, GeometryOk, TableSectors;
    WrittenSays(before, after, GeometryOf(|before|, sector), Plan(|before|, espMib, swapMib, sector).value, g, crc);
  }

  lemma WrittenSays(before: Octets, after: Octets, geo: Geometry, l: Layout, g: Guids, crc: Octets -> nat)
    requires GuidsOk(g) && GeometryOk(geo) && RangesFit(l) && geo.total < TWO64
    requires Written(before, after, geo, l, g, crc)
    ensures DiskSays(after, geo.sector, geo.total, l, g, crc)
  {
    MbrFields(geo.sector, geo.total);
    TableFields(l, g);
    var disk, table := Version4(g.disk), Table(l, g);
    HeaderSizes(geo, disk, crc(table), crc);
    PlacesFit(geo);
    HeaderFields(geo.sector, PrimaryPlace(geo), disk, crc(table), crc);
    HeaderFields(geo.sector, BackupPlace(geo), disk, crc(table), crc);
    MapPlaces(geo);
    var mbr := Mbr(geo.sector, geo.total);
    var primary := HeaderBytes(geo.sector, PrimaryPlace(geo), disk, crc(table), crc);
    var backup := HeaderBytes(geo.sector, BackupPlace(geo), disk, crc(table), crc);
    hide TableSectors, HeaderBytes, Table, Mbr, MbrSays, HeaderSays, TableSays, Version4, RangesFit, PlaceFits, ByteOf;
    hide LaidOut, MapOf, MapOk, PrimaryPlace, BackupPlace, DiskSays;
    LaidOutSays(before, after, geo, l, g, crc, mbr, primary, backup, table);
  }

  lemma LaidOutSays(before: Octets, after: Octets, geo: Geometry, l: Layout, g: Guids, crc: Octets -> nat,
                    mbr: Octets, primary: Octets, backup: Octets, table: Octets)
    requires GuidsOk(g) && GeometryOk(geo) && MapOk(MapOf(geo)) && MapOf(geo).end <= |before| == |after|
    requires LaidOut(before, after, MapOf(geo), mbr, primary, backup, table)
    requires |mbr| == |primary| == |backup| == geo.sector && |table| == ENTRY_COUNT * ENTRY_SIZE
    requires MbrSays(mbr, geo.total) && TableSays(table, l, g)
    requires HeaderSays(primary, PrimaryPlace(geo), Version4(g.disk), crc(table), crc)
    requires HeaderSays(backup, BackupPlace(geo), Version4(g.disk), crc(table), crc)
    ensures DiskSays(after, geo.sector, geo.total, l, g, crc)
  {
    MapPlaces(geo);
    hide TableSectors, MbrSays, HeaderSays, TableSays, Version4, ByteOf;
  }

  lemma MapPlaces(geo: Geometry)
    requires GeometryOk(geo)
    ensures var sector, total, t := geo.sector, geo.total, 16384 / geo.sector;
      && geo.table == t && total > 2 * t + 3
      && var copy, last, end := ByteOf(total - 1 - t, sector), ByteOf(total - 1, sector), ByteOf(total, sector);
         && 2 * sector + 16384 <= copy && copy + 16384 == last && last + sector == end
         && MapOf(geo) == Map(sector, 2 * sector, copy, last, end)
  {
    TableOf(geo.sector);
    MapIsOk(geo);
    hide TableSectors;
  }

  lemma FewSectors(bytes: nat, sector: nat)
    requires SectorOk(sector)
    ensures GeometryOf(bytes, sector).total == bytes / sector <= bytes
  {
  }

  lemma PlacesFit(geo: Geometry)
    requires GeometryOk(geo) && geo.total < TWO64
    ensures PlaceFits(PrimaryPlace(geo)) && PlaceFits(BackupPlace(geo))
  {
    hide TableSectors;
  }

  lemma TableOf(sector: nat)
    requires SectorOk(sector)
    ensures TableSectors(sector) == 16384 / sector
  {
  }

  lemma LayoutFits(bytes: nat, espMib: nat, swapMib: nat, sector: nat)
    requires SectorOk(sector) && bytes < TWO64 && Plan(bytes, espMib, swapMib, sector).Some?
    ensures RangesFit(Plan(bytes, espMib, swapMib, sector).value)
  {
    PlanBounds(bytes, espMib, swapMib, sector);
    hide Plan, TableSectors;
  }

  lemma EspFits(bytes: nat, espMib: nat, swapMib: nat, sector: nat)
    requires SectorOk(sector) && bytes < TWO64 && Plan(bytes, espMib, swapMib, sector).Some?
    ensures var esp := Plan(bytes, espMib, swapMib, sector).value.esp; 0 < esp.first <= esp.last < TWO64
  {
    PlanBounds(bytes, espMib, swapMib, sector);
    hide Plan, TableSectors;
  }
}
