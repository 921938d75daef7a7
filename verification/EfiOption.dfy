/** The EFI_LOAD_OPTION of section 3.1.3 of UEFI 2.10: what the installer writes and what it reads back. */
module EfiOption {
  import opened Bytes
  import opened Options

  type Octets = seq<Byte>
  type Unit = x: int | 0 <= x < 0x10000

  datatype Partition = Partition(number: nat, firstLba: nat, sectors: nat, guid: Octets)

  /** A load option read back: its label, the partition of its HD() node and the path of its File() node. */
  datatype BootOption = BootOption(name: string, guid: Option<Octets>, file: Option<string>)

  // ------------------------------------------------------------------------------------------
  // UTF-16
  // ------------------------------------------------------------------------------------------

  function EncodeChar(c: char): (u: seq<Unit>)
    ensures 1 <= |u| <= 2
  {
    var n := c as int;
    if n < 0x10000 then [n] else [0xD800 + (n - 0x10000) / 0x400, 0xDC00 + (n - 0x10000) % 0x400]
  }

  function Encode(s: string): seq<Unit> { if s == "" then [] else EncodeChar(s[0]) + Encode(s[1..]) }

  /** The code point of a surrogate pair. */
  function Paired(high: int, low: int): int { 0x10000 + (high - 0xD800) * 0x400 + (low - 0xDC00) }

  /** `String::from_utf16`: surrogates must come in pairs. */
  function Decode(u: seq<Unit>): Option<string> {
    if u == [] then Some("")
    else if 0xD800 <= u[0] < 0xDC00 then
      if |u| == 1 || !(0xDC00 <= u[1] < 0xE000) then None
      else
        var rest := Decode(u[2..]);
        var n := Paired(u[0], u[1]);
        if rest.None? then None else Some([n as char] + rest.value)
    else if 0xDC00 <= u[0] < 0xE000 then None
    else
      var rest := Decode(u[1..]);
      if rest.None? then None else Some([u[0] as char] + rest.value)
  }

  lemma {:induction false} DecodeInverts(s: string)
    ensures Decode(Encode(s)) == Some(s)
  {
    if s != "" {
      DecodeInverts(s[1..]);
      var n := s[0] as int;
      var first, rest := EncodeChar(s[0]), Encode(s[1..]);
      assert Encode(s) == first + rest;
      if n < 0x10000 {
        assert (first + rest)[1..] == rest;
      } else {
        assert (first + rest)[2..] == rest;
        assert Paired(first[0], first[1]) == n;
      }
      assert s == [s[0]] + s[1..];
    }
  }

  predicate NulFree(s: string) { forall c | c in s :: c != '\0' }

  lemma {:induction false} NoZeroUnit(s: string)
    requires NulFree(s)
    ensures forall u | u in Encode(s) :: u != 0
  {
    if s != "" {
      assert s[0] in s && forall c | c in s[1..] :: c in s;
      NoZeroUnit(s[1..]);
    }
  }

  // ------------------------------------------------------------------------------------------
  // Units as bytes
  // ------------------------------------------------------------------------------------------

  function UnitBytes(u: Unit): (b: Octets)
    ensures |b| == 2
  {
    [u % 256, u / 256]
  }

  function UnitAt(s: Octets): Unit
    requires |s| >= 2
  {
    var low: int, high: int := s[0], s[1];
    low + 256 * high
  }

  function AllBytes(units: seq<Unit>): (b: Octets)
    ensures |b| == 2 * |units|
  {
    if units == [] then [] else UnitBytes(units[0]) + AllBytes(units[1..])
  }

  /** The units before the zero that must end them. */
  function UntilZero(s: Octets): Option<seq<Unit>> {
    if |s| < 2 then None
    else if UnitAt(s) == 0 then Some([])
    else
      var rest := UntilZero(s[2..]);
      if rest.None? then None else Some([UnitAt(s)] + rest.value)
  }

  /** Whole units, up to a zero if there is one. */
  function BeforeZero(s: Octets): seq<Unit> {
    if |s| < 2 || UnitAt(s) == 0 then [] else [UnitAt(s)] + BeforeZero(s[2..])
  }

  lemma {:induction false} UnitsRead(units: seq<Unit>, tail: Octets)
    requires forall u | u in units :: u != 0
    ensures UntilZero(AllBytes(units) + [0, 0] + tail) == Some(units)
    ensures BeforeZero(AllBytes(units) + [0, 0] + tail) == units
  {
    var s := AllBytes(units) + [0, 0] + tail;
    if units == [] {
      assert s == [0, 0] + tail;
    } else {
      assert units[0] in units && forall u | u in units[1..] :: u in units;
      UnitsRead(units[1..], tail);
      assert s == UnitBytes(units[0]) + (AllBytes(units[1..]) + [0, 0] + tail);
      assert s[2..] == AllBytes(units[1..]) + [0, 0] + tail;
      assert units == [units[0]] + units[1..];
    }
  }

  // ------------------------------------------------------------------------------------------
  // Writing
  // ------------------------------------------------------------------------------------------

  /** HD(): media, hard drive, 42 bytes, a GPT partition by its GUID. */
  function DriveNode(esp: Partition): Octets {
    [4, 1] + LittleEndian(42, 2) + LittleEndian(esp.number, 4) + LittleEndian(esp.firstLba, 8)
    + LittleEndian(esp.sectors, 8) + esp.guid + [2, 2]
  }

  /** File(): media, file path, the path in UTF-16 with its zero. */
  function FileNode(loader: string): Octets {
    var path := AllBytes(Encode(loader)) + [0, 0];
    [4, 4] + LittleEndian(4 + |path|, 2) + path
  }

  const END_NODE: Octets := [0x7F, 0xFF, 4, 0]

  function DevicePath(esp: Partition, loader: string): Octets { DriveNode(esp) + FileNode(loader) + END_NODE }

  function LoadOption(name: string, esp: Partition, loader: string): Octets {
    var path := DevicePath(esp, loader);
    LittleEndian(1, 4) + LittleEndian(|path|, 2) + (AllBytes(Encode(name)) + [0, 0]) + path
  }

  /** The lengths fit into their 16-bit fields, and the GUID has its 16 bytes. */
  predicate Fits(esp: Partition, loader: string) { |esp.guid| == 16 && 2 * |Encode(loader)| + 52 < 0x10000 }

  // ------------------------------------------------------------------------------------------
  // Reading
  // ------------------------------------------------------------------------------------------

  /** `rotulo_de` */
  function Label(option: Octets): Option<string> {
    if |option| < 6 then None
    else
      var units := UntilZero(option[6..]);
      if units.None? then None else Decode(units.value)
  }

  /** The nodes of a device path: the last HD() and File() nodes before the end node count. */
  function Nodes(path: Octets, guid: Option<Octets>, file: Option<string>): Option<(Option<Octets>, Option<string>)>
    decreases |path|
  {
    if |path| < 4 then Some((guid, file))
    else
      var size := UnitAt(path[2..]);
      if size < 4 || size > |path| then None
      else if path[0] == 0x7F && path[1] == 0xFF then Some((guid, file))
      else if path[0] == 4 && path[1] == 1 && size >= 42 then Nodes(path[size..], Some(path[24..40]), file)
      else if path[0] == 4 && path[1] == 4 then
        var text := Decode(BeforeZero(path[4..size]));
        if text.None? then None else Nodes(path[size..], guid, text)
      else Nodes(path[size..], guid, file)
  }

  /** `le_opcao` */
  function ReadOption(option: Octets): Option<BootOption> {
    if |option| < 6 then None
    else
      var size := UnitAt(option[4..]);
      var name := Label(option);
      if name.None? then None
      else
        var start := 6 + (|Encode(name.value)| + 1) * 2;
        if start + size > |option| then None
        else
          var nodes := Nodes(option[start..start + size], None, None);
          if nodes.None? then None else Some(BootOption(name.value, nodes.value.0, nodes.value.1))
  }

  // ------------------------------------------------------------------------------------------
  // What is written reads back
  // ------------------------------------------------------------------------------------------

  lemma TwoBytes(n: nat)
    requires n < 0x10000
    ensures LittleEndian(n, 2) == [n % 256, n / 256]
  {
    assert LittleEndian(n, 2) == [n % 256] + LittleEndian(n / 256, 1);
    assert LittleEndian(n / 256, 1) == [n / 256 % 256] + LittleEndian(n / 256 / 256, 0);
  }

  lemma DriveNodeReads(esp: Partition, tail: Octets, file: Option<string>)
    requires |esp.guid| == 16
    ensures Nodes(DriveNode(esp) + tail, None, file) == Nodes(tail, Some(esp.guid), file)
  {
    TwoBytes(42);
    var front := LittleEndian(esp.number, 4) + LittleEndian(esp.firstLba, 8) + LittleEndian(esp.sectors, 8);
    hide LittleEndian;
    var s := DriveNode(esp) + tail;
    assert s == [4, 1, 42, 0] + front + esp.guid + ([2, 2] + tail);
    assert UnitAt(s[2..]) == 42;
    assert s[24..40] == esp.guid;
    assert s[42..] == tail;
  }

  lemma FileNodeReads(loader: string, tail: Octets, guid: Option<Octets>)
    requires NulFree(loader) && 2 * |Encode(loader)| + 6 < 0x10000
    ensures Nodes(FileNode(loader) + tail, guid, None) == Nodes(tail, guid, Some(loader))
  {
    var units := Encode(loader);
    var path := AllBytes(units) + [0, 0];
    TwoBytes(4 + |path|);
    NoZeroUnit(loader);
    UnitsRead(units, []);
    DecodeInverts(loader);
    hide LittleEndian, Encode, Decode, AllBytes, BeforeZero;
    var size := 4 + |path|;
    var s := FileNode(loader) + tail;
    assert s == [4, 4, size % 256, size / 256] + path + tail;
    assert UnitAt(s[2..]) == size;
    assert s[4..size] == path == path + [];
    assert s[size..] == tail;
  }

  lemma EndNodeReads(guid: Option<Octets>, file: Option<string>)
    ensures Nodes(END_NODE, guid, file) == Some((guid, file))
  {
    assert UnitAt(END_NODE[2..]) == 4;
  }

  lemma PathReads(esp: Partition, loader: string)
    requires NulFree(loader) && Fits(esp, loader)
    ensures Nodes(DevicePath(esp, loader), None, None) == Some((Some(esp.guid), Some(loader)))
    ensures |DevicePath(esp, loader)| == 2 * |Encode(loader)| + 52
  {
    hide Nodes, DriveNode, FileNode, Encode;
    assert DevicePath(esp, loader) == DriveNode(esp) + (FileNode(loader) + END_NODE);
    DriveNodeReads(esp, FileNode(loader) + END_NODE, None);
    FileNodeReads(loader, END_NODE, Some(esp.guid));
    EndNodeReads(Some(esp.guid), Some(loader));
    NodeSizes(esp, loader);
  }

  lemma NodeSizes(esp: Partition, loader: string)
    requires |esp.guid| == 16
    ensures |DriveNode(esp)| == 42 && |FileNode(loader)| == 2 * |Encode(loader)| + 6
  {
  }

  /** A whole node of another kind than HD(), File() and the end. */
  predicate IsOther(node: Octets) {
    |node| >= 4 && UnitAt(node[2..]) == |node|
    && !(node[0] == 0x7F && node[1] == 0xFF) && !(node[0] == 4 && (node[1] == 1 || node[1] == 4))
  }

  function Joined(nodes: seq<Octets>): Octets { if nodes == [] then [] else nodes[0] + Joined(nodes[1..]) }

  lemma {:induction false} OthersSkipped(nodes: seq<Octets>, tail: Octets, guid: Option<Octets>, file: Option<string>)
    requires forall n | n in nodes :: IsOther(n)
    ensures Nodes(Joined(nodes) + tail, guid, file) == Nodes(tail, guid, file)
  {
    if nodes == [] {
      assert Joined(nodes) + tail == tail;
    } else {
      assert nodes[0] in nodes && forall n | n in nodes[1..] :: n in nodes;
      OthersSkipped(nodes[1..], tail, guid, file);
      hide Nodes, IsOther;
      assert Joined(nodes) + tail == nodes[0] + (Joined(nodes[1..]) + tail);
      OtherSkipped(nodes[0], Joined(nodes[1..]) + tail, guid, file);
    }
  }

  lemma OtherSkipped(node: Octets, rest: Octets, guid: Option<Octets>, file: Option<string>)
    requires IsOther(node)
    ensures Nodes(node + rest, guid, file) == Nodes(rest, guid, file)
  {
    hide Decode, BeforeZero;
    var path := node + rest;
    assert path[2] == node[2] && path[3] == node[3];
    assert path[|node|..] == rest;
  }

  /** The partition and the path are found as well behind the nodes that a firmware writes in front of them. */
  lemma FullPathReads(nodes: seq<Octets>, esp: Partition, loader: string)
    requires (forall n | n in nodes :: IsOther(n)) && NulFree(loader) && Fits(esp, loader)
    ensures Nodes(Joined(nodes) + DevicePath(esp, loader), None, None) == Some((Some(esp.guid), Some(loader)))
  {
    OthersSkipped(nodes, DevicePath(esp, loader), None, None);
    PathReads(esp, loader);
    hide Nodes, DevicePath, Joined;
  }

  /** The label of a written option is the label it was given. */
  lemma LabelReads(name: string, esp: Partition, loader: string)
    requires NulFree(name)
    ensures |LoadOption(name, esp, loader)| >= 6 && Label(LoadOption(name, esp, loader)) == Some(name)
  {
    var units := Encode(name);
    NoZeroUnit(name);
    DecodeInverts(name);
    hide LittleEndian, Encode, Decode, AllBytes, UntilZero, DevicePath;
    var path := DevicePath(esp, loader);
    UnitsRead(units, path);
    var head := LittleEndian(1, 4) + LittleEndian(|path|, 2);
    assert LoadOption(name, esp, loader) == head + (AllBytes(units) + [0, 0] + path);
    assert LoadOption(name, esp, loader)[6..] == AllBytes(units) + [0, 0] + path;
  }

  /** `le_opcao` inverts `load_option` for every label and loader without NUL that fits. */
  lemma ReadInvertsLoadOption(name: string, esp: Partition, loader: string)
    requires NulFree(name) && NulFree(loader) && Fits(esp, loader)
    ensures ReadOption(LoadOption(name, esp, loader)) == Some(BootOption(name, Some(esp.guid), Some(loader)))
  {
    hide Encode, Decode, AllBytes, DevicePath, Label, Nodes, LittleEndian, LoadOption, UntilZero, NulFree;
    LabelReads(name, esp, loader);
    PathReads(esp, loader);
    OptionParts(name, esp, loader);
    var option, path := LoadOption(name, esp, loader), DevicePath(esp, loader);
    var start := 6 + (|Encode(name)| + 1) * 2;
    assert Nodes(option[start..start + |path|], None, None) == Some((Some(esp.guid), Some(loader)));
  }

  lemma OptionParts(name: string, esp: Partition, loader: string)
    requires |DevicePath(esp, loader)| < 0x10000
    ensures var option, path := LoadOption(name, esp, loader), DevicePath(esp, loader);
      var start := 6 + (|Encode(name)| + 1) * 2;
      |option| >= 6 && UnitAt(option[4..]) == |path| && start + |path| <= |option|
      && option[start..start + |path|] == path
  {
    hide Encode, AllBytes, DevicePath, LittleEndian;
    var path := DevicePath(esp, loader);
    TwoBytes(|path|);
    var text := AllBytes(Encode(name)) + [0, 0];
    var option := LoadOption(name, esp, loader);
    assert option == LittleEndian(1, 4) + LittleEndian(|path|, 2) + text + path;
    assert option[4..6] == LittleEndian(|path|, 2);
    assert option[4] == |path| % 256 && option[5] == |path| / 256;
  }

  // ------------------------------------------------------------------------------------------
  // What is written, byte by byte
  // ------------------------------------------------------------------------------------------

  /** The widths of the program's fields. */
  predicate Representable(esp: Partition) {
    |esp.guid| == 16 && esp.number < 0x1_0000_0000 && esp.firstLba < 0x1_0000_0000_0000_0000
    && esp.sectors < 0x1_0000_0000_0000_0000
  }

  /** The HD() node at `s`, its fields where section 10.3.5.1 of the standard has them. */
  ghost predicate DriveSays(option: Octets, s: nat, esp: Partition) {
    && s + 42 <= |option|
    && option[s..s + 4] == [4, 1, 42, 0] && FromLittleEndian(option[s + 4..s + 8]) == esp.number
    && FromLittleEndian(option[s + 8..s + 16]) == esp.firstLba
    && FromLittleEndian(option[s + 16..s + 24]) == esp.sectors
    && option[s + 24..s + 40] == esp.guid && option[s + 40..s + 42] == [2, 2]
  }

  /** The File() node at `s`, as in section 10.3.5.4. */
  ghost predicate FileSays(option: Octets, s: nat, loader: string) {
    var n := 2 * |Encode(loader)|;
    && s + n + 6 <= |option|
    && option[s..s + 2] == [4, 4] && FromLittleEndian(option[s + 2..s + 4]) == n + 6
    && option[s + 4..s + n + 6] == AllBytes(Encode(loader)) + [0, 0]
  }

  /** A load option as in section 3.1.3: active, the length of the path, the label, the two nodes and the end. */
  ghost predicate OptionSays(option: Octets, name: string, esp: Partition, loader: string) {
    var s, n := 8 + 2 * |Encode(name)|, 2 * |Encode(loader)|;
    && |option| == s + n + 52
    && FromLittleEndian(option[..4]) == 1 && FromLittleEndian(option[4..6]) == n + 52
    && option[6..s] == AllBytes(Encode(name)) + [0, 0]
    && DriveSays(option, s, esp) && FileSays(option, s + 42, loader)
    && option[s + n + 48..] == [0x7F, 0xFF, 4, 0]
  }

  lemma Numbers(n: nat, width: nat, s: Octets)
    requires n < Pow256(width) && s == LittleEndian(n, width)
    ensures FromLittleEndian(s) == n
  {
    LittleEndianInverts(n, width);
  }

  lemma Widths()
    ensures Pow256(2) == 0x10000 && Pow256(4) == 0x1_0000_0000 && Pow256(8) == 0x1_0000_0000_0000_0000
  {
    assert Pow256(4) == 256 * (256 * Pow256(2));
    assert Pow256(8) == 256 * (256 * (256 * (256 * Pow256(4))));
  }

  lemma DriveNodeSays(esp: Partition)
    requires Representable(esp)
    ensures var d := DriveNode(esp);
      && |d| == 42 && d[..4] == [4, 1, 42, 0] && FromLittleEndian(d[4..8]) == esp.number
      && FromLittleEndian(d[8..16]) == esp.firstLba && FromLittleEndian(d[16..24]) == esp.sectors
      && d[24..40] == esp.guid && d[40..42] == [2, 2]
  {
    Widths();
    TwoBytes(42);
    DriveSlices(esp);
    hide LittleEndian, FromLittleEndian, Pow256, DriveNode;
    var d := DriveNode(esp);
    Numbers(esp.number, 4, d[4..8]);
    Numbers(esp.firstLba, 8, d[8..16]);
    Numbers(esp.sectors, 8, d[16..24]);
  }

  lemma DriveSlices(esp: Partition)
    requires |esp.guid| == 16
    ensures var d := DriveNode(esp);
      && |d| == 42 && d[..4] == [4, 1] + LittleEndian(42, 2) && d[4..8] == LittleEndian(esp.number, 4)
      && d[8..16] == LittleEndian(esp.firstLba, 8) && d[16..24] == LittleEndian(esp.sectors, 8)
      && d[24..40] == esp.guid && d[40..42] == [2, 2]
  {
    hide LittleEndian;
  }

  lemma FileNodeSays(loader: string)
    requires 2 * |Encode(loader)| + 6 < 0x10000
    ensures var f, n := FileNode(loader), 2 * |Encode(loader)|;
      && |f| == n + 6 && f[..2] == [4, 4] && FromLittleEndian(f[2..4]) == n + 6
      && f[4..n + 6] == AllBytes(Encode(loader)) + [0, 0]
  {
    Widths();
    hide LittleEndian, FromLittleEndian, Pow256, AllBytes, Encode;
    var f := FileNode(loader);
    Numbers(2 * |Encode(loader)| + 6, 2, f[2..4]);
  }

  /** The option in pieces: what stands before the path, and its three nodes. */
  lemma OptionPieces(name: string, esp: Partition, loader: string)
    requires Representable(esp) && Fits(esp, loader)
    ensures var option, s, n := LoadOption(name, esp, loader), 8 + 2 * |Encode(name)|, 2 * |Encode(loader)|;
      && |option| == s + n + 52 && option[..4] == LittleEndian(1, 4) && option[4..6] == LittleEndian(n + 52, 2)
      && option[6..s] == AllBytes(Encode(name)) + [0, 0] && option[s..s + 42] == DriveNode(esp)
      && option[s + 42..s + n + 48] == FileNode(loader) && option[s + n + 48..] == END_NODE
  {
    PathPieces(esp, loader);
    hide LittleEndian, AllBytes, Encode, DriveNode, FileNode, DevicePath, END_NODE;
    var size, text := LittleEndian(|DevicePath(esp, loader)|, 2), AllBytes(Encode(name)) + [0, 0];
    assert LoadOption(name, esp, loader) == LittleEndian(1, 4) + size + text + DevicePath(esp, loader);
    hide LoadOption;
    Pieces(LittleEndian(1, 4), size, text, DriveNode(esp), FileNode(loader), END_NODE);
  }

  lemma PathPieces(esp: Partition, loader: string)
    requires |esp.guid| == 16
    ensures DevicePath(esp, loader) == DriveNode(esp) + FileNode(loader) + END_NODE
    ensures |DriveNode(esp)| == 42 && |FileNode(loader)| == 2 * |Encode(loader)| + 6 && |END_NODE| == 4
  {
    NodeSizes(esp, loader);
    hide DriveNode, FileNode, Encode;
  }

  lemma Pieces(a: Octets, b: Octets, text: Octets, d: Octets, f: Octets, e: Octets)
    requires |a| == 4 && |b| == 2 && |d| == 42
    ensures var o, s := a + b + text + (d + f + e), 6 + |text|;
      && |o| == s + 42 + |f| + |e| && o[..4] == a && o[4..6] == b && o[6..s] == text
      && o[s..s + 42] == d && o[s + 42..s + 42 + |f|] == f && o[s + 42 + |f|..] == e
  {
    FourPieces(a, b, text, d + f + e);
    ThreeNodes(a + b + text, d, f, e);
  }

  lemma FourPieces(a: Octets, b: Octets, c: Octets, d: Octets)
    ensures var s, k := a + b + c + d, |a| + |b|; s[..|a|] == a && s[|a|..k] == b && s[k..k + |c|] == c
  {
    assert a + b + c + d == a + (b + (c + d));
  }

  lemma ThreeNodes(front: Octets, a: Octets, b: Octets, c: Octets)
    ensures var s, k := front + (a + b + c), |front| + |a|;
      s[|front|..k] == a && s[k..k + |b|] == b && s[k + |b|..] == c
  {
    assert front + (a + b + c) == front + a + b + c;
  }

  /** Every option that fits says its fields at their places. */
  lemma OptionByOffset(name: string, esp: Partition, loader: string)
    requires Representable(esp) && Fits(esp, loader)
    ensures OptionSays(LoadOption(name, esp, loader), name, esp, loader)
  {
    OptionPieces(name, esp, loader);
    OptionSaysSo(LoadOption(name, esp, loader), name, esp, loader);
  }

  lemma OptionSaysSo(option: Octets, name: string, esp: Partition, loader: string)
    requires Representable(esp) && Fits(esp, loader)
    requires var s, n := 8 + 2 * |Encode(name)|, 2 * |Encode(loader)|;
      && |option| == s + n + 52 && option[..4] == LittleEndian(1, 4) && option[4..6] == LittleEndian(n + 52, 2)
      && option[6..s] == AllBytes(Encode(name)) + [0, 0] && option[s..s + 42] == DriveNode(esp)
      && option[s + 42..s + n + 48] == FileNode(loader) && option[s + n + 48..] == END_NODE
    ensures OptionSays(option, name, esp, loader)
  {
    hide LittleEndian, FromLittleEndian, AllBytes, Encode, DriveNode, FileNode, DriveSays, FileSays, Representable;
    var s, n := 8 + 2 * |Encode(name)|, 2 * |Encode(loader)|;
    OptionHead(option, n + 52);
    DriveAt(option, s, esp);
    FileAt(option, s + 42, loader);
  }

  lemma DriveAt(option: Octets, s: nat, esp: Partition)
    requires Representable(esp) && s + 42 <= |option| && option[s..s + 42] == DriveNode(esp)
    ensures DriveSays(option, s, esp)
  {
    DriveNodeSays(esp);
    hide FromLittleEndian, DriveNode;
    DriveShifts(option, s);
  }

  lemma FileAt(option: Octets, s: nat, loader: string)
    requires 2 * |Encode(loader)| + 6 < 0x10000
    requires s + 2 * |Encode(loader)| + 6 <= |option|
    requires option[s..s + 2 * |Encode(loader)| + 6] == FileNode(loader)
    ensures FileSays(option, s, loader)
  {
    FileNodeSays(loader);
    hide FromLittleEndian, FileNode, AllBytes, Encode;
    FileShifts(option, s, 2 * |Encode(loader)| + 6);
  }

  lemma OptionHead(option: Octets, size: nat)
    requires |option| >= 6 && option[..4] == LittleEndian(1, 4) && option[4..6] == LittleEndian(size, 2)
    requires size < 0x10000
    ensures FromLittleEndian(option[..4]) == 1 && FromLittleEndian(option[4..6]) == size
  {
    Widths();
    hide LittleEndian, FromLittleEndian, Pow256;
    Numbers(1, 4, option[..4]);
    Numbers(size, 2, option[4..6]);
  }

  lemma FileShifts(option: Octets, s: nat, n: nat)
    requires s + n <= |option| && n >= 4
    ensures var f := option[s..s + n];
      option[s..s + 2] == f[..2] && option[s + 2..s + 4] == f[2..4] && option[s + 4..s + n] == f[4..n]
  {
    SliceOfSlice(option, s, n, 0, 2);
    SliceOfSlice(option, s, n, 2, 4);
    SliceOfSlice(option, s, n, 4, n);
  }

  lemma DriveShifts(option: Octets, s: nat)
    requires s + 42 <= |option|
    ensures var d := option[s..s + 42];
      && option[s..s + 4] == d[..4] && option[s + 4..s + 8] == d[4..8] && option[s + 8..s + 16] == d[8..16]
      && option[s + 16..s + 24] == d[16..24] && option[s + 24..s + 40] == d[24..40]
      && option[s + 40..s + 42] == d[40..42]
  {
    SliceOfSlice(option, s, 42, 0, 4);
    SliceOfSlice(option, s, 42, 4, 8);
    SliceOfSlice(option, s, 42, 8, 16);
    SliceOfSlice(option, s, 42, 16, 24);
    SliceOfSlice(option, s, 42, 24, 40);
    SliceOfSlice(option, s, 42, 40, 42);
  }

  /** Characters of the basic plane take two bytes each, the low one first. */
  lemma PlainText(s: string)
    requires forall c | c in s :: c as int < 0x10000
    ensures var b := AllBytes(Encode(s));
      |b| == 2 * |s| && forall i | 0 <= i < |s| :: b[2 * i] == s[i] as int % 256 && b[2 * i + 1] == s[i] as int / 256
  {
    PlainUnits(s);
    UnitsByOffset(Encode(s));
    hide AllBytes, Encode;
  }

  lemma {:induction false} PlainUnits(s: string)
    requires forall c | c in s :: c as int < 0x10000
    ensures |Encode(s)| == |s| && forall i | 0 <= i < |s| :: Encode(s)[i] == s[i] as int
  {
    if s != "" {
      assert s[0] in s && forall c | c in s[1..] :: c in s;
      PlainUnits(s[1..]);
    }
  }

  lemma {:induction false} UnitsByOffset(units: seq<Unit>)
    ensures forall i | 0 <= i < |units| ::
      AllBytes(units)[2 * i] == units[i] % 256 && AllBytes(units)[2 * i + 1] == units[i] / 256
  {
    if units != [] {
      UnitsByOffset(units[1..]);
      forall i | 0 <= i < |units|
        ensures AllBytes(units)[2 * i] == units[i] % 256 && AllBytes(units)[2 * i + 1] == units[i] / 256
      {
        var b, rest := AllBytes(units), AllBytes(units[1..]);
        assert b == UnitBytes(units[0]) + rest;
        if i > 0 {
          assert b[2 * i] == rest[2 * (i - 1)] && b[2 * i + 1] == rest[2 * (i - 1) + 1];
        }
      }
    }
  }
}
