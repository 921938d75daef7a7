/** Registration of boot options in the NVRAM: `Boot####` variables and `BootOrder`. */
module EfiRegister {
  import opened Bytes
  import opened Options
  import opened EfiOption
  import opened EfiVersion

  /** NON_VOLATILE, BOOTSERVICE_ACCESS and RUNTIME_ACCESS, in front of every variable. */
  const ATTRIBUTES: Octets := [7, 0, 0, 0]
  const NUMBERS: nat := 0x10000

  const CURRENT_LABEL: string := "Distr\U{F3}pica"
  const PREVIOUS_LABEL: string := "Distr\U{F3}pica (anterior)"

  /** The variables as efivarfs shows them, attributes first. */
  datatype Variables = Variables(boot: map<Unit, Octets>, order: Option<Octets>)

  function Payload(variable: Octets): Octets { if |variable| < 4 then [] else variable[4..] }

  /** The attributes in front: 1 for non-volatile, 2 for the boot services and 4 for run time. */
  predicate Stored(variable: Octets) { |variable| >= 4 && variable[..4] == [1 + 2 + 4, 0, 0, 0] }

  /** The entry that an earlier installation left under this label: the least number that has it. */
  predicate HasLabel(v: Variables, n: int, name: string) {
    0 <= n < NUMBERS && n as Unit in v.boot && EfiOption.Label(Payload(v.boot[n as Unit])) == Some(name)
  }

  predicate IsFree(v: Variables, n: int) { 0 <= n < NUMBERS && n as Unit !in v.boot }

  datatype Entry = Entry(name: string, loader: string)

  const PREVIOUS := Entry(PREVIOUS_LABEL, PREVIOUS_LOADER)
  const CURRENT := Entry(CURRENT_LABEL, CURRENT_LOADER)

  /** The number that a registration takes. */
  predicate Takes(v: Variables, name: string, n: Unit) {
    if exists m | 0 <= m < NUMBERS :: HasLabel(v, m, name)
    then HasLabel(v, n, name) && forall m | 0 <= m < n :: !HasLabel(v, m, name)
    else IsFree(v, n) && forall m | 0 <= m < n :: !IsFree(v, m)
  }

  /** Whole units of a BootOrder. */
  function UnitsOf(s: Octets): seq<Unit> { if |s| < 2 then [] else [UnitAt(s)] + UnitsOf(s[2..]) }

  function OrderOf(v: Variables): seq<Unit> { if v.order.None? then [] else UnitsOf(Payload(v.order.value)) }

  function Without(order: seq<Unit>, n: Unit): seq<Unit> {
    if order == [] then []
    else Without(order[..|order| - 1], n) + if order[|order| - 1] == n then [] else [order[|order| - 1]]
  }

  /** The variables after `name` was registered under `n`. */
  function Registered(v: Variables, name: string, esp: Partition, loader: string, n: Unit): Variables {
    Variables(v.boot[n := ATTRIBUTES + LoadOption(name, esp, loader)],
              Some(ATTRIBUTES + AllBytes([n] + Without(OrderOf(v), n))))
  }

  // ------------------------------------------------------------------------------------------
  // The program
  // ------------------------------------------------------------------------------------------

  /** The bytes of a text, unit by unit, and its zero. */
  method TextBytes(s: string) returns (bytes: Octets)
    ensures bytes == AllBytes(Encode(s)) + [0, 0]
  {
    var units := Encode(s);
    bytes := [];
    for i := 0 to |units|
      invariant bytes + AllBytes(units[i..]) == AllBytes(units)
    {
      assert units[i..][1..] == units[i + 1..];
      bytes := bytes + UnitBytes(units[i]);
    }
    bytes := bytes + [0, 0];
  }

  /** `device_path` and `load_option`. */
  method BuildOption(name: string, esp: Partition, loader: string) returns (option: Octets)
    requires Fits(esp, loader)
    ensures option == LoadOption(name, esp, loader)
    ensures Representable(esp) ==> OptionSays(option, name, esp, loader)
  {
    if Representable(esp) {
      OptionByOffset(name, esp, loader);
    }
    hide LittleEndian, AllBytes, Encode, OptionSays, Representable;
    var path := [4, 1] + LittleEndian(42, 2) + LittleEndian(esp.number, 4) + LittleEndian(esp.firstLba, 8)
                + LittleEndian(esp.sectors, 8) + esp.guid + [2, 2];
    var file := TextBytes(loader);
    path := path + ([4, 4] + LittleEndian(4 + |file|, 2) + file);
    path := path + [0x7F, 0xFF, 4, 0];
    assert path == DevicePath(esp, loader);
    var text := TextBytes(name);
    option := LittleEndian(1, 4) + LittleEndian(|path|, 2) + text + path;
  }

  class Nvram {
    var state: Variables

    constructor (v: Variables)
      ensures state == v
    {
      state := v;
    }

    /** The number of `registra`: an entry of ours to reuse, or the least free one. */
    method Choose(name: string) returns (n: Option<Unit>, reused: bool)
      ensures n.Some? ==> Takes(state, name, n.value)
      ensures n.None? ==> forall m | 0 <= m < NUMBERS :: !HasLabel(state, m, name) && !IsFree(state, m)
      ensures n.Some? && reused ==> HasLabel(state, n.value, name)
    {
      for i := 0 to NUMBERS
        invariant forall m | 0 <= m < i :: !HasLabel(state, m, name)
      {
        if i as Unit in state.boot && EfiOption.Label(Payload(state.boot[i as Unit])) == Some(name) {
          assert HasLabel(state, i, name);
          return Some(i as Unit), true;
        }
      }
      for i := 0 to NUMBERS
        invariant forall m | 0 <= m < i :: !IsFree(state, m)
      {
        if i as Unit !in state.boot {
          return Some(i as Unit), false;
        }
      }
      return None, false;
    }

    /** The new BootOrder: `n` in front, the rest as it was. */
    method NewOrder(n: Unit) returns (bytes: Octets)
      ensures bytes == AllBytes([n] + Without(OrderOf(state), n))
    {
      var order := [n];
      if state.order.Some? {
        var body := UnitsOf(Payload(state.order.value));
        for i := 0 to |body|
          invariant order == [n] + Without(body[..i], n)
        {
          assert body[..i + 1][..i] == body[..i];
          if body[i] != n {
            order := order + [body[i]];
          }
        }
        assert body[..|body|] == body;
      }
      assert order == [n] + Without(OrderOf(state), n);
      bytes := OrderBytes(order);
    }

    method OrderBytes(order: seq<Unit>) returns (bytes: Octets)
      ensures bytes == AllBytes(order)
    {
      bytes := [];
      for i := 0 to |order|
        invariant bytes + AllBytes(order[i..]) == AllBytes(order)
      {
        assert order[i..][1..] == order[i + 1..];
        bytes := bytes + UnitBytes(order[i]);
      }
    }

    /** `registra` */
    method Register(name: string, esp: Partition, loader: string) returns (n: Option<Unit>, reused: bool)
      requires Fits(esp, loader)
      modifies this
      ensures n.Some? ==>
                Takes(old(state), name, n.value) && state == Registered(old(state), name, esp, loader, n.value)
      ensures n.Some? && Representable(esp)
          ==> Stored(state.boot[n.value]) && OptionSays(Payload(state.boot[n.value]), name, esp, loader)
      ensures n.Some? ==> Stored(state.order.value)
      ensures n.None? ==> state == old(state)
      ensures n.None? <==> forall m | 0 <= m < NUMBERS :: !HasLabel(old(state), m, name) && !IsFree(old(state), m)
    {
      hide LoadOption, AllBytes, Without, OrderOf, OptionSays, Representable;
      var option := BuildOption(name, esp, loader);
      n, reused := Choose(name);
      if n.None? {
        return;
      }
      var order := NewOrder(n.value);
      state := state.(boot := state.boot[n.value := ATTRIBUTES + option]);
      state := state.(order := Some(ATTRIBUTES + order));
      assert Payload(ATTRIBUTES + option) == option;
    }
  }

  /** `le_opcao`, which walks the device path by offsets: in bounds and ending on every byte string. */
  method ReadNodes(path: Octets) returns (nodes: Option<(Option<Octets>, Option<string>)>)
    ensures nodes == Nodes(path, None, None)
  {
    hide Decode, BeforeZero;
    var guid, file := None, None;
    var i := 0;
    assert path[0..] == path;
    while i + 4 <= |path|
      invariant i <= |path| && Nodes(path[i..], guid, file) == Nodes(path, None, None)
      decreases |path| - i
    {
      var size := UnitAt(path[i + 2..]);
      assert path[i..][2..] == path[i + 2..];
      if size < 4 || i + size > |path| {
        return None;
      }
      var node := path[i..i + size];
      NodeAt(path, i, size);
      if node[0] == 0x7F && node[1] == 0xFF {
        return Some((guid, file));
      } else if node[0] == 4 && node[1] == 1 && size >= 42 {
        guid := Some(node[24..40]);
      } else if node[0] == 4 && node[1] == 4 {
        var text := Decode(BeforeZero(node[4..]));
        if text.None? {
          return None;
        }
        file := text;
      }
      i := i + size;
    }
    return Some((guid, file));
  }

  /** A node at an offset, and the same node at the head of what is left of the path. */
  lemma NodeAt(path: Octets, i: nat, size: nat)
    requires 4 <= size && i + size <= |path|
    ensures var node := path[i..i + size]; var rest := path[i..];
      && rest[size..] == path[i + size..] && rest[0] == node[0] && rest[1] == node[1]
      && rest[4..size] == node[4..] && (size >= 42 ==> rest[24..40] == node[24..40])
  {
    assert path[i..i + size] == path[i..][..size];
  }

  /** `registra_entradas`: the reserve first, if there is one, then the current image. `r` and `c` are the numbers
      they took. */
  method RegisterEntries(nvram: Nvram, esp: Partition, hasPrevious: bool)
    returns (ok: bool, ghost r: Unit, ghost c: Unit)
    requires |esp.guid| == 16
    modifies nvram
    ensures ok && hasPrevious ==> Twice(old(nvram.state), nvram.state, esp, PREVIOUS, CURRENT, r, c)
    ensures ok && !hasPrevious ==> Takes(old(nvram.state), CURRENT_LABEL, c)
    ensures ok && !hasPrevious ==> nvram.state == Registered(old(nvram.state), CURRENT_LABEL, esp, CURRENT_LOADER, c)
  {
    hide Registered, Takes, Fits, HasLabel, IsFree;
    LoadersFit(esp);
    r, c, ok := 0, 0, false;
    var n, reused;
    if hasPrevious {
      n, reused := nvram.Register(PREVIOUS_LABEL, esp, PREVIOUS_LOADER);
      if n.None? {
        return;
      }
      r := n.value;
    }
    n, reused := nvram.Register(CURRENT_LABEL, esp, CURRENT_LOADER);
    if n.None? {
      return;
    }
    c, ok := n.value, true;
  }

  /** `p` and then `q` were registered, under `r` and `c`. */
  ghost predicate Twice(before: Variables, after: Variables, esp: Partition, p: Entry, q: Entry, r: Unit, c: Unit) {
    var v := Registered(before, p.name, esp, p.loader, r);
    Takes(before, p.name, r) && Takes(v, q.name, c) && after == Registered(v, q.name, esp, q.loader, c)
  }

  // ------------------------------------------------------------------------------------------
  // What registering both entries means
  // ------------------------------------------------------------------------------------------

  lemma LoadersFit(esp: Partition)
    requires |esp.guid| == 16
    ensures Fits(esp, CURRENT_LOADER) && Fits(esp, PREVIOUS_LOADER)
  {
    hide Encode;
    EncodeLength(CURRENT_LOADER);
    EncodeLength(PREVIOUS_LOADER);
  }

  lemma {:induction false} EncodeLength(s: string)
    ensures |Encode(s)| <= 2 * |s|
  {
    if s != "" {
      EncodeLength(s[1..]);
    }
  }

  lemma {:induction false} OrderReads(units: seq<Unit>)
    ensures UnitsOf(AllBytes(units)) == units
  {
    if units != [] {
      OrderReads(units[1..]);
      var b := AllBytes(units);
      assert b == UnitBytes(units[0]) + AllBytes(units[1..]);
      assert b[2..] == AllBytes(units[1..]);
      assert units == [units[0]] + units[1..];
    }
  }

  lemma {:induction false} WithoutAppend(a: seq<Unit>, b: seq<Unit>, n: Unit)
    ensures Without(a + b, n) == Without(a, n) + Without(b, n)
    decreases |b|
  {
    if b == [] {
      assert a + b == a;
    } else {
      assert (a + b)[..|a + b| - 1] == a + b[..|b| - 1];
      WithoutAppend(a, b[..|b| - 1], n);
    }
  }

  lemma {:induction false} WithoutIs(order: seq<Unit>, n: Unit)
    ensures n !in Without(order, n) && (n !in order ==> Without(order, n) == order)
    ensures forall m :: m in Without(order, n) <==> m in order && m != n
    decreases |order|
  {
    if order != [] {
      WithoutIs(order[..|order| - 1], n);
      assert order == order[..|order| - 1] + [order[|order| - 1]];
    }
  }

  /** What a registration shows: the new number in front, the label under it, all else as before. */
  lemma AfterRegistered(v: Variables, name: string, esp: Partition, loader: string, n: Unit)
    requires NulFree(name)
    ensures var w := Registered(v, name, esp, loader, n);
      && OrderOf(w) == [n] + Without(OrderOf(v), n) && HasLabel(w, n, name)
      && forall m, other | m != n as int ::
           HasLabel(w, m, other) == HasLabel(v, m, other) && IsFree(w, m) == IsFree(v, m)
    ensures forall other | other != name :: !HasLabel(Registered(v, name, esp, loader, n), n, other)
  {
    var w := Registered(v, name, esp, loader, n);
    LabelReads(name, esp, loader);
    OrderReads([n] + Without(OrderOf(v), n));
    hide LoadOption, AllBytes, UnitsOf, Without;
    var option := LoadOption(name, esp, loader);
    assert (ATTRIBUTES + option)[4..] == option;
    var bytes := AllBytes([n] + Without(OrderOf(v), n));
    assert (ATTRIBUTES + bytes)[4..] == bytes;
  }

  /** `n` is the least number with this label. */
  predicate IsFirst(v: Variables, name: string, n: Unit) {
    HasLabel(v, n, name) && forall m | 0 <= m < n as int :: !HasLabel(v, m, name)
  }

  /** The number a label took is the one it takes again. */
  lemma TakesAgain(v: Variables, name: string, n: Unit, m: Unit)
    requires IsFirst(v, name, n) && Takes(v, name, m)
    ensures m == n
  {
    hide HasLabel;
    assert HasLabel(v, n, name);
  }

  lemma FirstAfter(v: Variables, name: string, esp: Partition, loader: string, n: Unit)
    requires NulFree(name) && Takes(v, name, n)
    ensures IsFirst(Registered(v, name, esp, loader, n), name, n)
  {
    AfterRegistered(v, name, esp, loader, n);
    hide Registered, HasLabel, IsFree, OrderOf, Without;
    var w := Registered(v, name, esp, loader, n);
    forall m | 0 <= m < n as int ensures !HasLabel(w, m, name) {
      assert HasLabel(w, m, name) == HasLabel(v, m, name);
    }
  }

  /** A registration under another label takes another number and leaves the first one first. */
  lemma OtherLabel(v: Variables, name: string, n: Unit, other: string, esp: Partition, loader: string, m: Unit)
    requires IsFirst(v, name, n) && name != other && NulFree(other) && Takes(v, other, m)
    ensures m != n && IsFirst(Registered(v, other, esp, loader, m), name, n)
  {
    OneLabel(v, n, name, other);
    AfterRegistered(v, other, esp, loader, m);
    hide Registered, HasLabel, IsFree, OrderOf, Without;
    var w := Registered(v, other, esp, loader, m);
    assert m != n;
    assert HasLabel(w, n, name) == HasLabel(v, n, name);
    forall k | 0 <= k < n as int ensures !HasLabel(w, k, name) {
      assert k != m as int ==> HasLabel(w, k, name) == HasLabel(v, k, name);
    }
  }

  lemma OneLabel(v: Variables, n: Unit, name: string, other: string)
    requires HasLabel(v, n, name) && name != other
    ensures !HasLabel(v, n, other) && !IsFree(v, n)
  {
  }

  lemma Single(n: Unit, m: Unit)
    ensures Without([n], m) == if n == m then [] else [n]
  {
    assert [n][..0] == [];
  }

  lemma Leading(rest: seq<Unit>, r: Unit, c: Unit)
    requires r != c && r !in rest && c !in rest
    ensures [c] + Without([r] + Without([c, r] + rest, r), c) == [c, r] + rest
  {
    hide Without;
    WithoutIs(rest, c);
    WithoutIs(rest, r);
    assert [c, r] + rest == [c] + ([r] + rest);
    WithoutAppend([c], [r] + rest, r);
    WithoutAppend([r], rest, r);
    Single(c, r);
    Single(r, r);
    assert Without([c, r] + rest, r) == [c] + rest;
    WithoutAppend([r], [c] + rest, c);
    WithoutAppend([c], rest, c);
    Single(r, c);
    Single(c, c);
  }

  /** Registering `p` and then `q` puts `q` first and `p` second in BootOrder, and keeps every other entry in order. */
  lemma BothInFront(before: Variables, after: Variables, esp: Partition, p: Entry, q: Entry, r: Unit, c: Unit)
    requires Twice(before, after, esp, p, q, r, c) && p.name != q.name && NulFree(p.name) && NulFree(q.name)
    ensures r != c && OrderOf(after) == [c, r] + Without(Without(OrderOf(before), r), c)
    ensures IsFirst(after, p.name, r) && IsFirst(after, q.name, c)
  {
    hide Registered, OrderOf, HasLabel, IsFree, IsFirst, Takes, NulFree, Without;
    var middle := Registered(before, p.name, esp, p.loader, r);
    FirstAfter(before, p.name, esp, p.loader, r);
    OtherLabel(middle, p.name, r, q.name, esp, q.loader, c);
    FirstAfter(middle, q.name, esp, q.loader, c);
    AfterRegistered(before, p.name, esp, p.loader, r);
    AfterRegistered(middle, q.name, esp, q.loader, c);
    WithoutAppend([r], Without(OrderOf(before), r), c);
    Single(r, c);
  }

  /** Doing it all again changes nothing. */
  lemma BothAgain(before: Variables, after: Variables, last: Variables, esp: Partition, p: Entry, q: Entry,
                  r: Unit, c: Unit, r': Unit, c': Unit)
    requires Twice(before, after, esp, p, q, r, c) && Twice(after, last, esp, p, q, r', c')
    requires p.name != q.name && NulFree(p.name) && NulFree(q.name)
    ensures r' == r && c' == c && last == after
  {
    hide Registered, HasLabel, IsFree, IsFirst, Takes, NulFree, OrderOf, Without;
    BothInFront(before, after, esp, p, q, r, c);
    TakesAgain(after, p.name, r, r');
    OtherFirst(after, esp, p, q.name, r, c);
    TakesAgain(Registered(after, p.name, esp, p.loader, r), q.name, c, c');
    BootsSame(before, after, last, esp, p, q, r, c);
    OrdersSame(before, after, last, esp, p, q, r, c);
  }

  lemma OtherFirst(v: Variables, esp: Partition, p: Entry, other: string, r: Unit, c: Unit)
    requires IsFirst(v, other, c) && r != c && p.name != other && NulFree(p.name)
    ensures IsFirst(Registered(v, p.name, esp, p.loader, r), other, c)
  {
    AfterRegistered(v, p.name, esp, p.loader, r);
    hide Registered, HasLabel, IsFree, OrderOf, Without, NulFree;
    var w := Registered(v, p.name, esp, p.loader, r);
    assert HasLabel(w, c, other) == HasLabel(v, c, other);
    forall k | 0 <= k < c as int ensures !HasLabel(w, k, other) {
      assert k != r as int ==> HasLabel(w, k, other) == HasLabel(v, k, other);
    }
  }

  lemma BootsSame(before: Variables, after: Variables, last: Variables, esp: Partition, p: Entry, q: Entry, r: Unit,
                  c: Unit)
    requires r != c && Twice(before, after, esp, p, q, r, c) && Twice(after, last, esp, p, q, r, c)
    ensures last.boot == after.boot
  {
    hide LoadOption, Takes, AllBytes, OrderOf;
  }

  lemma OrdersSame(before: Variables, after: Variables, last: Variables, esp: Partition, p: Entry, q: Entry, r: Unit,
                   c: Unit)
    requires Twice(before, after, esp, p, q, r, c) && Twice(after, last, esp, p, q, r, c)
    requires p.name != q.name && NulFree(p.name) && NulFree(q.name)
    ensures last.order == after.order
  {
    hide Registered, OrderOf, Twice, Without, AllBytes, NulFree, IsFirst;
    BothInFront(before, after, esp, p, q, r, c);
    BothInFront(after, last, esp, p, q, r, c);
    var rest := Without(Without(OrderOf(before), r), c);
    WithoutIs(OrderOf(before), r);
    WithoutIs(Without(OrderOf(before), r), c);
    FrontTwice(rest, r, c);
    RawOrder(before, after, esp, p, q, r, c);
    RawOrder(after, last, esp, p, q, r, c);
  }

  lemma FrontTwice(rest: seq<Unit>, r: Unit, c: Unit)
    requires r != c && r !in rest && c !in rest
    ensures [c, r] + Without(Without([c, r] + rest, r), c) == [c, r] + rest
  {
    Leading(rest, r, c);
    hide Without;
    WithoutAppend([r], Without([c, r] + rest, r), c);
    Single(r, c);
    var x := Without(Without([c, r] + rest, r), c);
    assert [c] + ([r] + x) == [c, r] + x;
  }

  /** The raw BootOrder is exactly its units. */
  lemma RawOrder(before: Variables, after: Variables, esp: Partition, p: Entry, q: Entry, r: Unit, c: Unit)
    requires Twice(before, after, esp, p, q, r, c) && NulFree(q.name)
    ensures after.order == Some(ATTRIBUTES + AllBytes(OrderOf(after)))
  {
    var middle := Registered(before, p.name, esp, p.loader, r);
    AfterRegistered(middle, q.name, esp, q.loader, c);
    hide AllBytes, OrderOf, LoadOption, Takes, HasLabel, IsFree;
  }

  lemma LabelsFit()
    ensures CURRENT.name != PREVIOUS.name && NulFree(CURRENT.name) && NulFree(PREVIOUS.name)
  {
    assert |CURRENT_LABEL| != |PREVIOUS_LABEL|;
  }

  /** The two entries of the installed system: current first, reserve second, the rest of the machine as it was; and a
      second registration changes no variable. */
  lemma EntriesInFront(before: Variables, after: Variables, last: Variables, esp: Partition,
                       r: Unit, c: Unit, r': Unit, c': Unit)
    requires Twice(before, after, esp, PREVIOUS, CURRENT, r, c)
    ensures OrderOf(after) == [c, r] + Without(Without(OrderOf(before), r), c)
    ensures Twice(after, last, esp, PREVIOUS, CURRENT, r', c') ==> last == after
  {
    hide Twice, OrderOf, Without, NulFree, IsFirst;
    LabelsFit();
    BothInFront(before, after, esp, PREVIOUS, CURRENT, r, c);
    if Twice(after, last, esp, PREVIOUS, CURRENT, r', c') {
      BothAgain(before, after, last, esp, PREVIOUS, CURRENT, r, c, r', c');
    }
  }

  /** What BootCurrent answers once the entries are registered: the current loader is `Current`, the other
      `Previous`. */
  lemma RegisteredAnswers(name: string, esp: Partition)
    requires NulFree(name) && |esp.guid| == 16
    ensures ByBootCurrent(ReadOption(LoadOption(name, esp, CURRENT_LOADER)), Some(esp.guid)) == Some(Current)
    ensures ByBootCurrent(ReadOption(LoadOption(name, esp, PREVIOUS_LOADER)), Some(esp.guid)) == Some(Previous)
  {
    hide ReadOption, LoadOption, Fits, NulFree, Encode, ByBootCurrent;
    LoadersFit(esp);
    PlainLoaders();
    ReadInvertsLoadOption(name, esp, CURRENT_LOADER);
    ReadInvertsLoadOption(name, esp, PREVIOUS_LOADER);
    PathsAnswer(name, esp.guid);
  }

  lemma PathsAnswer(name: string, guid: Octets)
    ensures ByBootCurrent(Some(BootOption(name, Some(guid), Some(CURRENT_LOADER))), Some(guid)) == Some(Current)
    ensures ByBootCurrent(Some(BootOption(name, Some(guid), Some(PREVIOUS_LOADER))), Some(guid)) == Some(Previous)
  {
    assert |Lower(CURRENT_LOADER)| != |Lower(PREVIOUS_LOADER)|;
    hide Lower;
  }

  lemma PlainLoaders()
    ensures NulFree(CURRENT_LOADER) && NulFree(PREVIOUS_LOADER)
  {
  }
}
