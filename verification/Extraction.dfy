/** What `decode_entries` accepts of a tar of the medium, whether it keeps the contents or only measures them. */
module Extraction {
  import opened Options

  type Bytes = string
  type Name = string
  type Path = seq<Name>

  const MAX_TREE_ENTRIES: nat := 50000
  const MAX_PATH: nat := 4096
  const MAX_MODE: nat := 4095

  datatype Policy = Newspeak | Overlay | Cache
  datatype ContentPolicy = Keep | Skip

  datatype Component = RootDir | CurDir | ParentDir | Normal(name: Name)

  /** A path as its components, with the length of its spelling and whether it is UTF-8. */
  datatype RawPath = RawPath(components: seq<Component>, length: nat, utf8: bool)

  datatype ItemType = DirectoryItem | RegularItem | SymlinkItem | OtherItem

  /** An entry of the archive: its header, the bytes that follow it as far as they are there, and its link target. The
      reader hands over at most `size` bytes. */
  datatype Item = Item(path: RawPath, mode: nat, size: nat, itemType: ItemType, data: Bytes, target: Option<RawPath>)

  datatype Kind = Directory | Regular(content: Bytes) | Sized(length: nat) | Symlink(target: RawPath)
  datatype Entry = Entry(path: Path, mode: nat, kind: Kind)

  // ------------------------------------------------------------------------------------------
  // Paths
  // ------------------------------------------------------------------------------------------

  /** `validate_relative` */
  predicate PathOk(p: RawPath) {
    0 < |p.components| && p.length <= MAX_PATH && p.utf8 && forall c | c in p.components :: c.Normal?
  }

  function NamesOf(components: seq<Component>): Path {
    if components == [] then []
    else (if components[0].Normal? then [components[0].name] else []) + NamesOf(components[1..])
  }

  function PathOf(p: RawPath): Path { NamesOf(p.components) }

  /** `overlay_path_allowed` */
  predicate OverlayAllowed(p: Path) {
    p != [] && p[0] in {"etc", "root", "home", "srv"} && !(["etc", "minitrue"] <= p)
  }

  /** `normalized_target`: the components of a relative target over a stack of names. */
  function Normalized(stack: Path, target: seq<Component>): Option<Path>
    decreases |target|
  {
    if target == [] then Some(stack)
    else match target[0]
      case RootDir => None
      case CurDir => Normalized(stack, target[1..])
      case Normal(name) => Normalized(stack + [name], target[1..])
      case ParentDir => if stack == [] then None else Normalized(stack[..|stack| - 1], target[1..])
  }

  /** How far below the starting directory these components lead. */
  function Depth(target: seq<Component>): int {
    if target == [] then 0
    else
      Depth(target[..|target| - 1])
      + match target[|target| - 1] case Normal(_) => 1 case ParentDir => -1 case _ => 0
  }

  /** A target is followed exactly when it is relative and no beginning of it climbs above the root; what it names is
      then as deep as its components say. */
  lemma {:induction false} NeverAboveRoot(stack: Path, target: seq<Component>)
    ensures Normalized(stack, target).Some?
       <==> RootDir !in target && forall k | 0 <= k <= |target| :: |stack| + Depth(target[..k]) >= 0
    ensures Normalized(stack, target).Some? ==> |Normalized(stack, target).value| == |stack| + Depth(target)
    decreases |target|
  {
    assert Depth(target[..0]) == 0;
    if target != [] {
      var rest := target[1..];
      var step := Depth(target[..1]);
      assert target[..1][..0] == [];
      forall k | 0 <= k <= |rest| ensures Depth(target[..k + 1]) == step + Depth(rest[..k]) {
        DepthFromFront(target[..k + 1]);
        assert target[..k + 1][1..] == rest[..k];
        assert target[..k + 1][..1] == target[..1];
      }
      assert target[..|target|] == target && rest[..|rest|] == rest;
      NextDepths(|stack|, target);
      if target[0].ParentDir? && stack == [] {
        assert |stack| + Depth(target[..1]) < 0;
      } else if !target[0].RootDir? {
        var next := if target[0].Normal? then stack + [target[0].name]
                    else if target[0].ParentDir? then stack[..|stack| - 1] else stack;
        NeverAboveRoot(next, rest);
        assert |next| == |stack| + step;
      }
    }
  }

  lemma {:induction false} DepthFromFront(target: seq<Component>)
    requires target != []
    ensures Depth(target) == Depth(target[..1]) + Depth(target[1..])
    decreases |target|
  {
    if |target| == 1 {
      assert target[..1] == target && target[1..] == [];
    } else {
      var front := target[..|target| - 1];
      DepthFromFront(front);
      assert front[..1] == target[..1] && front[1..] == target[1..][..|target[1..]| - 1];
    }
  }

  lemma NextDepths(depth: nat, target: seq<Component>)
    requires target != []
    requires forall k | 0 <= k <= |target[1..]| ::
               Depth(target[..k + 1]) == Depth(target[..1]) + Depth(target[1..][..k])
    ensures (forall k | 0 <= k <= |target| :: depth + Depth(target[..k]) >= 0)
       <==> forall k | 0 <= k <= |target[1..]| :: depth + Depth(target[..1]) + Depth(target[1..][..k]) >= 0
  {
    assert Depth(target[..0]) == 0;
    if forall k | 0 <= k <= |target| :: depth + Depth(target[..k]) >= 0 {
      forall k | 0 <= k <= |target[1..]| ensures depth + Depth(target[..1]) + Depth(target[1..][..k]) >= 0 {
        assert Depth(target[..k + 1]) == Depth(target[..1]) + Depth(target[1..][..k]);
      }
    }
    if forall k | 0 <= k <= |target[1..]| :: depth + Depth(target[..1]) + Depth(target[1..][..k]) >= 0 {
      forall k | 0 <= k <= |target| ensures depth + Depth(target[..k]) >= 0 {
        if k > 0 {
          assert Depth(target[..k - 1 + 1]) == Depth(target[..1]) + Depth(target[1..][..k - 1]);
        }
      }
    }
  }

  /** `validate_symlink` */
  predicate SymlinkOk(path: Path, target: RawPath, policy: Policy) {
    && policy == Overlay && target.components != [] && target.utf8 && path != []
    && var n := Normalized(path[..|path| - 1], target.components); n.Some? && OverlayAllowed(n.value)
  }

  // ------------------------------------------------------------------------------------------
  // What is accepted
  // ------------------------------------------------------------------------------------------

  /** One entry, apart from the others. A regular file must be all there. */
  predicate ItemOk(i: Item, policy: Policy) {
    && PathOk(i.path) && (policy == Overlay ==> OverlayAllowed(PathOf(i.path))) && i.mode <= MAX_MODE
    && match i.itemType
       case DirectoryItem => i.size == 0
       case RegularItem => |i.data| == i.size
       case SymlinkItem => i.size == 0 && i.target.Some? && SymlinkOk(PathOf(i.path), i.target.value, policy)
       case OtherItem => false
  }

  function Weight(i: Item): nat { if i.itemType == RegularItem then i.size else 0 }

  function ContentBytes(items: seq<Item>): nat {
    if items == [] then 0 else ContentBytes(items[..|items| - 1]) + Weight(items[|items| - 1])
  }

  /** `ancestor` is a proper, non-empty prefix of `path`. */
  predicate Above(ancestor: Path, path: Path) { ancestor != [] && ancestor < path }

  /** No path twice, and nothing below an entry that is not a directory. */
  predicate TreeOk(items: seq<Item>) {
    && (forall i, j :: 0 <= i < j < |items| ==> PathOf(items[i].path) != PathOf(items[j].path))
    && (forall i, j | 0 <= i < |items| && 0 <= j < |items| && Above(PathOf(items[i].path), PathOf(items[j].path)) ::
          items[i].itemType == DirectoryItem)
  }

  predicate Acceptable(items: seq<Item>, policy: Policy, limit: nat) {
    && |items| <= MAX_TREE_ENTRIES && (forall i | i in items :: ItemOk(i, policy))
    && ContentBytes(items) <= limit && TreeOk(items)
  }

  /** Inside one of the four directories of an overlay, and not in /etc/minitrue. */
  ghost predicate Inside(p: Path) {
    |p| > 0 && (p[0] == "etc" || p[0] == "root" || p[0] == "home" || p[0] == "srv")
    && !(|p| > 1 && p[0] == "etc" && p[1] == "minitrue")
  }

  /** The link at `path` is relative, leads back inside, and no beginning of its target climbs above the root. */
  ghost predicate LeadsInside(path: Path, target: seq<Component>)
    requires path != []
  {
    && RootDir !in target && (forall k | 0 <= k <= |target| :: |path| - 1 + Depth(target[..k]) >= 0)
    && Normalized(path[..|path| - 1], target).Some? && Inside(Normalized(path[..|path| - 1], target).value)
  }

  /** Whatever an accepted overlay brings, and wherever its links lead, is inside; the other trees have no links. */
  lemma StaysInside(items: seq<Item>, policy: Policy, limit: nat, i: Item)
    requires Acceptable(items, policy, limit) && i in items
    ensures policy == Overlay ==> Inside(PathOf(i.path))
    ensures i.itemType == SymlinkItem ==>
              policy == Overlay && i.target.Some? && PathOf(i.path) != []
              && LeadsInside(PathOf(i.path), i.target.value.components)
  {
    hide TreeOk, ContentBytes, Normalized, PathOf, Depth;
    var path := PathOf(i.path);
    if policy == Overlay {
      AllowedIsInside(path);
    }
    if i.itemType == SymlinkItem {
      var front := path[..|path| - 1];
      NeverAboveRoot(front, i.target.value.components);
      AllowedIsInside(Normalized(front, i.target.value.components).value);
    }
  }

  lemma AllowedIsInside(p: Path)
    ensures OverlayAllowed(p) <==> Inside(p)
  {
    if |p| > 1 && p[0] == "etc" && p[1] == "minitrue" {
      assert ["etc", "minitrue"] <= p;
    }
  }

  function KindOf(i: Item, content: ContentPolicy): Kind {
    match i.itemType
    case DirectoryItem => Directory
    case RegularItem => if content == Skip then Sized(i.size) else Regular(i.data)
    case _ => if i.target.Some? then Symlink(i.target.value) else Directory
  }

  function EntryOf(i: Item, content: ContentPolicy): Entry { Entry(PathOf(i.path), i.mode, KindOf(i, content)) }

  function EntriesOf(items: seq<Item>, content: ContentPolicy): seq<Entry> {
    seq(|items|, k requires 0 <= k < |items| => EntryOf(items[k], content))
  }

  /** The bytes of contents that entries stand for. */
  function Contents(entries: seq<Entry>): nat {
    if entries == [] then 0
    else
      Contents(entries[1..])
      + match entries[0].kind case Regular(content) => |content| case Sized(length) => length case _ => 0
  }

  lemma {:induction false} ContentsAppend(a: seq<Entry>, e: Entry)
    ensures Contents(a + [e]) == Contents(a) + Contents([e])
  {
    if a == [] {
      assert a + [e] == [e];
    } else {
      assert (a + [e])[1..] == a[1..] + [e];
      ContentsAppend(a[1..], e);
    }
  }

  /** Whatever is accepted stands for no more bytes than the limit, counted over the entries that come out, and each of
      them has a plain relative path and permission bits only. */
  lemma AcceptedIsSmall(items: seq<Item>, policy: Policy, content: ContentPolicy, limit: nat)
    requires Acceptable(items, policy, limit)
    ensures var entries := EntriesOf(items, content);
      && |entries| <= 50000 && Contents(entries) <= limit
      && forall e | e in entries :: e.mode < 4096 && e.path != []
  {
    ContentsAre(items, policy, content);
    var entries := EntriesOf(items, content);
    forall e | e in entries ensures e.mode < 4096 && e.path != [] {
      var k :| 0 <= k < |entries| && entries[k] == e;
      assert items[k] in items;
      SomeName(items[k], policy);
    }
  }

  lemma SomeName(i: Item, policy: Policy)
    requires ItemOk(i, policy)
    ensures PathOf(i.path) != []
  {
    assert i.path.components[0].Normal?;
  }

  lemma {:induction false} ContentsAre(items: seq<Item>, policy: Policy, content: ContentPolicy)
    requires forall i | i in items :: ItemOk(i, policy)
    ensures Contents(EntriesOf(items, content)) == ContentBytes(items)
    decreases |items|
  {
    if items != [] {
      var front, last := items[..|items| - 1], items[|items| - 1];
      assert last in items && forall i | i in front :: i in items;
      ContentsAre(front, policy, content);
      assert EntriesOf(items, content) == EntriesOf(front, content) + [EntryOf(last, content)];
      ContentsAppend(EntriesOf(front, content), EntryOf(last, content));
      OneContent(last, policy, content);
    }
  }

  lemma OneContent(i: Item, policy: Policy, content: ContentPolicy)
    requires ItemOk(i, policy)
    ensures Contents([EntryOf(i, content)]) == Weight(i)
  {
    assert [EntryOf(i, content)][1..] == [];
  }

  // ------------------------------------------------------------------------------------------
  // `decode_entries`
  // ------------------------------------------------------------------------------------------

  lemma ContentGrows(items: seq<Item>, i: nat)
    requires i < |items|
    ensures ContentBytes(items[..i + 1]) == ContentBytes(items[..i]) + Weight(items[i])
  {
    assert items[..i + 1][..i] == items[..i];
  }

  lemma {:induction false} ContentPrefix(items: seq<Item>, i: nat)
    requires i <= |items|
    ensures ContentBytes(items[..i]) <= ContentBytes(items)
    decreases |items| - i
  {
    if i == |items| {
      assert items[..i] == items;
    } else {
      ContentGrows(items, i);
      ContentPrefix(items, i + 1);
    }
  }

  /** The kind of one entry, with the running count of content bytes. */
  method DecodeKind(i: Item, path: Path, policy: Policy, content: ContentPolicy, limit: nat, bytes: nat)
    returns (kind: Option<Kind>, count: nat)
    requires bytes <= limit && path == PathOf(i.path) && PathOk(i.path) && |i.data| <= i.size
    requires policy == Overlay ==> OverlayAllowed(path)
    ensures kind.Some? && i.mode <= MAX_MODE <==> ItemOk(i, policy) && bytes + Weight(i) <= limit
    ensures kind.Some? ==> kind.value == KindOf(i, content) && count == bytes + Weight(i)
  {
    count := bytes;
    match i.itemType {
      case DirectoryItem =>
        kind := if i.size != 0 then None else Some(Directory);
      case RegularItem =>
        var remaining := limit - bytes;
        if i.size > remaining {
          return None, count;
        }
        if content == Skip {
          if |i.data| != i.size {
            return None, count;
          }
          count := count + i.size;
          kind := Some(Sized(i.size));
        } else {
          if |i.data| != i.size || |i.data| > remaining {
            return None, count;
          }
          count := count + |i.data|;
          kind := Some(Regular(i.data));
        }
      case SymlinkItem =>
        if i.size != 0 || i.target.None? || !SymlinkOk(path, i.target.value, policy) {
          return None, count;
        }
        kind := Some(Symlink(i.target.value));
      case OtherItem =>
        kind := None;
    }
  }

  /** What the loop has recorded of the first `n` items. */
  ghost predicate Recorded(items: seq<Item>, n: nat, content: ContentPolicy, decoded: seq<Entry>,
                           paths: map<Path, bool>)
  {
    && n <= |items| && decoded == EntriesOf(items[..n], content)
    && (forall i, j :: 0 <= i < j < n ==> PathOf(items[i].path) != PathOf(items[j].path))
    && (forall p :: p in paths ==> exists i :: 0 <= i < n && PathOf(items[i].path) == p)
    && (forall i | 0 <= i < n :: PathOf(items[i].path) in paths
          && (paths[PathOf(items[i].path)] <==> items[i].itemType == DirectoryItem))
  }

  /** The loop over the archive, and then the check of the ancestors: accepts exactly the archives that are
      acceptable, for either treatment of the contents, and returns their entries in order. */
  method DecodeEntries(items: seq<Item>, policy: Policy, content: ContentPolicy, limit: nat)
    returns (entries: Option<seq<Entry>>)
    requires forall i | i in items :: |i.data| <= i.size
    ensures entries.Some? <==> Acceptable(items, policy, limit)
    ensures entries.Some? ==> entries.value == EntriesOf(items, content)
  {
    hide ItemOk, PathOk, OverlayAllowed, EntriesOf, ContentBytes;
    var decoded: seq<Entry> := [];
    var paths: map<Path, bool> := map[];
    var bytes := 0;
    NothingRecorded(items, content);
    for n := 0 to |items|
      invariant Recorded(items, n, content, decoded, paths) && n <= MAX_TREE_ENTRIES && |decoded| == n
      invariant bytes == ContentBytes(items[..n]) <= limit
      invariant forall i | i in items[..n] :: ItemOk(i, policy)
    {
      var item := items[n];
      assert item in items && items[..n + 1] == items[..n] + [item];
      ContentGrows(items, n);
      ContentPrefix(items, n + 1);
      ItemParts(item, policy);
      if |decoded| >= MAX_TREE_ENTRIES {
        return None;
      }
      if !PathOk(item.path) {
        return None;
      }
      var path := PathOf(item.path);
      if policy == Overlay && !OverlayAllowed(path) {
        return None;
      }
      if item.mode > MAX_MODE {
        return None;
      }
      var kind, count := DecodeKind(item, path, policy, content, limit, bytes);
      if kind.None? {
        return None;
      }
      if path in paths {
        RepeatedPath(items, n, content, decoded, paths);
        return None;
      }
      RecordOne(items, n, content, decoded, paths);
      bytes := count;
      paths := paths[path := item.itemType == DirectoryItem];
      decoded := decoded + [Entry(path, item.mode, kind.value)];
    }
    assert items[..|items|] == items;
    var ok := CheckAncestors(items, content, decoded, paths);
    return if ok then Some(decoded) else None;
  }

  lemma ItemParts(i: Item, policy: Policy)
    ensures ItemOk(i, policy) ==>
              PathOk(i.path) && (policy == Overlay ==> OverlayAllowed(PathOf(i.path))) && i.mode <= MAX_MODE
  {
  }

  lemma NothingRecorded(items: seq<Item>, content: ContentPolicy)
    ensures Recorded(items, 0, content, [], map[]) && ContentBytes(items[..0]) == 0
  {
  }

  lemma RepeatedPath(items: seq<Item>, n: nat, content: ContentPolicy, decoded: seq<Entry>, paths: map<Path, bool>)
    requires n < |items| && Recorded(items, n, content, decoded, paths) && PathOf(items[n].path) in paths
    ensures !TreeOk(items)
  {
    var i :| 0 <= i < n && PathOf(items[i].path) == PathOf(items[n].path);
  }

  lemma RecordOne(items: seq<Item>, n: nat, content: ContentPolicy, decoded: seq<Entry>, paths: map<Path, bool>)
    requires n < |items| && Recorded(items, n, content, decoded, paths) && PathOf(items[n].path) !in paths
    ensures Recorded(items, n + 1, content, decoded + [EntryOf(items[n], content)],
                     paths[PathOf(items[n].path) := items[n].itemType == DirectoryItem])
  {
    hide EntryOf, PathOf;
    assert EntriesOf(items[..n + 1], content) == EntriesOf(items[..n], content) + [EntryOf(items[n], content)];
  }

  /** One path against its ancestors, the nearest first. */
  method CheckPath(paths: map<Path, bool>, p: Path) returns (bad: Option<Path>)
    ensures bad.Some? ==> Above(bad.value, p) && bad.value in paths && !paths[bad.value]
    ensures bad.None? ==> forall a :: Above(a, p) && a in paths ==> paths[a]
  {
    for k := |p| downto 0
      invariant forall j | k <= j < |p| && 0 < j :: p[..j] in paths ==> paths[p[..j]]
    {
      if 0 < k && p[..k] in paths && !paths[p[..k]] {
        return Some(p[..k]);
      }
    }
    forall a | Above(a, p) && a in paths ensures paths[a] {
      assert a == p[..|a|];
    }
    return None;
  }

  /** Every recorded path against every ancestor of it. */
  method CheckAncestors(items: seq<Item>, ghost content: ContentPolicy, ghost decoded: seq<Entry>,
                        paths: map<Path, bool>)
    returns (ok: bool)
    requires Recorded(items, |items|, content, decoded, paths)
    ensures ok <==> TreeOk(items)
  {
    hide Recorded, TreeOk, Above;
    var rest := paths.Keys;
    while rest != {}
      invariant rest <= paths.Keys
      invariant forall p, a :: p in paths && p !in rest && Above(a, p) && a in paths ==> paths[a]
    {
      var p :| p in rest;
      var bad := CheckPath(paths, p);
      if bad.Some? {
        BadAncestor(items, content, decoded, paths, bad.value, p);
        return false;
      }
      rest := rest - {p};
    }
    GoodTree(items, content, decoded, paths);
    return true;
  }

  lemma BadAncestor(items: seq<Item>, content: ContentPolicy, decoded: seq<Entry>, paths: map<Path, bool>, a: Path,
                    p: Path)
    requires Recorded(items, |items|, content, decoded, paths) && a in paths && p in paths && Above(a, p) && !paths[a]
    ensures !TreeOk(items)
  {
    hide PathOf;
    var i :| 0 <= i < |items| && PathOf(items[i].path) == a;
    var j :| 0 <= j < |items| && PathOf(items[j].path) == p;
    assert Above(PathOf(items[i].path), PathOf(items[j].path));
  }

  lemma GoodTree(items: seq<Item>, content: ContentPolicy, decoded: seq<Entry>, paths: map<Path, bool>)
    requires Recorded(items, |items|, content, decoded, paths)
    requires forall p, a :: p in paths && Above(a, p) && a in paths ==> paths[a]
    ensures TreeOk(items)
  {
    hide PathOf, EntriesOf;
  }
}
