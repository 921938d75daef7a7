/** Rotation of the EFI images of an installed system: the current one, the previous one in reserve, and the free space
    of a FAT volume, by a process that may be killed before any file operation. */
module EfiRotation {
  import opened Durability
  import opened EfiVersion
  import opened Options

  /** The two images and the temporary, the directories they live in, what directories have grown to, and what is
      free. */
  datatype Esp = Esp(current: Option<Image>, previous: Option<Image>, temp: Option<Image>,
                     efiDir: bool, bootDir: bool, reserveDir: bool, directories: nat, free: nat)

  datatype Action = AlreadyCurrent | Rotated | ReplacedCurrent

  datatype Reason = EmptyImage | TooLittleSpace(available: nat, needed: nat) | VolumeFull

  type Result = Outcome<Reason>

  const SLACK: nat := 1024 * 1024

  /** Clusters of a FAT32 volume are at most this long. */
  const MAX_CLUSTER: nat := 64 * 1024

  /** The bytes that the clusters of an `n`-byte file take. */
  function Occupied(n: nat, cluster: nat): (bytes: nat)
    requires cluster > 0
    ensures n <= bytes < n + cluster
  {
    if n == 0 then 0 else if n <= cluster then cluster else cluster + Occupied(n - cluster, cluster)
  }

  function Size(file: Option<Image>): nat { if file.None? then 0 else |file.value| }

  /** What the volume holds and what is free: no operation changes the sum. */
  function Total(esp: Esp, cluster: nat): nat
    requires cluster > 0
  {
    Occupied(Size(esp.current), cluster) + Occupied(Size(esp.previous), cluster) + Occupied(Size(esp.temp), cluster)
    + esp.directories + esp.free
  }

  /** After `i` bytes in whole clusters, the next `d` bytes take one more cluster. */
  lemma {:induction false} NextCluster(i: nat, d: nat, cluster: nat)
    requires 0 < d <= cluster && Occupied(i, cluster) == i
    ensures Occupied(i + d, cluster) == i + cluster
    ensures d == cluster ==> Occupied(i + d, cluster) == i + d
  {
    if i > 0 {
      assert i >= cluster;
      if i == cluster {
        assert Occupied(d, cluster) == cluster;
      } else {
        NextCluster(i - cluster, d, cluster);
      }
    }
  }

  // ------------------------------------------------------------------------------------------
  // What a rotation means
  // ------------------------------------------------------------------------------------------

  predicate InPlace(esp: Esp, running: Running) { running == Previous || esp.current.None? }

  /** The free bytes, with those of the previous image if that goes. */
  function Available(esp: Esp, running: Running): nat {
    esp.free + if running == Previous || esp.current.None? || esp.previous.None? then 0 else |esp.previous.value|
  }

  /** The space check, before anything is changed. */
  predicate Enough(esp: Esp, novo: Image, running: Running) {
    Available(esp, running) >= |novo| + SLACK
  }

  /** The pair of images that a rotation ends with. */
  function Final(esp: Esp, novo: Image, running: Running): (Option<Image>, Option<Image>) {
    if esp.current == Some(novo) then (esp.current, esp.previous)
    else if InPlace(esp, running) then (Some(novo), esp.previous)
    else (Some(novo), esp.current)
  }

  /** The pairs that a rotation passes through: the old images, without the previous one, the current one moved into
      its place, and the end. */
  predicate Passes(before: Esp, esp: Esp, novo: Image, running: Running) {
    var pair := (esp.current, esp.previous);
    || pair == (before.current, before.previous)
    || pair == Final(before, novo, running)
    || (!InPlace(before, running) && before.current != Some(novo)
        && (pair == (before.current, None) || pair == (None, before.current)))
  }

  predicate Holds(esp: Esp, image: Image) { esp.current == Some(image) || esp.previous == Some(image) }

  /** Exactly when a rotation leaves the image that booted on the volume. */
  predicate Spares(esp: Esp, novo: Image, running: Running, booted: Image) {
    esp.current == Some(novo) || novo == booted
    || (if InPlace(esp, running) then esp.previous == Some(booted) else esp.current == Some(booted))
  }

  /** A rotation keeps the image that booted exactly when it spares it, and if that does not depend on the new image,
      it keeps it at every moment in between. */
  lemma KeepsBooted(before: Esp, novo: Image, running: Running, booted: Image)
    requires Holds(before, booted)
    ensures var (c, p) := Final(before, novo, running);
      (c == Some(booted) || p == Some(booted)) <==> Spares(before, novo, running, booted)
    ensures forall esp | Passes(before, esp, novo, running) && (before.current == Some(novo) || novo != booted) ::
      Spares(before, novo, running, booted) ==> Holds(esp, booted)
  {
  }

  /** What an operation adds to a directory: nothing, a name, or a directory of its own. */
  datatype Names = NoneNew | NewName | NewDirectory

  class Volume {
    var esp: Esp
    var life: Life
    var calls: nat
    const cluster: nat
    /** Whether the directory touched by the n-th operation has to grow. */
    const grows: nat -> bool

    ghost predicate Valid() { 0 < cluster <= MAX_CLUSTER }

    constructor (esp: Esp, cluster: nat, grows: nat -> bool)
      ensures this.esp == esp && this.cluster == cluster && this.grows == grows && life == Forever
    {
      this.esp := esp;
      this.cluster := cluster;
      this.grows := grows;
      life := Forever;
      calls := 0;
    }

    /** An operation that gives back `freed` bytes and may make a directory grow: the kill, if it is due, comes before
        the effect. */
    method Do(next: Esp, freed: nat, names: Names) returns (o: Result, growth: nat)
      requires Valid() && next.free == esp.free && next.directories == esp.directories
      modifies this
      ensures old(life) == Forever ==> life == Forever && !o.Killed?
      ensures growth <= match names case NoneNew => 0 case NewName => cluster case NewDirectory => 2 * cluster
      ensures o.Died? ==> o.reason == VolumeFull && old(esp).free < growth
      ensures !o.Done? ==> esp == old(esp)
      ensures o.Done? ==> old(esp).free >= growth
      ensures o.Done? ==>
                esp == next.(free := old(esp).free - growth + freed, directories := old(esp).directories + growth)
    {
      growth := match names
        case NoneNew => 0
        case NewName => if grows(calls) then cluster else 0
        case NewDirectory => cluster + if grows(calls) then cluster else 0;
      if life == Calls(0) {
        return Killed, growth;
      }
      life := life.Spent();
      calls := calls + 1;
      if esp.free < growth {
        return Died(VolumeFull), growth;
      }
      esp := next.(free := esp.free - growth + freed, directories := esp.directories + growth);
      return Done, growth;
    }

    /** `create_dir_all` of the directory of the current image, or of the reserve. */
    method CreateDirs(reserve: bool) returns (o: Result)
      requires Valid() && esp.free >= 4 * cluster
      modifies this
      ensures old(life) == Forever ==> life == Forever && o.Done?
      ensures esp.directories <= old(esp).directories + 4 * cluster
      ensures !o.Died? && esp.free + 4 * cluster >= old(esp).free && Total(esp, cluster) == Total(old(esp), cluster)
      ensures (esp.current, esp.previous, esp.temp) == old((esp.current, esp.previous, esp.temp))
    {
      var growth;
      if !esp.efiDir {
        o, growth := Do(esp.(efiDir := true), 0, NewDirectory);
        if o.IsFailure() {
          return;
        }
      }
      if !(if reserve then esp.reserveDir else esp.bootDir) {
        o, growth := Do(if reserve then esp.(reserveDir := true) else esp.(bootDir := true), 0, NewDirectory);
        if o.IsFailure() {
          return;
        }
      }
      return Done;
    }

    /** The temporary, written cluster by cluster. */
    method WriteTemp(novo: Image) returns (o: Result)
      requires Valid() && esp.temp.None? && esp.free >= |novo| + 2 * cluster
      modifies this
      ensures old(life) == Forever ==> life == Forever && o.Done?
      ensures !o.Died? && Total(esp, cluster) == Total(old(esp), cluster)
      ensures (esp.current, esp.previous) == old((esp.current, esp.previous))
      ensures esp.directories <= old(esp).directories + cluster
      ensures o.Done? ==> esp.temp == Some(novo) && esp.free + |novo| + 2 * cluster >= old(esp).free
    {
      var growth;
      o, growth := Do(esp.(temp := Some([])), 0, NewName);
      if o.IsFailure() {
        return;
      }
      var i := 0;
      while i < |novo|
        invariant i <= |novo| && (old(life) == Forever ==> life == Forever)
        invariant Total(esp, cluster) == Total(old(esp), cluster)
        invariant (esp.current, esp.previous) == old((esp.current, esp.previous))
        invariant esp.temp == Some(novo[..i]) && (Occupied(i, cluster) == i || i == |novo|)
        invariant esp.directories <= old(esp).directories + cluster
      {
        var d := if |novo| - i < cluster then |novo| - i else cluster;
        NextCluster(i, d, cluster);
        o := Append(novo[..i + d]);
        if o.IsFailure() {
          return;
        }
        i := i + d;
      }
      assert novo[..|novo|] == novo;
      return Done;
    }

    /** One more cluster of the temporary. */
    method Append(longer: Image) returns (o: Result)
      requires Valid() && esp.temp.Some? && esp.free >= cluster
      requires Occupied(|longer|, cluster) == Occupied(|esp.temp.value|, cluster) + cluster
      modifies this
      ensures old(life) == Forever ==> life == Forever && o.Done?
      ensures !o.Died? && Total(esp, cluster) == Total(old(esp), cluster)
      ensures (esp.current, esp.previous, esp.directories) == old((esp.current, esp.previous, esp.directories))
      ensures esp.temp == if o.Done? then Some(longer) else old(esp.temp)
    {
      if life == Calls(0) {
        return Killed;
      }
      life := life.Spent();
      if esp.free < cluster {
        return Died(VolumeFull);
      }
      esp := esp.(temp := Some(longer), free := esp.free - cluster);
      return Done;
    }

    /** `escreve_trocando`: a new temporary beside the current image, then a rename over it. */
    method ReplaceCurrent(novo: Image) returns (o: Result)
      requires Valid() && esp.free >= |novo| + 7 * cluster
      modifies this
      ensures old(life) == Forever ==> life == Forever && o.Done?
      ensures !o.Died? && Total(esp, cluster) == Total(old(esp), cluster) && esp.previous == old(esp.previous)
      ensures esp.directories <= old(esp).directories + 6 * cluster && (o.Done? ==> esp.temp.None?)
      ensures esp.current == if o.Done? then Some(novo) else old(esp.current)
    {
      var growth;
      o := CreateDirs(false);
      if o.IsFailure() {
        return;
      }
      if esp.temp.Some? {
        o, growth := Do(esp.(temp := None), Occupied(Size(esp.temp), cluster), NoneNew);
        if o.IsFailure() {
          return;
        }
      }
      :- WriteTemp(novo);
      o, growth := Do(esp.(temp := None, current := esp.temp), Occupied(Size(esp.current), cluster), NewName);
    }

    /** `rotaciona`. */
    method Rotate(novo: Image, running: Running) returns (o: Result, action: Action)
      requires Valid()
      modifies this
      ensures old(life) == Forever ==> life == Forever && !o.Killed?
      ensures Total(esp, cluster) == Total(old(esp), cluster) && Passes(old(esp), esp, novo, running)
      ensures o.Died? ==> esp == old(esp)
      ensures o.Died? ==>
                novo == [] || (old(esp).current != Some(novo) && Available(old(esp), running) < |novo| + 1048576)
      ensures o.Died? && novo != [] ==> o.reason == TooLittleSpace(Available(old(esp), running), |novo| + 1048576)
      ensures o.Done? ==> novo != [] && (esp.current, esp.previous) == Final(old(esp), novo, running)
      ensures o.Done? ==> old(esp).current == Some(novo) || Available(old(esp), running) >= |novo| + 1048576
      ensures o.Done? ==> esp == old(esp) || esp.temp.None?
      ensures esp.directories <= old(esp).directories + 11 * cluster
      ensures o.Done? ==> action == if old(esp).current == Some(novo) then AlreadyCurrent
                                    else if old(esp).current.Some? && running == Previous then ReplacedCurrent
                                    else Rotated
    {
      action := AlreadyCurrent;
      if novo == [] {
        return Died(EmptyImage), action;
      }
      if esp.current == Some(novo) {
        return Done, action;
      }
      if running == Previous || esp.current.None? {
        action := if esp.current.Some? then ReplacedCurrent else Rotated;
        if esp.free < |novo| + SLACK {
          return Died(TooLittleSpace(esp.free, |novo| + SLACK)), action;
        }
        o := ReplaceCurrent(novo);
        return;
      }
      action := Rotated;
      var recoverable := Size(esp.previous);
      if esp.free + recoverable < |novo| + SLACK {
        return Died(TooLittleSpace(esp.free + recoverable, |novo| + SLACK)), action;
      }
      o := MoveToReserve();
      if o.Done? {
        o := ReplaceCurrent(novo);
      }
    }

    /** The old previous image goes, and the current one takes its place. */
    method MoveToReserve() returns (o: Result)
      requires Valid() && esp.current.Some? && esp.free + Size(esp.previous) >= SLACK
      modifies this
      ensures old(life) == Forever ==> life == Forever && o.Done?
      ensures !o.Died? && Total(esp, cluster) == Total(old(esp), cluster)
      ensures esp.directories <= old(esp).directories + 5 * cluster
      ensures o.Done? ==> esp.current == None && esp.previous == old(esp.current)
      ensures o.Done? ==> esp.free + 6 * cluster >= old(esp).free + Size(old(esp).previous)
      ensures !o.Done? ==> esp.current == old(esp.current) && (esp.previous == old(esp.previous) || esp.previous.None?)
    {
      var growth;
      if Size(esp.previous) > 0 {
        o, growth := Do(esp.(previous := None), Occupied(Size(esp.previous), cluster), NoneNew);
        if o.IsFailure() {
          return;
        }
      }
      :- CreateDirs(true);
      o, growth := Do(esp.(current := None, previous := esp.current), Occupied(Size(esp.previous), cluster), NewName);
    }
  }
}
