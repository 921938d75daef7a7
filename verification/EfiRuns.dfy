/** Runs of updates, kills and reboots: the image that booted the session stays on the ESP. */
module EfiRuns {
  import opened Bytes
  import opened Durability
  import opened EfiOption
  import opened EfiVersion
  import opened EfiRotation
  import opened Options

  /** An update killed after `calls` file operations, or a reboot that prefers the reserve or the current image. */
  datatype Event = Update(novo: Image, life: Life) | Reboot(reserve: bool)

  /** The file that the firmware starts: the one it prefers, or the other when that is missing. */
  function Started(esp: Esp, reserve: bool): Option<Image> {
    if FromReserve(esp, reserve) then esp.previous else esp.current
  }

  predicate FromReserve(esp: Esp, reserve: bool) { (reserve && esp.previous.Some?) || esp.current.None? }

  // ------------------------------------------------------------------------------------------
  // The header-version witness
  // ------------------------------------------------------------------------------------------

  /** Every image has a parseable version of its own, and a kernel reports the version in its header. */
  ghost predicate Distinguishable(known: set<Image>, proc: Image -> string) {
    && (forall x | x in known :: HeaderVersion(x).Some? && ReleaseAndVersion(proc(x)) == HeaderVersion(x))
    && (forall x, y | x in known && y in known && HeaderVersion(x) == HeaderVersion(y) :: x == y)
  }

  /** Images that carry the version texts of builds with different versions are distinguishable, when a kernel publishes
      the release and version it was built with. */
  lemma BuildsDistinguish(known: set<Image>, build: Image -> Build, compiler: string, proc: Image -> string)
    requires '#' !in compiler
    requires forall x | x in known ::
               BuildOk(build(x)) && Carries(x, VersionText(build(x).release, build(x).who, build(x).version))
    requires forall x | x in known :: proc(x) == ProcText(build(x).release, build(x).who, compiler, build(x).version)
    requires forall x, y | x in known && y in known && SameVersion(build(x), build(y)) :: x == y
    ensures Distinguishable(known, proc)
  {
    hide HeaderVersion, ReleaseAndVersion, Carries, VersionText, ProcText, IsVersion;
    forall x | x in known
      ensures HeaderVersion(x) == Some((build(x).release, build(x).version))
           && ReleaseAndVersion(proc(x)) == HeaderVersion(x)
    {
      BuildReads(x, build(x), compiler);
    }
  }

  lemma BuildReads(x: Image, b: Build, compiler: string)
    requires BuildOk(b) && '#' !in compiler && Carries(x, VersionText(b.release, b.who, b.version))
    ensures HeaderVersion(x) == Some((b.release, b.version))
    ensures ReleaseAndVersion(ProcText(b.release, b.who, compiler, b.version)) == HeaderVersion(x)
  {
    hide HeaderVersion, ReleaseAndVersion, Carries, VersionText, ProcText, IsVersion;
    WitnessesAgree(x, b.release, b.who, compiler, b.version);
  }

  ghost predicate AllKnown(esp: Esp, known: set<Image>) {
    (esp.current.Some? ==> esp.current.value in known) && (esp.previous.Some? ==> esp.previous.value in known)
  }

  /** With distinct versions the witness always spares the image that booted, at every moment of the rotation. */
  lemma VersionsSpare(esp: Esp, novo: Image, booted: Image, known: set<Image>, proc: Image -> string)
    requires Distinguishable(known, proc) && AllKnown(esp, known) && booted in known && Holds(esp, booted)
    ensures var running := WhichRuns(None, None, Some(proc(booted)), esp.current, esp.previous);
      && (running == Previous <==> esp.current.Some? && esp.previous == Some(booted) && esp.current != Some(booted))
      && (running == Current <==> esp.current == Some(booted))
      && Spares(esp, novo, running, booted)
      && forall e | Passes(esp, e, novo, running) :: Holds(e, booted)
  {
    hide HeaderVersion, ReleaseAndVersion;
  }

  /** Over every run of updates, each killed anywhere, and reboots through either file, the image that booted the
      session stays whole on the ESP, and an update with enough space never runs out of it. */
  method RunsByVersion(start: Esp, cluster: nat, grows: nat -> bool, booted: Image, events: seq<Event>,
                       known: set<Image>, proc: Image -> string)
    returns (d: Volume, session: Image)
    requires 0 < cluster <= MAX_CLUSTER && Distinguishable(known, proc)
    requires AllKnown(start, known) && booted in known && Holds(start, booted)
    requires forall e | e in events && e.Update? :: e.novo in known
    ensures Holds(d.esp, session) && session in known && AllKnown(d.esp, known)
    ensures Total(d.esp, cluster) == Total(start, cluster)
  {
    d := new Volume(start, cluster, grows);
    session := booted;
    for i := 0 to |events|
      invariant d.cluster == cluster && Total(d.esp, cluster) == Total(start, cluster)
      invariant Holds(d.esp, session) && session in known && AllKnown(d.esp, known)
    {
      assert events[i] in events;
      match events[i] {
        case Update(novo, life) =>
          UpdateByVersion(d, novo, life, session, known, proc);
        case Reboot(reserve) =>
          session := Started(d.esp, reserve).value;
      }
    }
  }

  /** One update of a session, with the kernel's own version as the witness. */
  method UpdateByVersion(d: Volume, novo: Image, life: Life, session: Image, known: set<Image>, proc: Image -> string)
    requires d.Valid() && Distinguishable(known, proc) && AllKnown(d.esp, known)
    requires session in known && Holds(d.esp, session) && novo in known
    modifies d
    ensures Total(d.esp, d.cluster) == Total(old(d.esp), d.cluster)
    ensures Holds(d.esp, session) && AllKnown(d.esp, known)
  {
    VersionsSpare(d.esp, novo, session, known, proc);
    var running := WhichRuns(None, None, Some(proc(session)), d.esp.current, d.esp.previous);
    d.life := life;
    hide WhichRuns, Distinguishable, Total;
    var _, _ := d.Rotate(novo, running);
  }

  // ------------------------------------------------------------------------------------------
  // The firmware's answer
  // ------------------------------------------------------------------------------------------

  /** The BootCurrent of a session that started from the reserve, or from the current path. */
  predicate Answers(option: BootOption, guid: seq<Byte>, reserve: bool) {
    ByBootCurrent(Some(option), Some(guid)) == Some(if reserve then Previous else Current)
  }

  /** All updates of one session, up to the next reboot, bring the same image. */
  predicate OneImagePerSession(events: seq<Event>, sofar: Option<Image>) {
    if events == [] then true
    else match events[0]
      case Reboot(_) => OneImagePerSession(events[1..], None)
      case Update(novo, _) => (sofar.None? || sofar == Some(novo)) && OneImagePerSession(events[1..], Some(novo))
  }

  /** In a session that brings no image but `sofar`, where the one that booted is. */
  predicate Kept(esp: Esp, booted: Image, reserve: bool, sofar: Option<Image>) {
    if reserve then esp.previous == Some(booted)
    else esp.current == Some(booted)
         || (sofar.Some? && esp.previous == Some(booted) && (esp.current.None? || esp.current == sofar))
  }

  lemma AnswerKeeps(esp: Esp, e: Esp, novo: Image, booted: Image, reserve: bool, sofar: Option<Image>)
    requires Kept(esp, booted, reserve, sofar) && (sofar.None? || sofar == Some(novo))
    requires Passes(esp, e, novo, if reserve then Previous else Current)
    ensures Kept(e, booted, reserve, Some(novo))
  {
  }

  /** With the firmware as witness the same holds as long as one session brings one image. The images need no versions.
      `option` is the BootCurrent of each session, as the firmware spells it. */
  method RunsByBootCurrent(start: Esp, cluster: nat, grows: nat -> bool, events: seq<Event>, guid: seq<Byte>,
                           option: bool -> BootOption, proc: Option<string>)
    returns (d: Volume, session: Image)
    requires 0 < cluster <= MAX_CLUSTER && (start.current.Some? || start.previous.Some?)
    requires Answers(option(true), guid, true) && Answers(option(false), guid, false)
    requires OneImagePerSession(events, None)
    ensures Holds(d.esp, session) && Total(d.esp, cluster) == Total(start, cluster)
  {
    d := new Volume(start, cluster, grows);
    var reserve := FromReserve(start, false);
    session := Started(start, false).value;
    ghost var sofar: Option<Image> := None;
    for i := 0 to |events|
      invariant d.cluster == cluster && Total(d.esp, cluster) == Total(start, cluster)
      invariant Kept(d.esp, session, reserve, sofar)
      invariant OneImagePerSession(events[i..], sofar)
    {
      assert events[i..][0] == events[i] && events[i..][1..] == events[i + 1..];
      match events[i] {
        case Update(novo, life) =>
          var running := WhichRuns(Some(option(reserve)), Some(guid), proc, d.esp.current, d.esp.previous);
          assert running == if reserve then Previous else Current;
          d.life := life;
          ghost var before := d.esp;
          hide WhichRuns, Total;
          var _, _ := d.Rotate(novo, running);
          AnswerKeeps(before, d.esp, novo, session, reserve, sofar);
          sofar := Some(novo);
        case Reboot(prefer) =>
          reserve := FromReserve(d.esp, prefer);
          session := Started(d.esp, prefer).value;
          sofar := None;
      }
    }
  }

  /** From `cur` on, no image follows another new one unless it is the image that booted. */
  predicate KeepsThrough(cur: Image, booted: Image, images: seq<Image>)
    decreases |images|
  {
    if images == [] then true
    else if images[0] == cur then KeepsThrough(cur, booted, images[1..])
    else (cur == booted || images[0] == booted) && KeepsThrough(images[0], booted, images[1..])
  }

  /** The updates of one session, uninterrupted and with space enough, with the firmware as witness. The image that
      booted is on the ESP after each of them if and only if the session started from the reserve, or no new image
      follows another new one. */
  method OneSession(d: Volume, reserve: bool, booted: Image, images: seq<Image>, guid: seq<Byte>, option: BootOption,
                    proc: Option<string>)
    returns (finished: bool, kept: bool)
    requires d.Valid() && d.life == Forever && Answers(option, guid, reserve)
    requires (if reserve then d.esp.previous else d.esp.current) == Some(booted)
    modifies d
    ensures finished ==> (kept <==> reserve || KeepsThrough(booted, booted, images))
  {
    finished, kept := true, true;
    ghost var cur := booted;
    for i := 0 to |images|
      invariant d.life == Forever && finished
      invariant kept && reserve ==> d.esp.previous == Some(booted)
      invariant kept && !reserve ==> d.esp.current == Some(cur) && (cur == booted || d.esp.previous == Some(booted))
      invariant reserve ==> kept
      invariant !reserve ==> (KeepsThrough(booted, booted, images) <==> kept && KeepsThrough(cur, booted, images[i..]))
    {
      assert images[i..][0] == images[i] && images[i..][1..] == images[i + 1..];
      var running := WhichRuns(Some(option), Some(guid), proc, d.esp.current, d.esp.previous);
      assert running == if reserve then Previous else Current;
      hide WhichRuns, Total, Answers;
      var o, _ := d.Rotate(images[i], running);
      if !o.Done? {
        return false, kept;
      }
      kept := kept && Holds(d.esp, booted);
      cur := images[i];
    }
  }

  /** Two updates in one session, with BootCurrent as the witness: both succeed, and the running image is gone. */
  method TwoUpdatesLoseBooted(guid: seq<Byte>, grows: nat -> bool) returns (d: Volume)
    ensures !Holds(d.esp, [1])
  {
    d := new Volume(Esp(Some([1]), None, None, true, true, true, 0, 2 * SLACK), 1, grows);
    var option := Some(BootOption("", Some(guid), Some(CURRENT_LOADER)));
    assert |Lower(CURRENT_LOADER)| != |Lower(PREVIOUS_LOADER)|;
    var running := WhichRuns(option, Some(guid), None, d.esp.current, d.esp.previous);
    var o, action := d.Rotate([2], running);
    assert d.esp.current == Some([2]) && d.esp.previous == Some([1]);
    running := WhichRuns(option, Some(guid), None, d.esp.current, d.esp.previous);
    o, action := d.Rotate([3], running);
  }

  /** A temporary left by a kill counts against the space check, although the rotation would remove it first. */
  method LeftoverBlocksRetry(grows: nat -> bool) returns (d: Volume, o: Result)
    ensures o.Died? && d.esp.temp.Some?
    ensures Enough(d.esp.(temp := None, free := d.esp.free + Occupied(Size(d.esp.temp), 1)), [1], Unknown)
  {
    d := new Volume(Esp(None, None, Some([1]), true, true, true, 0, SLACK), 1, grows);
    var action;
    o, action := d.Rotate([1], Unknown);
  }
}
