/** `command_publish` and its helpers, one method per C function, over a disk whose process may be killed before
    any system call. */
module LivePublish {
  import opened Durability
  import opened LiveJournal
  import opened LiveSteps

  datatype Reason =
    | OutputInvalid(base: Base) | OutputDiverges(base: Base)
    | PartialWithoutJournal | QuartetWithoutReady | ReadyWithoutOwner
    | StateInvalid(base: Base) | StateDiverges(base: Base) | StageInvalid(base: Base) | StageDiverges(base: Base)
    | ForeignTemp(base: Base) | NameExists(base: Base) | ForeignCollision(base: Base)
    | JournalNotEmpty | NotReconciled

  type Result = Outcome<Reason>

  /** `after` still has every output of `before`: same inode, same bytes, same mode. */
  ghost predicate Kept(before: Fs, after: Fs) {
    && (forall b :: Output(b) in before.parent.Live() ==>
          Output(b) in after.parent.Live() && after.parent.Live()[Output(b)] == before.parent.Live()[Output(b)])
    && (forall i :: i in before.files ==>
          i in after.files && (before.files[i].synced ==> after.files[i] == before.files[i]))
  }

  lemma KeptTrans(a: Fs, b: Fs, c: Fs)
    requires Kept(a, b) && Kept(b, c)
    ensures Kept(a, c)
  {
  }

  class Disk {
    var fs: Fs
    var life: Life

    constructor (fs: Fs)
      ensures this.fs == fs && life == Forever
    {
      this.fs := fs;
      life := Forever;
    }

    /** Every system call below starts here: the kill, if it is due, comes before the effect. */
    method Enter() returns (o: Result)
      modifies this`life
      ensures !o.Died?
      ensures old(life) == Forever ==> life == Forever && o.Done?
      ensures old(life) != Forever ==> life != Forever
    {
      if life == Calls(0) {
        return Killed;
      }
      life := life.Spent();
      return Done;
    }

    method MakeJournal() returns (o: Result)
      requires Journal !in fs.parent.Live()
      modifies this
      ensures !o.Died? && (o.Killed? ==> fs == old(fs))
      ensures old(life) == Forever ==> life == Forever && o.Done?
      ensures o.Done? ==> fs == JournalMade(old(fs))
    {
      o := Enter();
      if o.Done? {
        fs := JournalMade(fs);
      }
    }

    /** rmdir fails on a directory that still has names. */
    method RemoveJournal() returns (o: Result)
      requires Journal in fs.parent.Live()
      modifies this
      ensures o.Killed? || o.Died? ==> fs == old(fs)
      ensures old(life) == Forever ==> life == Forever && !o.Killed?
      ensures o.Died? ==> old(fs.journal.Live()) != map[]
      ensures o.Done? ==> fs == old(fs).(parent := old(fs).parent.Queue(Delete(Journal)))
    {
      o := Enter();
      if o.Done? {
        if fs.journal.Live() != map[] {
          return Died(JournalNotEmpty);
        }
        fs := fs.(parent := fs.parent.Queue(Delete(Journal)));
      }
    }

    method SyncParent() returns (o: Result)
      modifies this
      ensures !o.Died? && (o.Killed? ==> fs == old(fs))
      ensures old(life) == Forever ==> life == Forever && o.Done?
      ensures o.Done? ==> fs == old(fs).(parent := old(fs).parent.Synced())
    {
      o := Enter();
      if o.Done? {
        fs := fs.(parent := fs.parent.Synced());
      }
    }

    method SyncJournal() returns (o: Result)
      modifies this
      ensures !o.Died? && (o.Killed? ==> fs == old(fs))
      ensures old(life) == Forever ==> life == Forever && o.Done?
      ensures o.Done? ==> fs == old(fs).(journal := old(fs).journal.Synced())
    {
      o := Enter();
      if o.Done? {
        fs := fs.(journal := fs.journal.Synced());
      }
    }

    /** open with O_CREAT|O_EXCL and mode 0600. */
    method CreateTemp(b: Base) returns (o: Result)
      requires Temp(b) !in fs.journal.Live()
      modifies this
      ensures !o.Died? && (o.Killed? ==> fs == old(fs))
      ensures old(life) == Forever ==> life == Forever && o.Done?
      ensures o.Done? ==> fs == TempAdded(old(fs), b, File(Torn, Private, false))
    {
      o := Enter();
      if o.Done? {
        fs := TempAdded(fs, b, File(Torn, Private, false));
      }
    }

    /** write, fchmod and fsync on the open file of name `n`, which becomes `f`. */
    method Change(n: JName, f: File) returns (o: Result)
      requires n in fs.journal.Live()
      modifies this
      ensures !o.Died? && (o.Killed? ==> fs == old(fs))
      ensures old(life) == Forever ==> life == Forever && o.Done?
      ensures o.Done? ==> fs == old(fs).(files := old(fs).files[old(fs).journal.Live()[n] := f])
    {
      o := Enter();
      if o.Done? {
        fs := fs.(files := fs.files[fs.journal.Live()[n] := f]);
      }
    }

    /** renameat2 with RENAME_NOREPLACE inside the journal. */
    method RenameTemp(b: Base) returns (o: Result)
      requires Temp(b) in fs.journal.Live()
      modifies this
      ensures o.Killed? || o.Died? ==> fs == old(fs)
      ensures old(life) == Forever ==> life == Forever && !o.Killed?
      ensures o.Died? <==> !o.Killed? && Final(b) in old(fs).journal.Live()
      ensures o.Done? ==>
        fs == old(fs).(journal := old(fs).journal.Queue(Rename(Temp(b), Final(b), old(fs).journal.Live()[Temp(b)])))
    {
      o := Enter();
      if o.Done? {
        if Final(b) in fs.journal.Live() {
          return Died(NameExists(b));
        }
        fs := fs.(journal := fs.journal.Queue(Rename(Temp(b), Final(b), fs.journal.Live()[Temp(b)])));
      }
    }

    method Unlink(n: JName) returns (o: Result)
      requires n in fs.journal.Live()
      modifies this
      ensures !o.Died? && (o.Killed? ==> fs == old(fs))
      ensures old(life) == Forever ==> life == Forever && o.Done?
      ensures o.Done? ==> fs == old(fs).(journal := old(fs).journal.Queue(Delete(n)))
    {
      o := Enter();
      if o.Done? {
        fs := fs.(journal := fs.journal.Queue(Delete(n)));
      }
    }

    /** linkat from the staged file to the output; `made` is false on EEXIST. */
    method Link(b: Base) returns (o: Result, made: bool)
      requires Final(b) in fs.journal.Live()
      modifies this
      ensures !o.Died? && (o.Killed? || !made ==> fs == old(fs))
      ensures old(life) == Forever ==> life == Forever && o.Done?
      ensures o.Done? ==> made == (Output(b) !in old(fs).parent.Live())
      ensures o.Done? && made ==>
        fs == old(fs).(parent := old(fs).parent.Queue(Insert(Output(b), old(fs).journal.Live()[Final(b)])))
    {
      made := false;
      :- Enter();
      made := Output(b) !in fs.parent.Live();
      if made {
        fs := fs.(parent := fs.parent.Queue(Insert(Output(b), fs.journal.Live()[Final(b)])));
      }
      o := Done;
    }

    /** A power loss keeps the queued operations selected by the two sequences and leaves arbitrary bytes in every
        file that was not synced. */
    method LosePower(keepParent: seq<bool>, keepJournal: seq<bool>, garbage: nat -> File, ghost h: Hashes)
      requires Inv(fs, h)
      requires |keepParent| == |fs.parent.pending| && |keepJournal| == |fs.journal.pending|
      modifies this`fs
      ensures Inv(fs, h) && Quiet(fs)
      ensures fs.parent.Live() == Keep(old(fs).parent.durable, old(fs).parent.pending, keepParent)
      ensures Journal in fs.parent.Live() ==>
        fs.journal.Live() == Keep(old(fs).journal.durable, old(fs).journal.pending, keepJournal)
      ensures fs.files == map i | i in old(fs).files :: if old(fs).files[i].synced then old(fs).files[i] else garbage(i)
    {
      var p := Keep(fs.parent.durable, fs.parent.pending, keepParent);
      var j := Keep(fs.journal.durable, fs.journal.pending, keepJournal);
      SurvivorsAreSubsets(fs.parent.durable, fs.parent.pending, p);
      SurvivorsAreSubsets(fs.journal.durable, fs.journal.pending, j);
      var files := map i | i in fs.files :: if fs.files[i].synced then fs.files[i] else garbage(i);
      PowerLossKeepsInv(fs, h, p, j, files);
      fs := Fs(Directory(p, []), Directory(Seen(p, j).journal, []), files, fs.next);
    }
  }

  // ------------------------------------------------------------------------------------------
  // Journal files
  // ------------------------------------------------------------------------------------------

  /** `discard_known_temp`. */
  method DiscardKnownTemp(d: Disk, b: Base, ghost h: Hashes, ghost ph: Phase)
    returns (o: Result)
    requires QuietAt(d.fs, h, ph) && !ph.Absent?
    requires Temp(b) in d.fs.journal.durable ==> Next(ph, b) && HasTemp(ph)
    modifies d
    ensures old(d.life) == Forever ==> d.life == Forever && o.Done?
    ensures !o.Died? && Inv(d.fs, h)
    ensures d.fs.parent == old(d.fs.parent) && d.fs.files == old(d.fs.files)
    ensures Temp(b) !in old(d.fs.journal.durable) ==> d.fs == old(d.fs)
    ensures o.Done? ==> QuietAt(d.fs, h, if Temp(b) in old(d.fs.journal.durable) then WithTemp(ph, false) else ph)
  {
    QuietInv(d.fs, h, ph);
    var v := Live(d.fs);
    if Temp(b) !in v.journal {
      return Done;
    }
    JournalLinks(v, d.fs.files, h, ph, Temp(b));
    if NLink(v, v.journal[Temp(b)]) != 1 {
      return Died(ForeignTemp(b));
    }
    QuietEffect(d.fs.journal);
    TempGone(v, ph, b);
    UnlinkKeepsInv(d.fs, h, ph, Temp(b), WithTemp(ph, false));
    :- d.Unlink(Temp(b));
    :- d.SyncJournal();
    QuietInv(d.fs, h, WithTemp(ph, false));
    return Done;
  }

  lemma TempAddedFacts(fs: Fs, h: Hashes, ph: Phase, b: Base, f: File, g: File)
    requires QuietAt(fs, h, ph) && Next(ph, b) && !HasTemp(ph)
    ensures var t := TempAdded(fs, b, f);
      && Temp(b) !in fs.journal.durable && Final(b) !in fs.journal.durable
      && t.journal.Live() == fs.journal.durable[Temp(b) := fs.next]
      && t.(files := t.files[fs.next := g]) == TempAdded(fs, b, g)
  {
    QueueEffect(fs.journal, Insert(Temp(b), fs.next));
    assert fs.files[fs.next := f][fs.next := g] == fs.files[fs.next := g];
  }

  /** One write, fchmod or fsync on the temporary that was created in state `fs0` and now holds `f`. */
  method ChangeTemp(d: Disk, b: Base, g: File, ghost f: File, ghost fs0: Fs, ghost h: Hashes, ghost ph: Phase)
    returns (o: Result)
    requires QuietAt(fs0, h, ph) && Next(ph, b) && !HasTemp(ph) && d.fs == TempAdded(fs0, b, f)
    modifies d
    ensures old(d.life) == Forever ==> d.life == Forever && o.Done?
    ensures !o.Died? && Inv(d.fs, h) && d.fs == TempAdded(fs0, b, if o.Done? then g else f)
  {
    TempAddedFacts(fs0, h, ph, b, f, g);
    TempKeepsInv(fs0, h, ph, b, f);
    TempKeepsInv(fs0, h, ph, b, g);
    o := d.Change(Temp(b), g);
  }

  /** Write a temporary in two halves, give it its mode and sync it. */
  method WriteTemp(d: Disk, b: Base, text: Content, ghost h: Hashes, ghost ph: Phase) returns (o: Result)
    requires QuietAt(d.fs, h, ph) && Next(ph, b) && !HasTemp(ph)
    modifies d
    ensures old(d.life) == Forever ==> d.life == Forever && o.Done?
    ensures !o.Died? && Inv(d.fs, h)
    ensures o.Done? ==> d.fs == TempAdded(old(d.fs), b, File(text, ModeOf(b), true))
    ensures o.Killed? ==> d.fs == old(d.fs) || exists f :: d.fs == TempAdded(old(d.fs), b, f)
  {
    ghost var fs0 := d.fs;
    QuietInv(fs0, h, ph);
    TempAddedFacts(fs0, h, ph, b, File(Torn, Private, false), File(Torn, Private, false));
    :- d.CreateTemp(b);
    :- ChangeTemp(d, b, File(Torn, Private, false), File(Torn, Private, false), fs0, h, ph);
    :- ChangeTemp(d, b, File(text, Private, false), File(Torn, Private, false), fs0, h, ph);
    if b in PAYLOADS {
      :- ChangeTemp(d, b, File(text, Public, false), File(text, Private, false), fs0, h, ph);
    }
    o := ChangeTemp(d, b, File(text, ModeOf(b), true), File(text, ModeOf(b), false), fs0, h, ph);
  }

  /** Write the temporary, rename it over its final name, sync the journal. */
  method CreateDurably(d: Disk, b: Base, text: Content, ghost h: Hashes, ghost ph: Phase) returns (o: Result)
    requires QuietAt(d.fs, h, ph) && Next(ph, b) && !HasTemp(ph) && text == TextOf(b, h)
    modifies d
    ensures old(d.life) == Forever ==> d.life == Forever && o.Done?
    ensures !o.Died? && Inv(d.fs, h)
    ensures d.fs.parent == old(d.fs.parent) && Kept(old(d.fs), d.fs)
    ensures o.Done? ==> QuietAt(d.fs, h, Written(ph, b)) && Final(b) in d.fs.journal.durable
  {
    ghost var fs0 := d.fs;
    RenameKeepsInv(fs0, h, ph, b);
    RenameSurvivors(fs0.journal, b, fs0.next);
    TempAddedFacts(fs0, h, ph, b, Stored(b, h), Stored(b, h));
    :- WriteTemp(d, b, text, h, ph);
    o := d.RenameTemp(b);
    if o.IsFailure() {
      return;
    }
    :- d.SyncJournal();
    QuietInv(d.fs, h, Written(ph, b));
    return Done;
  }

  lemma FinalOrNext(v: View, ph: Phase, b: Base)
    requires Shape(v, ph)
    ensures Final(b) in v.journal && Next(ph, b) ==> false
    ensures Temp(b) in v.journal ==> Next(ph, b) && HasTemp(ph)
    ensures Next(ph, b) && Temp(b) !in v.journal ==> !HasTemp(ph)
  {
  }

  /** `ensure_state_file`: the file exists with exactly these bytes, or is created atomically. */
  method EnsureStateFile(d: Disk, b: Base, text: Content, ghost h: Hashes, ghost ph: Phase) returns (o: Result)
    requires b !in PAYLOADS && QuietAt(d.fs, h, ph) && !ph.Absent?
    requires Final(b) !in d.fs.journal.durable ==> Next(ph, b) && text == TextOf(b, h)
    modifies d
    ensures old(d.life) == Forever ==> d.life == Forever && !o.Killed?
    ensures Inv(d.fs, h) && d.fs.parent == old(d.fs.parent) && Kept(old(d.fs), d.fs)
    ensures o.Died? ==> o.reason == StateDiverges(b) && text != TextOf(b, h) && d.fs == old(d.fs)
    ensures o.Done? ==> text == TextOf(b, h) && QuietAt(d.fs, h, Written(ph, b))
    ensures o.Done? ==> Final(b) in d.fs.journal.durable
    ensures Final(b) in old(d.fs.journal.durable) ==> d.fs == old(d.fs)
  {
    FinalOrNext(Live(d.fs), ph, b);
    if Final(b) in Live(d.fs).journal {
      :- DiscardKnownTemp(d, b, h, ph);
      o := ValidateExistingState(d, b, text, h, ph);
      return;
    }
    :- DiscardKnownTemp(d, b, h, ph);
    ghost var ph' := WithTemp(ph, false);
    :- CreateDurably(d, b, text, h, ph');
    o := ValidateExistingState(d, b, text, h, Written(ph, b));
  }

  /** `validate_existing_state`. */
  method ValidateExistingState(d: Disk, b: Base, text: Content, ghost h: Hashes, ghost ph: Phase) returns (o: Result)
    requires b !in PAYLOADS && QuietAt(d.fs, h, ph) && !ph.Absent? && Final(b) in d.fs.journal.durable
    modifies d
    ensures old(d.life) == Forever ==> d.life == Forever && !o.Killed?
    ensures d.fs == old(d.fs) && Inv(d.fs, h)
    ensures o.Died? ==> o.reason == StateDiverges(b) && text != TextOf(b, h)
    ensures o.Done? ==> text == TextOf(b, h)
  {
    QuietInv(d.fs, h, ph);
    var v := Live(d.fs);
    var f := d.fs.files[v.journal[Final(b)]];
    JournalLinks(v, d.fs.files, h, ph, Final(b));
    if f.mode != Private || NLink(v, v.journal[Final(b)]) != 1 {
      return Died(StateInvalid(b));
    }
    if f.content != text {
      return Died(StateDiverges(b));
    }
    QuietEffect(d.fs.journal);
    ghost var fs0 := d.fs;
    :- d.Change(Final(b), f.(synced := true));
    assert d.fs.files == fs0.files;
    :- d.SyncJournal();
    assert d.fs == fs0;
    return Done;
  }

  /** `verify_stage_hash`, with the link check of `hash_at_regular`. */
  method VerifyStageHash(d: Disk, b: Base, expected: string, ghost h: Hashes, ghost ph: Phase) returns (o: Result)
    requires b in PAYLOADS && QuietAt(d.fs, h, ph) && !ph.Absent? && Final(b) in d.fs.journal.durable
    ensures !o.Killed? && (o.Done? <==> Payload(expected) == TextOf(b, h))
  {
    var v := Live(d.fs);
    var f := d.fs.files[v.journal[Final(b)]];
    JournalLinks(v, d.fs.files, h, ph, Final(b));
    if f.mode != Public || NLink(v, v.journal[Final(b)]) > 2 {
      return Died(StageInvalid(b));
    }
    if f.content != Payload(expected) {
      return Died(StageDiverges(b));
    }
    return Done;
  }

  /** `fsync_existing_stage`. */
  method FsyncExistingStage(d: Disk, b: Base, ghost h: Hashes, ghost ph: Phase) returns (o: Result)
    requires b in PAYLOADS && QuietAt(d.fs, h, ph) && !ph.Absent? && Final(b) in d.fs.journal.durable
    modifies d
    ensures old(d.life) == Forever ==> d.life == Forever && o.Done?
    ensures !o.Died? && d.fs == old(d.fs)
  {
    ghost var fs0 := d.fs;
    QuietEffect(d.fs.journal);
    :- d.Change(Final(b), d.fs.files[Live(d.fs).journal[Final(b)]].(synced := true));
    assert d.fs.files == fs0.files;
    :- d.SyncJournal();
    assert d.fs == fs0;
    return Done;
  }

  /** `ensure_stage_file`: `expected` is the hash of the source bytes. */
  method EnsureStageFile(d: Disk, b: Base, expected: string, ghost h: Hashes, ghost ph: Phase) returns (o: Result)
    requires b in PAYLOADS && QuietAt(d.fs, h, ph) && !ph.Absent? && Payload(expected) == TextOf(b, h)
    requires Final(b) !in d.fs.journal.durable ==> Next(ph, b)
    modifies d
    ensures old(d.life) == Forever ==> d.life == Forever && o.Done?
    ensures !o.Died? && Inv(d.fs, h) && d.fs.parent == old(d.fs.parent) && Kept(old(d.fs), d.fs)
    ensures o.Done? ==> QuietAt(d.fs, h, Written(ph, b)) && Final(b) in d.fs.journal.durable
  {
    QuietInv(d.fs, h, ph);
    FinalOrNext(Live(d.fs), ph, b);
    if Final(b) in Live(d.fs).journal {
      :- DiscardKnownTemp(d, b, h, ph);
      o := VerifyStageHash(d, b, expected, h, ph);
      if o.Done? {
        o := FsyncExistingStage(d, b, h, ph);
      }
      return;
    }
    :- DiscardKnownTemp(d, b, h, ph);
    ghost var ph' := WithTemp(ph, false);
    :- CreateDurably(d, b, Payload(expected), h, ph');
    o := VerifyStageHash(d, b, expected, h, Written(ph, b));
    if o.Done? {
      o := FsyncExistingStage(d, b, h, Written(ph, b));
    }
  }

  /** What `reconcile_link` finds when the output already exists. */
  lemma LinkedIsSound(fs: Fs, h: Hashes, outs: set<Base>, temp: bool, b: Base)
    requires LinkingAt(fs, h, outs, temp) && b in outs
    ensures var v := Live(fs);
      && Final(b) in v.journal && Output(b) in v.parent && v.journal[Final(b)] == v.parent[Output(b)]
      && v.parent[Output(b)] in fs.files && fs.files[v.parent[Output(b)]] == Stored(b, h)
      && NLink(v, v.parent[Output(b)]) == 2
  {
    var v := Live(fs);
    QuietEffect(fs.journal);
    assert v == View(fs.parent.Live(), fs.journal.durable);
    assert Final(b) in v.journal by { assert Rank(b) < 7; }
    OutputLinks(v, fs.files, h, Publishing(outs, temp), b);
  }

  /** A new name in the parent keeps every other. */
  lemma LinkKept(fs: Fs, b: Base)
    requires Output(b) !in fs.parent.Live() && Final(b) in fs.journal.durable
    ensures Kept(fs, Linked1(fs, b))
  {
    QueueEffect(fs.parent, Insert(Output(b), fs.journal.durable[Final(b)]));
  }

  /** Both cases of `linkat`. */
  lemma LinkCases(fs: Fs, h: Hashes, outs: set<Base>, temp: bool, b: Base)
    requires LinkingAt(fs, h, outs, temp) && b in PAYLOADS
    requires b == Efi && Efi !in outs ==> outs == SIDECARS && fs.parent.pending == []
    ensures Inv(fs, h) && fs.journal.Live() == fs.journal.durable && Final(b) in fs.journal.durable
    ensures Output(b) in fs.parent.Live() <==> b in outs
    ensures if b in outs then LinkingAt(fs, h, outs + {b}, temp) else
              LinkingAt(Linked1(fs, b), h, outs + {b}, temp) && Inv(Linked1(fs, b), h) && Kept(fs, Linked1(fs, b))
  {
    LinkingKeepsInv(fs, h, outs, temp);
    LinkFacts(fs, h, outs, temp, b);
    hide LinkingAt, Inv, Kept;
    if b in outs {
      assert outs + {b} == outs;
    } else {
      LinkStep(fs, h, outs, temp, b);
      LinkingKeepsInv(Linked1(fs, b), h, outs + {b}, temp);
      LinkKept(fs, b);
    }
  }

  lemma LinkFacts(fs: Fs, h: Hashes, outs: set<Base>, temp: bool, b: Base)
    requires LinkingAt(fs, h, outs, temp) && b in PAYLOADS
    ensures fs.journal.Live() == fs.journal.durable && Final(b) in fs.journal.durable
    ensures Output(b) in fs.parent.Live() <==> b in outs
  {
    QuietEffect(fs.journal);
    assert Rank(b) < 7;
    hide JournalSound, OutputsSound, Linked;
  }

  /** The checks of `reconcile_link` on EEXIST. */
  method CheckLink(d: Disk, b: Base, expected: string, ghost h: Hashes, ghost outs: set<Base>, ghost temp: bool)
    returns (o: Result)
    requires Payload(expected) == TextOf(b, h) && LinkingAt(d.fs, h, outs, temp) && b in outs
    ensures o.Done?
  {
    LinkedIsSound(d.fs, h, outs, temp, b);
    var v := Live(d.fs);
    var stage, output := v.journal[Final(b)], v.parent[Output(b)];
    if d.fs.files[stage].mode != Public || NLink(v, stage) > 2
      || d.fs.files[output].mode != Public || NLink(v, output) > 2 {
      return Died(StageInvalid(b));
    }
    if stage != output {
      return Died(ForeignCollision(b));
    }
    if d.fs.files[output].content != Payload(expected) {
      return Died(OutputDiverges(b));
    }
    return Done;
  }

  /** `reconcile_link`: link the staged file to its output, or recognise that a killed run already did. */
  method ReconcileLink(d: Disk, b: Base, expected: string, ghost h: Hashes, ghost outs: set<Base>, ghost temp: bool)
    returns (o: Result)
    requires b in PAYLOADS && Payload(expected) == TextOf(b, h)
    requires LinkingAt(d.fs, h, outs, temp)
    requires b == Efi && Efi !in outs ==> outs == SIDECARS && d.fs.parent.pending == []
    modifies d
    ensures old(d.life) == Forever ==> d.life == Forever && o.Done?
    ensures !o.Died? && Inv(d.fs, h) && d.fs.journal == old(d.fs.journal) && Kept(old(d.fs), d.fs)
    ensures o.Done? ==> LinkingAt(d.fs, h, outs + {b}, temp)
    ensures b in outs ==> d.fs == old(d.fs)
  {
    LinkCases(d.fs, h, outs, temp, b);
    ghost var fs0 := d.fs;
    var made;
    o, made := d.Link(b);
    if o.Done? {
      if made {
        assert d.fs == Linked1(fs0, b);
      } else {
        o := CheckLink(d, b, expected, h, outs, temp);
      }
    }
  }

  // ------------------------------------------------------------------------------------------
  // Cleanup
  // ------------------------------------------------------------------------------------------

  function HashOf(b: Base, q: Hashes): string
    requires b in PAYLOADS
  {
    match b
    case Efi => q.efi
    case Components => q.components
    case RunnerProof => q.runnerProof
    case Lock => q.lock
  }

  /** `cleanup_file`. */
  method CleanupFile(d: Disk, b: Base, q: Hashes, ghost gone: nat) returns (o: Result)
    requires QuietAt(d.fs, q, Cleaning(gone)) && CleanRank(b) <= gone
    modifies d
    ensures old(d.life) == Forever ==> d.life == Forever && o.Done?
    ensures !o.Died? && Inv(d.fs, q) && d.fs.parent == old(d.fs.parent) && d.fs.files == old(d.fs.files)
    ensures o.Done? ==> QuietAt(d.fs, q, Cleaning(if CleanRank(b) == gone then gone + 1 else gone))
  {
    QuietInv(d.fs, q, Cleaning(gone));
    var v := Live(d.fs);
    if Final(b) !in v.journal {
      return Done;
    }
    if d.fs.files[v.journal[Final(b)]].mode != ModeOf(b) {
      return Died(StateInvalid(b));
    }
    if b in PAYLOADS {
      o := VerifyStageHash(d, b, HashOf(b, q), q, Cleaning(gone));
      if o.IsFailure() {
        return;
      }
    }
    o := RemoveFinal(d, b, q, gone);
  }

  /** unlinkat of a journal file in the order of the cleanup, and the sync. */
  method RemoveFinal(d: Disk, b: Base, q: Hashes, ghost gone: nat) returns (o: Result)
    requires QuietAt(d.fs, q, Cleaning(gone)) && CleanRank(b) == gone && Final(b) in d.fs.journal.durable
    modifies d
    ensures old(d.life) == Forever ==> d.life == Forever && o.Done?
    ensures !o.Died? && Inv(d.fs, q) && d.fs.parent == old(d.fs.parent) && d.fs.files == old(d.fs.files)
    ensures o.Done? ==> QuietAt(d.fs, q, Cleaning(gone + 1))
  {
    QuietInv(d.fs, q, Cleaning(gone));
    QuietEffect(d.fs.journal);
    CleanedShape(Live(d.fs), gone, b);
    UnlinkKeepsInv(d.fs, q, Cleaning(gone), Final(b), Cleaning(gone + 1));
    hide At, Inv;
    :- d.Unlink(Final(b));
    :- d.SyncJournal();
    QuietInv(d.fs, q, Cleaning(gone + 1));
    return Done;
  }

  /** The outputs of a quiet state without a journal stand alone. */
  lemma AbsentIsPublished(fs: Fs, q: Hashes)
    requires Numbered(fs) && fs.parent.pending == [] && At(Live(fs), fs.files, q, Absent(true))
    ensures Published(fs, q)
  {
    var v := Live(fs);
    forall n ensures n in v.parent <==> n in set b | b in PAYLOADS :: Output(b) {
      match n { case Output(b) => case Journal => }
    }
    forall b | b in PAYLOADS ensures NLink(v, v.parent[Output(b)]) == 1 {
      OutputLinks(v, fs.files, q, Absent(true), b);
    }
  }

  /** `cleanup_transaction`: COMMITTED goes last, then the directory. */
  method CleanupTransaction(d: Disk, q: Hashes, ghost gone: nat) returns (o: Result)
    requires QuietAt(d.fs, q, Cleaning(gone))
    modifies d
    ensures old(d.life) == Forever ==> d.life == Forever && o.Done?
    ensures !o.Died? && Inv(d.fs, q) && Kept(old(d.fs), d.fs)
    ensures o.Done? ==> Published(d.fs, q)
  {
    ghost var fs0, g := d.fs, gone;
    QuietInv(d.fs, q, Cleaning(g));
    CleaningEnds(d.fs, q, g);
    SameKept(fs0, fs0);
    hide QuietAt, Inv, Published, Kept, CleanRank, CLEANUP_ORDER;
    var order := CLEANUP_ORDER;
    for i := 0 to 8
      invariant old(d.life) == Forever ==> d.life == Forever
      invariant QuietAt(d.fs, q, Cleaning(g)) && i <= g <= 8 && Inv(d.fs, q) && Kept(fs0, d.fs)
      invariant d.fs.parent == fs0.parent && d.fs.files == fs0.files
    {
      OrderRank(i);
      o := CleanupFile(d, order[i], q, g);
      SameKept(fs0, d.fs);
      if o.IsFailure() {
        return;
      }
      g := if i == g then g + 1 else g;
    }
    ghost var fs1 := d.fs;
    o := RemoveJournalDir(d, q);
    KeptTrans(fs0, fs1, d.fs);
  }

  const CLEANUP_ORDER: seq<Base> := [Efi, Components, RunnerProof, Lock, Ready, Request, Owner, Committed]

  lemma OrderRank(i: nat)
    requires i < 8
    ensures |CLEANUP_ORDER| == 8 && CleanRank(CLEANUP_ORDER[i]) == i
  {
  }

  lemma CleaningEnds(fs: Fs, q: Hashes, gone: nat)
    requires QuietAt(fs, q, Cleaning(gone))
    ensures gone <= 8
  {
  }

  lemma SameKept(a: Fs, b: Fs)
    requires b.parent == a.parent && b.files == a.files
    ensures Kept(a, b)
  {
  }

  /** rmdir of the empty journal and the final sync of the parent. */
  method RemoveJournalDir(d: Disk, q: Hashes) returns (o: Result)
    requires QuietAt(d.fs, q, Cleaning(8))
    modifies d
    ensures old(d.life) == Forever ==> d.life == Forever && o.Done?
    ensures !o.Died? && Inv(d.fs, q) && Kept(old(d.fs), d.fs)
    ensures o.Done? ==> Published(d.fs, q)
  {
    QuietInv(d.fs, q, Cleaning(8));
    RmdirKeepsInv(d.fs, q);
    QuietEffect(d.fs.journal);
    QueueEffect(d.fs.parent, Delete(Journal));
    o := d.RemoveJournal();
    if o.IsFailure() {
      return;
    }
    :- d.SyncParent();
    QuietInv(d.fs, q, Absent(true));
    AbsentIsPublished(d.fs, q);
    return Done;
  }

  // ------------------------------------------------------------------------------------------
  // command_publish
  // ------------------------------------------------------------------------------------------

  /** `output_matches`: whether the output exists; existing with other bytes is fatal. */
  method OutputMatches(d: Disk, b: Base, q: Hashes, allowLinkTwo: bool, ghost h: Hashes, ghost ph: Phase)
    returns (o: Result, present: bool)
    requires b in PAYLOADS && Numbered(d.fs) && At(Live(d.fs), d.fs.files, h, ph)
    requires Journal in Live(d.fs).parent ==> allowLinkTwo
    ensures !o.Killed? && (o.Died? ==> o.reason == OutputDiverges(b))
    ensures present == (Output(b) in Live(d.fs).parent)
    ensures o.Died? <==> present && TextOf(b, h) != TextOf(b, q)
    ensures o.Died? ==> !Compatible(Live(d.fs), d.fs.files, q)
  {
    var v := Live(d.fs);
    present := Output(b) in v.parent;
    if !present {
      return Done, false;
    }
    var i := v.parent[Output(b)];
    OutputLinks(v, d.fs.files, h, ph, b);
    if d.fs.files[i].mode != Public || NLink(v, i) > (if allowLinkTwo then 2 else 1) {
      return Died(OutputInvalid(b)), true;
    }
    if d.fs.files[i].content != Payload(HashOf(b, q)) {
      return Died(OutputDiverges(b)), true;
    }
    return Done, true;
  }

  lemma OnlyPayloads(v: View, files: map<nat, File>, h: Hashes, ph: Phase)
    requires At(v, files, h, ph)
    ensures forall b :: Output(b) in v.parent ==> b in PAYLOADS
  {
    assert forall b :: Output(b).Output? && Output(b).base == b;
  }

  /** A quiet state compatible with `q` is a state of `q`. */
  lemma Rebind(fs: Fs, h: Hashes, q: Hashes, ph: Phase)
    requires QuietAt(fs, h, ph) && Compatible(Live(fs), fs.files, q)
    ensures QuietAt(fs, q, ph)
  {
    var v := Live(fs);
    forall b | Output(b) in v.parent || Final(b) in v.journal ensures TextOf(b, h) == TextOf(b, q) {
      SameText(v, fs.files, h, q, ph, b);
    }
    hide Compatible, Shape, TextOf, Linked;
  }

  lemma SameText(v: View, files: map<nat, File>, h: Hashes, q: Hashes, ph: Phase, b: Base)
    requires At(v, files, h, ph) && Compatible(v, files, q) && (Output(b) in v.parent || Final(b) in v.journal)
    ensures TextOf(b, h) == TextOf(b, q)
  {
    if Final(Request) in v.journal {
      assert TextOf(Request, h) == TextOf(Request, q);
    } else {
      assert CleanRank(Request) == 5 && Rank(Request) == 1;
    }
    hide Linked;
  }

  /** The request that a quiet state belongs to, once `q` has matched every output. */
  lemma Bound(fs: Fs, h: Hashes, q: Hashes, ph: Phase) returns (k: Hashes)
    requires QuietAt(fs, h, ph)
    requires forall b | b in PAYLOADS && Output(b) in Live(fs).parent :: TextOf(b, h) == TextOf(b, q)
    ensures QuietAt(fs, k, ph) && Inv(fs, k) && (k == q <==> Compatible(Live(fs), fs.files, q)) && (k == q || k == h)
    ensures k != q ==> Final(Request) in fs.journal.durable
    ensures k != q && !ph.Cleaning? ==> Final(Owner) in fs.journal.durable
    ensures Live(fs) == View(fs.parent.durable, fs.journal.durable)
    ensures Final(Committed) in fs.journal.durable ==> ph.Cleaning?
  {
    k := h;
    if Compatible(Live(fs), fs.files, q) {
      Rebind(fs, h, q, ph);
      k := q;
    } else {
      assert Rank(Owner) < Rank(Request);
    }
    if k == q {
      AtIsCompatible(Live(fs), fs.files, q, ph);
    }
    assert Rank(Committed) == 7;
    QuietInv(fs, k, ph);
  }

  lemma AtIsCompatible(v: View, files: map<nat, File>, q: Hashes, ph: Phase)
    requires At(v, files, q, ph)
    ensures Compatible(v, files, q)
  {
  }

  /** Reopening an existing journal: both directories are synced before anything else. */
  lemma Reopened(fs: Fs, h: Hashes, ph: Phase)
    requires Inv(fs, h) && Journal in fs.parent.Live() && At(Live(fs), fs.files, h, ph)
    ensures QuietAt(Fs(fs.parent.Synced(), fs.journal.Synced(), fs.files, fs.next), h, ph)
  {
    var fs' := Fs(fs.parent.Synced(), fs.journal.Synced(), fs.files, fs.next);
    QuietEffect(fs'.parent);
    QuietEffect(fs'.journal);
  }

  /** All four outputs exist and so does a journal: finish the commit or the cleanup. */
  method PublishComplete(d: Disk, q: Hashes, ghost h: Hashes, ghost ph: Phase) returns (o: Result)
    requires QuietAt(d.fs, h, ph) && (ph.Cleaning? || (ph.Publishing? && ph.outs == PAYLOADS))
    requires forall b | b in PAYLOADS :: TextOf(b, h) == TextOf(b, q)
    modifies d
    ensures old(d.life) == Forever ==> d.life == Forever && !o.Killed?
    ensures Kept(old(d.fs), d.fs) && Inv(d.fs, if Compatible(Live(old(d.fs)), old(d.fs).files, q) then q else h)
    ensures o.Died? ==> o.reason == StateDiverges(Request) && d.fs == old(d.fs)
    ensures o.Died? ==> !Compatible(Live(old(d.fs)), old(d.fs).files, q)
    ensures o.Done? ==> Compatible(Live(old(d.fs)), old(d.fs).files, q) && Published(d.fs, q)
  {
    ghost var k := Bound(d.fs, h, q, ph);
    hide At, Inv, QuietAt, Quiet, Compatible;
    var v := Live(d.fs);
    if Final(Committed) in v.journal {
      o := FinishCommitted(d, q, k, ph);
    } else {
      o := FinishReady(d, q, k, ph);
    }
  }

  /** COMMITTED exists: only the cleanup is left. */
  method FinishCommitted(d: Disk, q: Hashes, ghost k: Hashes, ghost ph: Phase) returns (o: Result)
    requires QuietAt(d.fs, k, ph) && ph.Cleaning? && Final(Committed) in d.fs.journal.durable
    requires Final(Request) !in d.fs.journal.durable ==> k == q
    modifies d
    ensures old(d.life) == Forever ==> d.life == Forever && !o.Killed?
    ensures Kept(old(d.fs), d.fs) && Inv(d.fs, k)
    ensures o.Died? ==> o.reason == StateDiverges(Request) && d.fs == old(d.fs) && k != q
    ensures o.Done? ==> k == q && Published(d.fs, q)
  {
    hide At, Inv;
    QuietInv(d.fs, k, ph);
    o := EnsureStateFile(d, Committed, CommittedText, k, ph);
    if o.IsFailure() {
      return;
    }
    o := EnsureIfPresent(d, Owner, OwnerText, k, ph);
    if o.IsFailure() {
      return;
    }
    :- EnsureIfPresent(d, Request, RequestText(q), k, ph);
    assert k == q;
    o := EnsureIfPresent(d, Ready, ReadyText, k, ph);
    if o.IsFailure() {
      return;
    }
    o := CleanupTransaction(d, q, ph.gone);
  }

  /** No COMMITTED: the journal is READY with everything linked, or it is already empty. */
  method FinishReady(d: Disk, q: Hashes, ghost k: Hashes, ghost ph: Phase) returns (o: Result)
    requires QuietAt(d.fs, k, ph) && (ph.Cleaning? || (ph.Publishing? && ph.outs == PAYLOADS))
    requires Final(Committed) !in d.fs.journal.durable
    requires Final(Request) !in d.fs.journal.durable ==> k == q
    modifies d
    ensures old(d.life) == Forever ==> d.life == Forever && !o.Killed?
    ensures Kept(old(d.fs), d.fs) && Inv(d.fs, k)
    ensures o.Died? ==> o.reason == StateDiverges(Request) && d.fs == old(d.fs) && k != q
    ensures o.Done? ==> k == q && Published(d.fs, q)
  {
    hide At, Inv;
    QuietInv(d.fs, k, ph);
    var v := Live(d.fs);
    var haveReady := Final(Ready) in v.journal;
    var haveOwner, haveRequest := Final(Owner) in v.journal, Final(Request) in v.journal;
    UncommittedPhase(d.fs, k, ph);
    o := EnsureIfPresent(d, Owner, OwnerText, k, ph);
    if o.IsFailure() {
      return;
    }
    :- EnsureIfPresent(d, Request, RequestText(q), k, ph);
    assert k == q;
    if !haveReady {
      if haveOwner || haveRequest || v.journal != map[] {
        return Died(QuartetWithoutReady);
      }
      o := RemoveJournalDir(d, q);
      return;
    }
    if !haveOwner || !haveRequest {
      return Died(ReadyWithoutOwner);
    }
    o := CommitAgain(d, q, ph);
  }

  /** The journal is READY and everything is linked: look again, commit, clean up. */
  method CommitAgain(d: Disk, q: Hashes, ghost ph: Phase) returns (o: Result)
    requires QuietAt(d.fs, q, ph) && ph.Publishing? && ph.outs == PAYLOADS
    requires Final(Ready) in d.fs.journal.durable && Final(Committed) !in d.fs.journal.durable
    modifies d
    ensures old(d.life) == Forever ==> d.life == Forever && o.Done?
    ensures !o.Died? && Kept(old(d.fs), d.fs) && Inv(d.fs, q) && (o.Done? ==> Published(d.fs, q))
  {
    hide At, Inv;
    o := EnsureStateFile(d, Ready, ReadyText, q, ph);
    if o.IsFailure() {
      return;
    }
    o := Relink(d, q, ph);
    if o.IsFailure() {
      return;
    }
    o := EnsureStateFile(d, Committed, CommittedText, q, ph);
    if o.IsFailure() {
      return;
    }
    o := CleanupTransaction(d, q, 0);
  }

  /** All outputs and no COMMITTED: either READY, OWNER and REQUEST are there, or nothing is. */
  lemma UncommittedPhase(fs: Fs, k: Hashes, ph: Phase)
    requires QuietAt(fs, k, ph) && (ph.Cleaning? || (ph.Publishing? && ph.outs == PAYLOADS))
    requires Final(Committed) !in fs.journal.durable
    ensures ph.Publishing? ==>
      Final(Ready) in fs.journal.durable && Final(Owner) in fs.journal.durable && Final(Request) in fs.journal.durable
    ensures ph.Cleaning? ==> ph == Cleaning(8) && fs.journal.durable == map[]
  {
    if ph.Cleaning? {
      assert CleanRank(Committed) == 7;
      EmptyJournal(View(fs.parent.durable, fs.journal.durable));
    } else {
      assert Rank(Ready) == 6 && Rank(Owner) == 0 && Rank(Request) == 1;
    }
  }

  /** `validate_state_if_present`. */
  method EnsureIfPresent(d: Disk, b: Base, text: Content, ghost h: Hashes, ghost ph: Phase) returns (o: Result)
    requires b !in PAYLOADS && QuietAt(d.fs, h, ph) && !ph.Absent?
    modifies d
    ensures old(d.life) == Forever ==> d.life == Forever && !o.Killed?
    ensures Inv(d.fs, h) && d.fs == old(d.fs)
    ensures o.Died? ==> o.reason == StateDiverges(b) && Final(b) in d.fs.journal.durable && text != TextOf(b, h)
    ensures o.Done? && Final(b) in d.fs.journal.durable ==> text == TextOf(b, h)
  {
    QuietInv(d.fs, h, ph);
    FinalOrNext(Live(d.fs), ph, b);
    if Final(b) !in Live(d.fs).journal {
      return Done;
    }
    :- DiscardKnownTemp(d, b, h, ph);
    o := ValidateExistingState(d, b, text, h, ph);
  }

  /** The four staged hashes and links of a READY journal whose outputs all exist. */
  method Relink(d: Disk, q: Hashes, ghost ph: Phase) returns (o: Result)
    requires QuietAt(d.fs, q, ph) && ph.Publishing? && ph.outs == PAYLOADS
    modifies d
    ensures old(d.life) == Forever ==> d.life == Forever && o.Done?
    ensures !o.Died? && Inv(d.fs, q) && d.fs == old(d.fs)
  {
    hide At, Inv, LinkingAt, PartlyLinked;
    QuietInv(d.fs, q, ph);
    QuietIsLinking(d.fs, q, PAYLOADS, ph.temp);
    QuietEffect(d.fs.parent);
    var staged := [Efi, Components, RunnerProof, Lock];
    for i := 0 to 4
      invariant d.fs == old(d.fs) && (old(d.life) == Forever ==> d.life == Forever)
    {
      FinalIfPast(d.fs, q, ph, staged[i]);
      o := VerifyStageHash(d, staged[i], HashOf(staged[i], q), q, ph);
      if o.IsFailure() {
        return;
      }
    }
    var promoted := [Components, RunnerProof, Lock, Efi];
    for i := 0 to 4
      invariant d.fs == old(d.fs) && (old(d.life) == Forever ==> d.life == Forever)
    {
      o := ReconcileLink(d, promoted[i], HashOf(promoted[i], q), q, PAYLOADS, ph.temp);
      if o.IsFailure() {
        return;
      }
    }
    o := d.SyncParent();
  }

  /** Fewer than four outputs: write what the journal lacks, link the sidecars, then the EFI, commit, clean up. */
  method PublishRest(d: Disk, q: Hashes, ghost h: Hashes, ghost ph: Phase) returns (o: Result)
    requires QuietAt(d.fs, h, ph) && (ph.Filling? || (ph.Publishing? && ph.outs != PAYLOADS))
    requires forall b | b in PAYLOADS && Output(b) in Live(d.fs).parent :: TextOf(b, h) == TextOf(b, q)
    modifies d
    ensures old(d.life) == Forever ==> d.life == Forever && !o.Killed?
    ensures Kept(old(d.fs), d.fs) && Inv(d.fs, if Compatible(Live(old(d.fs)), old(d.fs).files, q) then q else h)
    ensures o.Died? ==> o.reason == StateDiverges(Request) && d.fs == old(d.fs)
    ensures o.Died? ==> !Compatible(Live(old(d.fs)), old(d.fs).files, q)
    ensures o.Done? ==> Compatible(Live(old(d.fs)), old(d.fs).files, q) && Published(d.fs, q)
  {
    hide *;
    ghost var k := Bound(d.fs, h, q, ph);
    ghost var fs0, cur := d.fs, ph;
    o, cur := BindJournal(d, q, k, ph);
    if !o.Done? {
      return;
    }
    ghost var fs1 := d.fs;
    o := StageAndPromote(d, q, cur);
    KeptTrans(fs0, fs1, d.fs);
  }

  /** OWNER and REQUEST: from here on the journal belongs to `q`, or the run dies having changed nothing. */
  method BindJournal(d: Disk, q: Hashes, ghost k: Hashes, ghost ph: Phase) returns (o: Result, ghost cur: Phase)
    requires QuietAt(d.fs, k, ph) && (ph.Filling? || (ph.Publishing? && ph.outs != PAYLOADS))
    requires k != q ==> Final(Request) in d.fs.journal.durable && Final(Owner) in d.fs.journal.durable
    modifies d
    ensures old(d.life) == Forever ==> d.life == Forever && !o.Killed?
    ensures Kept(old(d.fs), d.fs) && Inv(d.fs, k)
    ensures o.Died? ==> o.reason == StateDiverges(Request) && d.fs == old(d.fs) && k != q
    ensures o.Done? ==> k == q && QuietAt(d.fs, q, cur)
    ensures o.Done? ==> (cur.Filling? && cur.k >= 2) || (cur.Publishing? && cur.outs != PAYLOADS)
  {
    hide At, Inv, QuietAt, Quiet;
    FinalIfPast(d.fs, k, ph, Owner);
    cur := Written(ph, Owner);
    o := EnsureStateFile(d, Owner, OwnerText, k, ph);
    if o.IsFailure() {
      return;
    }
    FinalIfPast(d.fs, k, cur, Request);
    o := EnsureStateFile(d, Request, RequestText(q), k, cur);
    cur := Written(cur, Request);
  }

  /** A journal that has reached the rank of `b` either holds `b` or is about to. */
  lemma FinalIfPast(fs: Fs, h: Hashes, ph: Phase, b: Base)
    requires QuietAt(fs, h, ph) && Rank(b) < 7
    requires (ph.Filling? && ph.k >= Rank(b)) || ph.Publishing?
    ensures Final(b) in fs.journal.durable <==> !Next(ph, b)
    ensures ph.Filling? ==> ph.k < 7
  {
  }

  /** From REQUEST on: stage the four files, mark READY, promote. */
  method StageAndPromote(d: Disk, q: Hashes, ghost ph: Phase) returns (o: Result)
    requires QuietAt(d.fs, q, ph)
    requires (ph.Filling? && ph.k >= 2) || (ph.Publishing? && ph.outs != PAYLOADS)
    modifies d
    ensures old(d.life) == Forever ==> d.life == Forever && o.Done?
    ensures !o.Died? && Kept(old(d.fs), d.fs) && Inv(d.fs, q)
    ensures o.Done? ==> Published(d.fs, q)
  {
    hide At, Inv, QuietAt, Quiet;
    ghost var cur;
    o, cur := StageAll(d, q, ph);
    if o.IsFailure() {
      return;
    }
    FinalIfPast(d.fs, q, cur, Ready);
    o := EnsureStateFile(d, Ready, ReadyText, q, cur);
    if o.IsFailure() {
      return;
    }
    cur := Written(cur, Ready);
    PartialOuts(d.fs, q, cur.outs, cur.temp);
    o := Promote(d, q, cur.outs);
  }

  method StageAll(d: Disk, q: Hashes, ghost ph: Phase) returns (o: Result, ghost cur: Phase)
    requires QuietAt(d.fs, q, ph)
    requires (ph.Filling? && ph.k >= 2) || (ph.Publishing? && ph.outs != PAYLOADS)
    modifies d
    ensures old(d.life) == Forever ==> d.life == Forever && o.Done?
    ensures !o.Died? && Kept(old(d.fs), d.fs) && Inv(d.fs, q)
    ensures o.Done? ==>
              QuietAt(d.fs, q, cur) && ((cur.Filling? && cur.k >= 6) || (cur.Publishing? && cur.outs != PAYLOADS))
  {
    hide At, Inv, QuietAt, Quiet;
    cur := ph;
    ghost var fs0 := d.fs;
    QuietInv(d.fs, q, ph);
    var staged := [Efi, Components, RunnerProof, Lock];
    for i := 0 to 4
      invariant old(d.life) == Forever ==> d.life == Forever
      invariant QuietAt(d.fs, q, cur) && Inv(d.fs, q) && d.fs.parent == fs0.parent && Kept(fs0, d.fs)
      invariant (cur.Filling? && cur.k >= i + 2) || (cur.Publishing? && cur.outs != PAYLOADS)
    {
      var b := staged[i];
      assert Rank(b) == i + 2;
      FinalIfPast(d.fs, q, cur, b);
      o := EnsureStageFile(d, b, HashOf(b, q), q, cur);
      if o.IsFailure() {
        return;
      }
      cur := Written(cur, b);
    }
    o := Done;
  }

  lemma PartialOuts(fs: Fs, q: Hashes, outs: set<Base>, temp: bool)
    requires QuietAt(fs, q, Publishing(outs, temp)) && outs != PAYLOADS
    ensures outs <= SIDECARS && !temp
  {
  }

  /** The links of the three sidecars. */
  method LinkSidecars(d: Disk, q: Hashes, ghost outs: set<Base>) returns (o: Result)
    requires QuietAt(d.fs, q, Publishing(outs, false)) && outs != PAYLOADS
    modifies d
    ensures old(d.life) == Forever ==> d.life == Forever && o.Done?
    ensures !o.Died? && Kept(old(d.fs), d.fs) && Inv(d.fs, q) && d.fs.journal == old(d.fs.journal)
    ensures o.Done? ==> LinkingAt(d.fs, q, SIDECARS, false)
  {
    hide QuietAt, At, Inv, LinkingAt, PartlyLinked, Quiet;
    PartialOuts(d.fs, q, outs, false);
    QuietIsLinking(d.fs, q, outs, false);
    LinkingKeepsInv(d.fs, q, outs, false);
    :- ReconcileLink(d, Components, q.components, q, outs, false);
    :- ReconcileLink(d, RunnerProof, q.runnerProof, q, outs + {Components}, false);
    ghost var two := outs + {Components} + {RunnerProof};
    o := ReconcileLink(d, Lock, q.lock, q, two, false);
    assert two + {Lock} == SIDECARS;
  }

  /** The three sidecars, a sync of the parent, then the EFI and another sync. */
  method LinkOutputs(d: Disk, q: Hashes, ghost outs: set<Base>) returns (o: Result)
    requires QuietAt(d.fs, q, Publishing(outs, false)) && outs != PAYLOADS
    modifies d
    ensures old(d.life) == Forever ==> d.life == Forever && o.Done?
    ensures !o.Died? && Kept(old(d.fs), d.fs) && Inv(d.fs, q)
    ensures o.Done? ==> QuietAt(d.fs, q, Publishing(PAYLOADS, false))
  {
    hide QuietAt, At, Inv, LinkingAt, PartlyLinked, Quiet;
    o := LinkSidecars(d, q, outs);
    if o.IsFailure() {
      return;
    }
    LinkingKeepsInv(d.fs, q, SIDECARS, false);
    :- d.SyncParent();
    QuietEffect(d.fs.parent);
    QuietIsLinking(d.fs, q, SIDECARS, false);
    LinkingKeepsInv(d.fs, q, SIDECARS, false);
    :- ReconcileLink(d, Efi, q.efi, q, SIDECARS, false);
    LinkingKeepsInv(d.fs, q, SIDECARS + {Efi}, false);
    assert SIDECARS + {Efi} == PAYLOADS;
    :- d.SyncParent();
    QuietInv(d.fs, q, Publishing(PAYLOADS, false));
    return Done;
  }

  /** COMMITTED, the final check of the four outputs, cleanup. */
  method Promote(d: Disk, q: Hashes, ghost outs: set<Base>) returns (o: Result)
    requires QuietAt(d.fs, q, Publishing(outs, false)) && outs != PAYLOADS
    modifies d
    ensures old(d.life) == Forever ==> d.life == Forever && o.Done?
    ensures !o.Died? && Kept(old(d.fs), d.fs) && Inv(d.fs, q)
    ensures o.Done? ==> Published(d.fs, q)
  {
    hide At, Inv;
    :- LinkOutputs(d, q, outs);
    o := EnsureStateFile(d, Committed, CommittedText, q, Publishing(PAYLOADS, false));
    if o.IsFailure() {
      return;
    }
    o := CheckOutputs(d, q);
    if o.IsFailure() {
      return;
    }
    o := CleanupTransaction(d, q, 0);
  }

  method CheckOutputs(d: Disk, q: Hashes) returns (o: Result)
    requires QuietAt(d.fs, q, Cleaning(0))
    ensures o.Done?
  {
    var promoted := [Efi, Components, RunnerProof, Lock];
    for i := 0 to 4 {
      var present;
      o, present := OutputMatches(d, promoted[i], q, true, q, Cleaning(0));
      if o.IsFailure() {
        return;
      }
      if !present {
        return Died(NotReconciled);
      }
    }
    return Done;
  }

  /** `command_publish` for the request `q`, started on any state a crash can leave, of a request `h`. */
  method CommandPublish(d: Disk, q: Hashes, ghost h: Hashes) returns (o: Result)
    requires Inv(d.fs, h)
    modifies d
    ensures Kept(old(d.fs), d.fs)
    ensures Inv(d.fs, q) || (h != q && Inv(d.fs, h))
    ensures o.Died? ==> d.fs.parent.Live() == old(d.fs.parent.Live())
    ensures o.Died? ==> o.reason.OutputDiverges? || o.reason == StateDiverges(Request)
    ensures o.Died? ==> !Compatible(Live(old(d.fs)), old(d.fs).files, q)
    ensures o.Done? ==> Compatible(Live(old(d.fs)), old(d.fs).files, q) && Inv(d.fs, q) && Published(d.fs, q)
    ensures old(d.life) == Forever ==> d.life == Forever && !o.Killed?
  {
    InvLive(d.fs, h);
    ghost var ph :| At(Live(d.fs), d.fs.files, h, ph);
    if h == q {
      AtIsCompatible(Live(d.fs), d.fs.files, q, ph);
    }
    var journaled := Journal in Live(d.fs).parent;
    var some, all;
    o, some, all := FindOutputs(d, q, journaled, h, ph);
    if o.IsFailure() {
      return;
    }
    if some && !all && !journaled {
      return Died(PartialWithoutJournal);
    }
    if all && !journaled {
      o := SyncIdempotent(d, q, h);
    } else if !journaled {
      o := PublishFirst(d, q, h);
    } else {
      o := PublishAgain(d, q, all, h, ph);
    }
  }

  /** The four `output_matches` at the start of `command_publish`. */
  method FindOutputs(d: Disk, q: Hashes, journaled: bool, ghost h: Hashes, ghost ph: Phase)
    returns (o: Result, some: bool, all: bool)
    requires Numbered(d.fs) && At(Live(d.fs), d.fs.files, h, ph) && journaled == (Journal in Live(d.fs).parent)
    ensures !o.Killed? && (o.Died? ==> o.reason.OutputDiverges? && !Compatible(Live(d.fs), d.fs.files, q))
    ensures some <==> o.Done? && exists b :: Output(b) in Live(d.fs).parent
    ensures all <==> o.Done? && forall b | b in PAYLOADS :: Output(b) in Live(d.fs).parent
    ensures o.Done? ==> forall b | b in PAYLOADS && Output(b) in Live(d.fs).parent :: TextOf(b, h) == TextOf(b, q)
  {
    some, all := false, false;
    OnlyPayloads(Live(d.fs), d.fs.files, h, ph);
    FourOutputs(Live(d.fs));
    hide *;
    var haveEfi, haveComponents, haveRunner, haveLock;
    o, haveEfi := OutputMatches(d, Efi, q, journaled, h, ph);
    if !o.Done? {
      return;
    }
    o, haveComponents := OutputMatches(d, Components, q, journaled, h, ph);
    if !o.Done? {
      return;
    }
    o, haveRunner := OutputMatches(d, RunnerProof, q, journaled, h, ph);
    if !o.Done? {
      return;
    }
    o, haveLock := OutputMatches(d, Lock, q, journaled, h, ph);
    if !o.Done? {
      return;
    }
    some := haveEfi || haveComponents || haveRunner || haveLock;
    all := haveEfi && haveComponents && haveRunner && haveLock;
  }

  lemma FourOutputs(v: View)
    requires forall b :: Output(b) in v.parent ==> b in PAYLOADS
    ensures (exists b :: Output(b) in v.parent)
        <==> Output(Efi) in v.parent || Output(Components) in v.parent || Output(RunnerProof) in v.parent
             || Output(Lock) in v.parent
    ensures (forall b | b in PAYLOADS :: Output(b) in v.parent)
        <==> Output(Efi) in v.parent && Output(Components) in v.parent && Output(RunnerProof) in v.parent
             && Output(Lock) in v.parent
    ensures forall b | b in PAYLOADS :: b == Efi || b == Components || b == RunnerProof || b == Lock
    ensures Efi in PAYLOADS && Components in PAYLOADS && RunnerProof in PAYLOADS && Lock in PAYLOADS
  {
  }

  /** No journal and no outputs: make the journal and start. */
  method PublishFirst(d: Disk, q: Hashes, ghost h: Hashes) returns (o: Result)
    requires Inv(d.fs, h) && At(Live(d.fs), d.fs.files, h, Absent(false))
    modifies d
    ensures old(d.life) == Forever ==> d.life == Forever && o.Done?
    ensures !o.Died? && Kept(old(d.fs), d.fs) && (Inv(d.fs, q) || (h != q && Inv(d.fs, h)))
    ensures o.Done? ==> Published(d.fs, q) && Inv(d.fs, q)
  {
    ghost var fs0 := d.fs;
    assert Outs(Live(d.fs)) == {};
    MkdirKeepsInv(d.fs, h, q);
    QuietEffect(d.fs.parent);
    QueueEffect(d.fs.parent, Insert(Journal, JOURNAL_INODE));
    :- d.MakeJournal();
    :- d.SyncParent();
    o := PublishFromEmpty(d, q);
  }

  method PublishFromEmpty(d: Disk, q: Hashes) returns (o: Result)
    requires QuietAt(d.fs, q, Filling(0, false))
    modifies d
    ensures old(d.life) == Forever ==> d.life == Forever && o.Done?
    ensures !o.Died? && Kept(old(d.fs), d.fs) && Inv(d.fs, q)
    ensures o.Done? ==> Published(d.fs, q)
  {
    AtIsCompatible(Live(d.fs), d.fs.files, q, Filling(0, false));
    o := PublishRest(d, q, q, Filling(0, false));
  }

  /** A journal exists: sync both directories, then go on from the phase it is in. */
  method PublishAgain(d: Disk, q: Hashes, all: bool, ghost h: Hashes, ghost ph: Phase) returns (o: Result)
    requires Inv(d.fs, h) && At(Live(d.fs), d.fs.files, h, ph) && Journal in d.fs.parent.Live()
    requires all <==> forall b | b in PAYLOADS :: Output(b) in Live(d.fs).parent
    requires forall b | b in PAYLOADS && Output(b) in Live(d.fs).parent :: TextOf(b, h) == TextOf(b, q)
    modifies d
    ensures old(d.life) == Forever ==> d.life == Forever && !o.Killed?
    ensures Kept(old(d.fs), d.fs)
    ensures Inv(d.fs, q) || (Inv(d.fs, h) && (o.Killed? || !Compatible(Live(old(d.fs)), old(d.fs).files, q)))
    ensures o.Died? ==> o.reason == StateDiverges(Request) && Live(d.fs) == Live(old(d.fs))
    ensures o.Died? ==> !Compatible(Live(old(d.fs)), old(d.fs).files, q)
    ensures o.Done? ==> Compatible(Live(old(d.fs)), old(d.fs).files, q) && Published(d.fs, q) && Inv(d.fs, q)
  {
    ghost var fs0 := d.fs;
    SyncKeepsInv(d.fs, h);
    Reopened(d.fs, h, ph);
    :- d.SyncParent();
    SyncKeepsInv(d.fs, h);
    :- d.SyncJournal();
    QuietInv(d.fs, h, ph);
    assert Live(d.fs) == Live(fs0) && Kept(fs0, d.fs);
    if all {
      o := PublishComplete(d, q, h, ph);
    } else {
      o := PublishRest(d, q, h, ph);
    }
  }

  /** The idempotent case: four matching outputs and no journal. */
  method SyncIdempotent(d: Disk, q: Hashes, ghost h: Hashes) returns (o: Result)
    requires Inv(d.fs, h) && At(Live(d.fs), d.fs.files, h, Absent(true))
    requires forall b | b in PAYLOADS :: TextOf(b, h) == TextOf(b, q)
    modifies d
    ensures old(d.life) == Forever ==> d.life == Forever && o.Done?
    ensures !o.Died? && Kept(old(d.fs), d.fs)
    ensures Inv(d.fs, if o.Done? then q else h)
    ensures o.Done? ==> Published(d.fs, q) && Compatible(Live(old(d.fs)), old(d.fs).files, q)
  {
    ghost var fs0 := d.fs;
    :- d.SyncParent();
    assert At(Live(d.fs), d.fs.files, q, Absent(true));
    AbsentIsPublished(d.fs, q);
    forall p, j | p in d.fs.parent.AfterPowerLoss() && j in d.fs.journal.AfterPowerLoss()
      ensures Good(Seen(p, j), d.fs.files, q)
    {
      assert Seen(p, j) == Live(d.fs);
    }
    return Done;
  }

  // ------------------------------------------------------------------------------------------
  // Any number of runs and crashes
  // ------------------------------------------------------------------------------------------

  /** A run of `command_publish` cut after `calls` system calls, or a power loss: operation `i` of a directory
      survives iff `keep` says so, and unsynced files end up holding `garbage`. */
  datatype Event =
    | Cut(q: Hashes, calls: nat)
    | PowerLoss(keepParent: nat -> bool, keepJournal: nat -> bool, garbage: nat -> File)

  const NOTHING := Fs(Directory(map[], []), Directory(map[], []), map[], 1)

  lemma NothingIsInv(h: Hashes)
    ensures Inv(NOTHING, h)
  {
    var none: map<PName, nat> := map[];
    QuietEffect(NOTHING.parent);
    QuietEffect(NOTHING.journal);
    assert At(View(none, map[]), map[], h, Absent(false));
    assert Seen(none, map[]) == View(none, map[]);
  }

  method Suffer(d: Disk, event: Event, ghost h: Hashes)
    requires Inv(d.fs, h)
    modifies d
    ensures Inv(d.fs, h) || (event.Cut? && Inv(d.fs, event.q))
  {
    match event {
      case Cut(q, calls) =>
        d.life := Calls(calls);
        var _ := CommandPublish(d, q, h);
      case PowerLoss(keepParent, keepJournal, garbage) =>
        d.LosePower(seq(|d.fs.parent.pending|, i requires i >= 0 => keepParent(i)),
                    seq(|d.fs.journal.pending|, i requires i >= 0 => keepJournal(i)), garbage, h);
    }
  }

  /** Recovery. After any number of runs for `q`, each cut anywhere, mixed with any power losses, one uninterrupted
      run for `q` ends with the four outputs of `q` and no journal. */
  method RecoverAfterAnything(events: seq<Event>, q: Hashes) returns (d: Disk, o: Result)
    requires forall e | e in events :: e.Cut? ==> e.q == q
    ensures o.Done? && Published(d.fs, q) && FourFiles(d.fs, q)
  {
    d := new Disk(NOTHING);
    NothingIsInv(q);
    for i := 0 to |events|
      invariant Inv(d.fs, q)
    {
      assert events[i] in events;
      Suffer(d, events[i], q);
    }
    d.life := Forever;
    InvLive(d.fs, q);
    ghost var ph :| At(Live(d.fs), d.fs.files, q, ph);
    AtIsCompatible(Live(d.fs), d.fs.files, q, ph);
    o := CommandPublish(d, q, q);
    PublishedIsFourFiles(d.fs, q);
  }

  /** Generations never mix. After any runs for any requests, cut anywhere, and any power losses, the directory still
      satisfies the invariant for one single request, and is safe after any further power loss. An uninterrupted run
      for `q` then succeeds exactly when the outputs and REQUEST that are there are those of `q`, and otherwise leaves
      every output as it was. */
  method GenerationsNeverMix(events: seq<Event>, q: Hashes) returns (d: Disk, o: Result, before: Fs, ghost h: Hashes)
    ensures Inv(before, h) && Kept(before, d.fs)
    ensures forall p, j | p in before.parent.AfterPowerLoss() && j in before.journal.AfterPowerLoss() ::
      SafeView(Seen(p, j), before.files, h)
    ensures o.Done? <==> Compatible(Live(before), before.files, q)
    ensures if o.Done? then Published(d.fs, q) else d.fs.parent.Live() == before.parent.Live()
  {
    d := new Disk(NOTHING);
    h := q;
    NothingIsInv(h);
    for i := 0 to |events|
      invariant Inv(d.fs, h)
    {
      ghost var event := events[i];
      Suffer(d, events[i], h);
      if !Inv(d.fs, h) {
        h := event.q;
      }
    }
    d.life := Forever;
    before := d.fs;
    forall p, j | p in before.parent.AfterPowerLoss() && j in before.journal.AfterPowerLoss()
      ensures SafeView(Seen(p, j), before.files, h)
    {
      DurableSafety(before, h, p, j);
    }
    o := CommandPublish(d, q, h);
  }
}
