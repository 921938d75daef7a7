/** Each group of system calls of the live publication, followed from one quiet phase to the next. */
module LiveSteps {
  import opened Durability
  import opened LiveJournal

  /** `b` is the next journal file to be written in phase `ph`. */
  predicate Next(ph: Phase, b: Base) {
    match ph
    case Filling(k, _) => k == Rank(b)
    case Publishing(outs, _) => b == Committed && outs == PAYLOADS
    case _ => false
  }

  function WithTemp(ph: Phase, temp: bool): Phase
    requires ph.Filling? || ph.Publishing?
  {
    if ph.Filling? then Filling(ph.k, temp) else Publishing(ph.outs, temp)
  }

  /** The phase once `b` is durable. */
  function Written(ph: Phase, b: Base): Phase {
    if !Next(ph, b) then ph
    else if b == Committed then Cleaning(0)
    else if b == Ready then Publishing({}, false)
    else Filling(Rank(b) + 1, false)
  }

  function TempAdded(fs: Fs, b: Base, f: File): Fs {
    Fs(fs.parent, fs.journal.Queue(Insert(Temp(b), fs.next)), fs.files[fs.next := f], fs.next + 1)
  }

  function TempRenamed(fs: Fs, b: Base, f: File): Fs {
    Fs(fs.parent, fs.journal.Queue(Insert(Temp(b), fs.next)).Queue(Rename(Temp(b), Final(b), fs.next)),
       fs.files[fs.next := f], fs.next + 1)
  }

  lemma TempShape(v: View, ph: Phase, b: Base, i: nat)
    requires Shape(v, ph) && Next(ph, b) && !HasTemp(ph)
    ensures Shape(v.(journal := v.journal[Temp(b) := i]), WithTemp(ph, true))
  {
  }

  lemma FinalShape(v: View, ph: Phase, b: Base, i: nat)
    requires Shape(v, ph) && Next(ph, b) && !HasTemp(ph)
    ensures Shape(v.(journal := v.journal[Final(b) := i]), Written(ph, b))
  {
  }

  /** A new inode under a new name `n` disturbs no name that already exists. */
  lemma FreshFile(v: View, files: map<nat, File>, h: Hashes, ph: Phase, n: JName, i: nat, f: File)
    requires At(v, files, h, ph) && i !in files && n !in v.journal
    requires n.Final? ==> f == Stored(n.base, h) && Output(n.base) !in v.parent
    ensures At(v, files[i := f], h, ph)
    ensures JournalSound(v.journal[n := i], files[i := f], h)
    ensures OutputsSound(v.parent, files[i := f], h)
    ensures Linked(v.parent, v.journal[n := i])
  {
  }

  predicate HasTemp(ph: Phase) { (ph.Filling? || ph.Publishing?) && ph.temp }

  /** With a quiet parent, only the journal's queued operations can be lost. */
  lemma InvByJournal(fs: Fs, h: Hashes, js: set<map<JName, nat>>)
    requires Numbered(fs) && fs.parent.pending == [] && Journal in fs.parent.durable
    requires fs.journal.AfterPowerLoss() == js
    requires forall j :: j in js ==> Good(View(fs.parent.durable, j), fs.files, h)
    ensures Inv(fs, h)
  {
    QuietEffect(fs.parent);
    forall p, j | p in fs.parent.AfterPowerLoss() && j in fs.journal.AfterPowerLoss()
      ensures Good(Seen(p, j), fs.files, h)
    {
      assert Seen(p, j) == View(fs.parent.durable, j);
    }
  }

  /** While the temporary is being written, a crash leaves it behind or not; its bytes do not matter. */
  lemma TempKeepsInv(fs: Fs, h: Hashes, ph: Phase, b: Base, f: File)
    requires QuietAt(fs, h, ph) && Next(ph, b) && !HasTemp(ph)
    ensures Inv(TempAdded(fs, b, f), h)
  {
    var d, i := fs.journal.durable, fs.next;
    var v := View(fs.parent.durable, d);
    QuietEffect(fs.journal);
    QueueEffect(fs.journal, Insert(Temp(b), i));
    TempShape(v, ph, b, i);
    FreshFile(v, fs.files, h, ph, Temp(b), i, f);
    assert At(v, fs.files[i := f], h, ph);
    assert At(v.(journal := d[Temp(b) := i]), fs.files[i := f], h, WithTemp(ph, true));
    InvByJournal(TempAdded(fs, b, f), h, {d, d[Temp(b) := i]});
  }

  /** The rename publishes the name atomically; until the directory is synced the file may be gone, still
      temporary, or final. */
  lemma RenameKeepsInv(fs: Fs, h: Hashes, ph: Phase, b: Base)
    requires QuietAt(fs, h, ph) && Next(ph, b) && !HasTemp(ph)
    ensures Inv(TempRenamed(fs, b, Stored(b, h)), h)
    ensures var fs' := TempRenamed(fs, b, Stored(b, h));
      QuietAt(fs'.(journal := fs'.journal.Synced()), h, Written(ph, b))
  {
    var d, i, f := fs.journal.durable, fs.next, Stored(b, h);
    var v := View(fs.parent.durable, d);
    var fs' := TempRenamed(fs, b, f);
    RenameSurvivors(fs.journal, b, i);
    RenameViews(v, fs.files, h, ph, b, i);
    assert Journal in fs.parent.durable && i !in fs.files;
    hide At, WithTemp, Written, Survivors, Replay;
    InvByJournal(fs', h, {d, d[Temp(b) := i], d[Final(b) := i]});
  }

  /** Without the new file, with its temporary name, and with its final name. */
  lemma RenameViews(v: View, files: map<nat, File>, h: Hashes, ph: Phase, b: Base, i: nat)
    requires At(v, files, h, ph) && Next(ph, b) && !HasTemp(ph) && i !in files
    ensures var f := files[i := Stored(b, h)];
      && Temp(b) !in v.journal && At(v, f, h, ph)
      && At(v.(journal := v.journal[Temp(b) := i]), f, h, WithTemp(ph, true))
      && At(v.(journal := v.journal[Final(b) := i]), f, h, Written(ph, b))
  {
    TempShape(v, ph, b, i);
    FinalShape(v, ph, b, i);
    FreshFile(v, files, h, ph, Temp(b), i, Stored(b, h));
    FreshFile(v, files, h, ph, Final(b), i, Stored(b, h));
    hide Shape, JournalSound, OutputsSound, Linked, WithTemp, Written;
  }

  lemma RenameSurvivors(journal: Directory<JName>, b: Base, i: nat)
    requires journal.pending == [] && Temp(b) !in journal.durable
    ensures var d, j := journal.durable, journal.Queue(Insert(Temp(b), i)).Queue(Rename(Temp(b), Final(b), i));
      j.AfterPowerLoss() == {d, d[Temp(b) := i], d[Final(b) := i]} && j.Live() == d[Final(b) := i]
  {
    var d := journal.durable;
    QuietEffect(journal);
    QueueEffect(journal, Insert(Temp(b), i));
    QueueEffect(journal.Queue(Insert(Temp(b), i)), Rename(Temp(b), Final(b), i));
    assert d - {Temp(b)} == d;
    assert d[Temp(b) := i] - {Temp(b)} == d;
  }

  /** Removing a name from the journal disturbs no other name. */
  lemma NameGone(v: View, files: map<nat, File>, h: Hashes, ph: Phase, n: JName)
    requires At(v, files, h, ph)
    ensures JournalSound(v.journal - {n}, files, h) && Linked(v.parent, v.journal - {n})
  {
  }

  lemma TempGone(v: View, ph: Phase, b: Base)
    requires Shape(v, ph) && Next(ph, b) && HasTemp(ph)
    ensures Shape(v.(journal := v.journal - {Temp(b)}), WithTemp(ph, false))
  {
  }

  lemma CleanedShape(v: View, gone: nat, b: Base)
    requires Shape(v, Cleaning(gone)) && CleanRank(b) == gone
    ensures Shape(v.(journal := v.journal - {Final(b)}), Cleaning(gone + 1))
  {
    var j := v.journal - {Final(b)};
    forall c ensures Final(c) in j <==> CleanRank(c) >= gone + 1 {
      assert CleanRank(c) == gone ==> c == b;
    }
  }

  /** Unlinking one journal name `n` and then syncing the journal. */
  lemma UnlinkKeepsInv(fs: Fs, h: Hashes, ph: Phase, n: JName, ph': Phase)
    requires QuietAt(fs, h, ph) && !ph.Absent? && !ph'.Absent?
    requires var v := View(fs.parent.durable, fs.journal.durable); Shape(v.(journal := v.journal - {n}), ph')
    ensures var fs' := fs.(journal := fs.journal.Queue(Delete(n)));
      Inv(fs', h) && QuietAt(fs'.(journal := fs'.journal.Synced()), h, ph')
  {
    var d, p := fs.journal.durable, fs.parent.durable;
    var fs' := fs.(journal := fs.journal.Queue(Delete(n)));
    QuietEffect(fs.journal);
    QueueEffect(fs.journal, Delete(n));
    NameGone(View(p, d), fs.files, h, ph, n);
    assert At(View(p, d - {n}), fs.files, h, ph');
    assert At(View(p, d), fs.files, h, ph);
    InvByJournal(fs', h, {d, d - {n}});
  }

  // ------------------------------------------------------------------------------------------
  // Linking the outputs
  // ------------------------------------------------------------------------------------------

  /** `outs` are linked; of those, the links queued since the last sync of the parent may be lost. */
  ghost predicate LinkingAt(fs: Fs, h: Hashes, outs: set<Base>, temp: bool) {
    && Numbered(fs) && fs.journal.pending == []
    && At(View(fs.parent.Live(), fs.journal.durable), fs.files, h, Publishing(outs, temp))
    && forall p :: p in fs.parent.AfterPowerLoss() ==> PartlyLinked(fs, h, outs, temp, p)
  }

  ghost predicate PartlyLinked(fs: Fs, h: Hashes, outs: set<Base>, temp: bool, p: map<PName, nat>) {
    exists o :: o <= outs && (fs.parent.pending == [] ==> o == outs)
             && At(View(p, fs.journal.durable), fs.files, h, Publishing(o, temp))
  }

  function Linked1(fs: Fs, b: Base): Fs
    requires Final(b) in fs.journal.durable
  {
    fs.(parent := fs.parent.Queue(Insert(Output(b), fs.journal.durable[Final(b)])))
  }

  lemma QuietIsLinking(fs: Fs, h: Hashes, outs: set<Base>, temp: bool)
    requires QuietAt(fs, h, Publishing(outs, temp))
    ensures LinkingAt(fs, h, outs, temp)
  {
    QuietEffect(fs.parent);
    assert PartlyLinked(fs, h, outs, temp, fs.parent.durable);
  }

  lemma LinkingKeepsInv(fs: Fs, h: Hashes, outs: set<Base>, temp: bool)
    requires LinkingAt(fs, h, outs, temp)
    ensures Inv(fs, h)
    ensures QuietAt(fs.(parent := fs.parent.Synced()), h, Publishing(outs, temp))
  {
    QuietEffect(fs.journal);
    forall p, j | p in fs.parent.AfterPowerLoss() && j in fs.journal.AfterPowerLoss()
      ensures Good(Seen(p, j), fs.files, h)
    {
      assert PartlyLinked(fs, h, outs, temp, p);
      var o :| At(View(p, fs.journal.durable), fs.files, h, Publishing(o, temp));
      assert Seen(p, j) == View(p, fs.journal.durable);
    }
  }

  lemma OutputShape(v: View, outs: set<Base>, temp: bool, b: Base, i: nat)
    requires Shape(v, Publishing(outs, temp)) && b in PAYLOADS && b !in outs
    requires b == Efi ==> outs == SIDECARS
    ensures Final(b) in v.journal
    ensures Shape(v.(parent := v.parent[Output(b) := i]), Publishing(outs + {b}, temp))
  {
    assert Final(b) in v.journal by { assert Rank(b) < 7; }
    assert Efi in outs + {b} ==> outs + {b} == PAYLOADS;
  }

  /** The staged file under the name of output `b`, which is new. */
  lemma LinkSound(parent: map<PName, nat>, journal: map<JName, nat>, files: map<nat, File>, h: Hashes, b: Base)
    requires JournalSound(journal, files, h) && OutputsSound(parent, files, h) && Linked(parent, journal)
    requires Final(b) in journal && Output(b) !in parent
    ensures OutputsSound(parent[Output(b) := journal[Final(b)]], files, h)
    ensures Linked(parent[Output(b) := journal[Final(b)]], journal)
  {
    var p' := parent[Output(b) := journal[Final(b)]];
    forall c, n | Output(c) in p' && n in journal
      ensures p'[Output(c)] == journal[n] <==> n == Final(c)
    {
      if c != b { assert Output(c) in parent && p'[Output(c)] == parent[Output(c)]; }
    }
  }

  lemma OutputLinked(v: View, files: map<nat, File>, h: Hashes, outs: set<Base>, temp: bool, b: Base)
    requires At(v, files, h, Publishing(outs, temp)) && b in PAYLOADS && b !in outs
    requires b == Efi ==> outs == SIDECARS
    ensures Final(b) in v.journal
    ensures At(v.(parent := v.parent[Output(b) := v.journal[Final(b)]]), files, h, Publishing(outs + {b}, temp))
  {
    OutputShape(v, outs, temp, b, if Final(b) in v.journal then v.journal[Final(b)] else 0);
    LinkSound(v.parent, v.journal, files, h, b);
  }

  /** A crash state `u` of the parent, with one more link in it. */
  lemma LinkedSurvivor(fs: Fs, h: Hashes, outs: set<Base>, temp: bool, b: Base, u: map<PName, nat>)
    requires PartlyLinked(fs, h, outs, temp, u) && b in PAYLOADS && b !in outs
    requires b == Efi ==> outs == SIDECARS && fs.parent.pending == []
    ensures Final(b) in fs.journal.durable
    ensures var p := u[Output(b) := fs.journal.durable[Final(b)]];
      exists o :: o <= outs + {b} && At(View(p, fs.journal.durable), fs.files, h, Publishing(o, temp))
  {
    hide At;
    var j := fs.journal.durable;
    var o :| o <= outs && (fs.parent.pending == [] ==> o == outs) && At(View(u, j), fs.files, h, Publishing(o, temp));
    OutputLinked(View(u, j), fs.files, h, o, temp, b);
    assert View(u, j).(parent := u[Output(b) := j[Final(b)]]) == View(u[Output(b) := j[Final(b)]], j);
    assert o + {b} <= outs + {b};
  }

  /** One more hard link; the EFI only once the sidecars are durable. */
  lemma LinkStep(fs: Fs, h: Hashes, outs: set<Base>, temp: bool, b: Base)
    requires LinkingAt(fs, h, outs, temp) && b in PAYLOADS && b !in outs
    requires b == Efi ==> outs == SIDECARS && fs.parent.pending == []
    ensures Final(b) in fs.journal.durable && LinkingAt(Linked1(fs, b), h, outs + {b}, temp)
  {
    hide At;
    var j := fs.journal.durable;
    OutputLinked(View(fs.parent.Live(), j), fs.files, h, outs, temp, b);
    var op := Insert(Output(b), j[Final(b)]);
    QueueEffect(fs.parent, op);
    var fs' := Linked1(fs, b);
    forall p | p in fs'.parent.AfterPowerLoss()
      ensures PartlyLinked(fs', h, outs + {b}, temp, p)
    {
      if p in fs.parent.AfterPowerLoss() {
        assert PartlyLinked(fs, h, outs, temp, p);
        var o :| o <= outs && At(View(p, j), fs.files, h, Publishing(o, temp));
      } else {
        var u :| u in fs.parent.AfterPowerLoss() && p == Perform(u, op);
        LinkedSurvivor(fs, h, outs, temp, b, u);
      }
    }
  }

  // ------------------------------------------------------------------------------------------
  // Making, reopening and removing the journal directory
  // ------------------------------------------------------------------------------------------

  function JournalMade(fs: Fs): Fs {
    fs.(parent := fs.parent.Queue(Insert(Journal, JOURNAL_INODE)), journal := Directory(map[], []))
  }

  lemma MkdirKeepsInv(fs: Fs, h: Hashes, q: Hashes)
    requires Numbered(fs) && fs.parent.pending == [] && At(View(fs.parent.durable, map[]), fs.files, h, Absent(false))
    ensures var fs' := JournalMade(fs);
      Inv(fs', q) && QuietAt(fs'.(parent := fs'.parent.Synced()), q, Filling(0, false))
  {
    var p := fs.parent.durable;
    var fs' := JournalMade(fs);
    var p' := p[Journal := JOURNAL_INODE];
    QuietEffect(fs.parent);
    QuietEffect(fs'.journal);
    QueueEffect(fs.parent, Insert(Journal, JOURNAL_INODE));
    assert At(View(p, map[]), fs.files, q, Absent(false));
    assert At(View(p', map[]), fs.files, q, Filling(0, false));
    assert fs'.parent.AfterPowerLoss() == {p, p'};
    assert Seen(p, map[]) == View(p, map[]) && Seen(p', map[]) == View(p', map[]);
  }

  lemma RmdirViews(p: map<PName, nat>, files: map<nat, File>, h: Hashes)
    requires At(View(p, map[]), files, h, Cleaning(8))
    ensures At(View(p - {Journal}, map[]), files, h, Absent(true))
    ensures Output(Efi) in p - {Journal}
  {
    assert Shape(View(p - {Journal}, map[]), Absent(true));
  }

  lemma RmdirKeepsInv(fs: Fs, h: Hashes)
    requires QuietAt(fs, h, Cleaning(8))
    ensures fs.journal.durable == map[]
    ensures var fs' := fs.(parent := fs.parent.Queue(Delete(Journal)));
      Inv(fs', h) && QuietAt(fs'.(parent := fs'.parent.Synced()), h, Absent(true))
  {
    var p := fs.parent.durable;
    EmptyJournal(View(p, fs.journal.durable));
    QuietEffect(fs.parent);
    QuietEffect(fs.journal);
    QueueEffect(fs.parent, Delete(Journal));
    assert At(View(p, map[]), fs.files, h, Cleaning(8));
    RmdirViews(p, fs.files, h);
    hide At, Survivors, Replay;
    RmdirInv(fs, h);
  }

  lemma RmdirInv(fs: Fs, h: Hashes)
    requires Numbered(fs) && Quiet(fs) && fs.journal.durable == map[]
    requires At(View(fs.parent.durable, map[]), fs.files, h, Cleaning(8))
    requires At(View(fs.parent.durable - {Journal}, map[]), fs.files, h, Absent(true))
    requires Output(Efi) in fs.parent.durable - {Journal}
    ensures Inv(fs.(parent := fs.parent.Queue(Delete(Journal))), h)
  {
    var p := fs.parent.durable;
    var fs' := fs.(parent := fs.parent.Queue(Delete(Journal)));
    RmdirLoss(fs.parent);
    QuietEffect(fs.journal);
    assert fs'.journal.Live() == map[];
    hide At, Survivors, Replay, Directory.AfterPowerLoss, Directory.Live, Directory.Queue;
    assert Seen(p, map[]) == View(p, map[]) && Seen(p - {Journal}, map[]) == View(p - {Journal}, map[]);
    assert Efi in Outs(Live(fs'));
    hide Seen, Outs;
    InvByParent(fs', h, {p, p - {Journal}});
  }

  lemma RmdirLoss(parent: Directory<PName>)
    requires parent.pending == []
    ensures var d, q := parent.durable, parent.Queue(Delete(Journal));
      q.AfterPowerLoss() == {d, d - {Journal}} && q.Live() == d - {Journal}
  {
    QuietEffect(parent);
    QueueEffect(parent, Delete(Journal));
  }

  /** With a quiet journal, only the parent's queued operations can be lost. */
  lemma InvByParent(fs: Fs, h: Hashes, ps: set<map<PName, nat>>)
    requires Numbered(fs) && fs.journal.pending == [] && Outs(Live(fs)) != {}
    requires fs.parent.AfterPowerLoss() == ps && forall p | p in ps :: Good(Seen(p, fs.journal.durable), fs.files, h)
    ensures Inv(fs, h)
  {
    QuietEffect(fs.journal);
    hide Good, Seen, Outs, Numbered;
  }

  lemma EmptyJournal(v: View)
    requires Shape(v, Cleaning(8))
    ensures v.journal == map[]
  {
    forall n ensures n !in v.journal {
      match n { case Final(b) => assert CleanRank(b) < 8; case Temp(b) => }
    }
  }

  /** Syncing either directory only removes possible crash states. */
  lemma SyncKeepsInv(fs: Fs, h: Hashes)
    requires Inv(fs, h)
    ensures Inv(fs.(parent := fs.parent.Synced()), h)
    ensures Inv(fs.(journal := fs.journal.Synced()), h)
  {
    LiveSurvives(fs.parent);
    LiveSurvives(fs.journal);
  }

  // ------------------------------------------------------------------------------------------
  // Link counts
  // ------------------------------------------------------------------------------------------

  lemma OutputLinks(v: View, files: map<nat, File>, h: Hashes, ph: Phase, b: Base)
    requires At(v, files, h, ph) && Output(b) in v.parent && JOURNAL_INODE !in files
    ensures NLink(v, v.parent[Output(b)]) == if Final(b) in v.journal then 2 else 1
  {
    var i := v.parent[Output(b)];
    assert (set n | n in v.parent && v.parent[n] == i) == {Output(b)} by {
      forall n | n in v.parent && v.parent[n] == i ensures n == Output(b) {
        match n { case Output(c) => case Journal => }
      }
    }
    assert (set n | n in v.journal && v.journal[n] == i) == if Final(b) in v.journal then {Final(b)} else {};
  }

  lemma JournalLinks(v: View, files: map<nat, File>, h: Hashes, ph: Phase, n: JName)
    requires At(v, files, h, ph) && n in v.journal && JOURNAL_INODE !in files
    ensures NLink(v, v.journal[n]) == if n.Final? && Output(n.base) in v.parent then 2 else 1
  {
    var i := v.journal[n];
    assert (set m | m in v.parent && v.parent[m] == i)
        == (if n.Final? && Output(n.base) in v.parent then {Output(n.base)} else {}) by {
      forall m | m in v.parent && v.parent[m] == i ensures n.Final? && m == Output(n.base) {
        match m { case Output(c) => case Journal => }
      }
    }
    assert (set m | m in v.journal && v.journal[m] == i) == {n};
  }
}
