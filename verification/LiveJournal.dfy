/** The redo journal of `command_publish`: what a directory can look like, and its crash invariant.

    Names are abstract: `Output(b)` is one of the four published files, `Journal` the transaction
    directory, and `Final(b)` / `Temp(b)` are the names inside it. A payload file is identified by its
    SHA-256, which is taken to be injective. */
module LiveJournal {
  import opened Durability

  datatype Base = Owner | Request | Efi | Components | RunnerProof | Lock | Ready | Committed
  datatype JName = Final(base: Base) | Temp(base: Base)
  datatype PName = Output(base: Base) | Journal

  datatype Hashes = Hashes(efi: string, components: string, runnerProof: string, embedProof: string, lock: string)

  datatype Content =
    | Torn | OwnerText | RequestText(hashes: Hashes) | ReadyText | CommittedText | Payload(sha256: string)
  datatype Mode = Private | Public
  datatype File = File(content: Content, mode: Mode, synced: bool)

  /** Directory inode 0 is the journal; regular files are numbered from 1 up to `next`. */
  datatype Fs = Fs(parent: Directory<PName>, journal: Directory<JName>, files: map<nat, File>, next: nat)

  const JOURNAL_INODE: nat := 0

  /** What one can look up by name: live, or after a power loss. */
  datatype View = View(parent: map<PName, nat>, journal: map<JName, nat>)

  /** A journal whose name is gone is unreachable, whatever its directory holds. */
  function Seen(parent: map<PName, nat>, journal: map<JName, nat>): View {
    View(parent, if Journal in parent then journal else map[])
  }

  function Live(fs: Fs): View { Seen(fs.parent.Live(), fs.journal.Live()) }

  const PAYLOADS: set<Base> := {Efi, Components, RunnerProof, Lock}
  const SIDECARS: set<Base> := {Components, RunnerProof, Lock}

  function TextOf(b: Base, h: Hashes): Content {
    match b
    case Owner => OwnerText
    case Request => RequestText(h)
    case Efi => Payload(h.efi)
    case Components => Payload(h.components)
    case RunnerProof => Payload(h.runnerProof)
    case Lock => Payload(h.lock)
    case Ready => ReadyText
    case Committed => CommittedText
  }

  function ModeOf(b: Base): Mode { if b in PAYLOADS then Public else Private }

  function Stored(b: Base, h: Hashes): File { File(TextOf(b, h), ModeOf(b), true) }

  /** `st_nlink` of a regular file. */
  function NLink(v: View, ino: nat): nat {
    |set n | n in v.parent && v.parent[n] == ino| + |set n | n in v.journal && v.journal[n] == ino|
  }

  function Outs(v: View): set<Base> { set b | b in PAYLOADS && Output(b) in v.parent }

  /** The order in which journal files appear. */
  function Rank(b: Base): nat {
    match b
    case Owner => 0
    case Request => 1
    case Efi => 2
    case Components => 3
    case RunnerProof => 4
    case Lock => 5
    case Ready => 6
    case Committed => 7
  }

  /** The order in which cleanup removes them. */
  function CleanRank(b: Base): nat {
    match b
    case Efi => 0
    case Components => 1
    case RunnerProof => 2
    case Lock => 3
    case Ready => 4
    case Request => 5
    case Owner => 6
    case Committed => 7
  }

  // ------------------------------------------------------------------------------------------
  // The phases of a publication
  // ------------------------------------------------------------------------------------------

  /** `Filling(k)`: the first `k` journal files exist. `Publishing(outs)`: the journal is READY and `outs`
      are linked. `Cleaning(g)`: COMMITTED exists or has just gone, and cleanup removed the first `g`. */
  datatype Phase = Absent(complete: bool) | Filling(k: nat, temp: bool) | Publishing(outs: set<Base>, temp: bool)
                 | Cleaning(gone: nat)

  ghost predicate Filled(v: View, k: nat, temp: bool) {
    && (forall b :: Final(b) in v.journal <==> Rank(b) < k)
    && (forall b :: Temp(b) in v.journal <==> temp && Rank(b) == k)
  }

  ghost predicate Shape(v: View, ph: Phase) {
    && (forall n :: n in v.parent && n.Output? ==> n.base in PAYLOADS)
    && (Journal in v.parent <==> !ph.Absent?)
    && match ph
       case Absent(complete) =>
         v.journal == map[] && forall b :: b in PAYLOADS ==> (Output(b) in v.parent <==> complete)
       case Filling(k, temp) =>
         k < 7 && Filled(v, k, temp) && forall b :: Output(b) !in v.parent
       case Publishing(outs, temp) =>
         && outs <= PAYLOADS && Filled(v, 7, temp)
         && (Efi in outs ==> outs == PAYLOADS)
         && (temp ==> outs == PAYLOADS)
         && forall b :: Output(b) in v.parent <==> b in outs
       case Cleaning(gone) =>
         && gone <= 8
         && (forall b :: b in PAYLOADS ==> Output(b) in v.parent)
         && (forall b :: Final(b) in v.journal <==> CleanRank(b) >= gone)
         && (forall b :: Temp(b) !in v.journal)
  }

  /** Every final name in the journal leads to a synced file with the right bytes and mode. */
  ghost predicate JournalSound(journal: map<JName, nat>, files: map<nat, File>, h: Hashes) {
    && (forall n :: n in journal ==> journal[n] in files && (n.Final? ==> files[journal[n]] == Stored(n.base, h)))
    && (forall m, n :: m in journal && n in journal && journal[m] == journal[n] ==> m == n)
  }

  /** So does every published name. */
  ghost predicate OutputsSound(parent: map<PName, nat>, files: map<nat, File>, h: Hashes) {
    && (Journal in parent ==> parent[Journal] == JOURNAL_INODE)
    && (forall b :: Output(b) in parent ==> parent[Output(b)] in files && files[parent[Output(b)]] == Stored(b, h))
    && (forall b, c :: Output(b) in parent && Output(c) in parent && parent[Output(b)] == parent[Output(c)] ==> b == c)
  }

  /** An output and its staged file are one inode; an output shares its inode with no other name. */
  ghost predicate Linked(parent: map<PName, nat>, journal: map<JName, nat>) {
    forall b, n :: Output(b) in parent && n in journal ==> (parent[Output(b)] == journal[n] <==> n == Final(b))
  }

  ghost predicate At(v: View, files: map<nat, File>, h: Hashes, ph: Phase) {
    Shape(v, ph) && JournalSound(v.journal, files, h) && OutputsSound(v.parent, files, h) && Linked(v.parent, v.journal)
  }

  ghost predicate Good(v: View, files: map<nat, File>, h: Hashes) {
    exists ph :: At(v, files, h, ph)
  }

  ghost predicate Numbered(fs: Fs) {
    fs.next > 0 && forall i :: i in fs.files ==> 0 < i < fs.next
  }

  /** The crash invariant for the request `h`: every state that a power loss could leave is `Good`.
      Nothing is queued in a parent that shows neither a journal nor an output. */
  ghost predicate Inv(fs: Fs, h: Hashes) {
    && Numbered(fs)
    && (Journal !in fs.parent.Live() && Outs(Live(fs)) == {} ==> fs.parent.pending == [])
    && forall p, j :: p in fs.parent.AfterPowerLoss() && j in fs.journal.AfterPowerLoss() ==>
         Good(Seen(p, j), fs.files, h)
  }

  ghost predicate Quiet(fs: Fs) { fs.parent.pending == [] && fs.journal.pending == [] }

  ghost predicate QuietAt(fs: Fs, h: Hashes, ph: Phase) {
    && Numbered(fs) && Quiet(fs) && At(View(fs.parent.durable, fs.journal.durable), fs.files, h, ph)
    && Live(fs) == View(fs.parent.durable, fs.journal.durable)
  }

  /** `Published`: the four files of `h`, durable, alone, and no journal. */
  ghost predicate Published(fs: Fs, h: Hashes) {
    && fs.parent.pending == [] && Live(fs).parent.Keys == (set b | b in PAYLOADS :: Output(b))
    && forall b | b in PAYLOADS :: var i := Live(fs).parent[Output(b)];
         i in fs.files && fs.files[i] == Stored(b, h) && NLink(Live(fs), i) == 1
  }

  /** Whether a run for `q` may continue from `v`: existing outputs and REQUEST are those of `q`. */
  predicate Compatible(v: View, files: map<nat, File>, q: Hashes) {
    && (forall b | b in PAYLOADS && Output(b) in v.parent ::
          v.parent[Output(b)] in files && files[v.parent[Output(b)]].content == TextOf(b, q))
    && (Final(Request) in v.journal ==>
          v.journal[Final(Request)] in files && files[v.journal[Final(Request)]].content == RequestText(q))
  }

  // ------------------------------------------------------------------------------------------
  // Consequences of the invariant
  // ------------------------------------------------------------------------------------------

  lemma InvLive(fs: Fs, h: Hashes)
    requires Inv(fs, h)
    ensures Good(Live(fs), fs.files, h)
  {
    LiveSurvives(fs.parent);
    LiveSurvives(fs.journal);
  }

  /** What a reader of the directory can rely on. The EFI implies its three sidecars, COMMITTED implies all four
      outputs, all outputs belong to the one request `h`, some outputs without a journal means all four, and outputs
      beside a journal that lacks both READY and COMMITTED means all four and an empty journal. */
  ghost predicate SafeView(v: View, files: map<nat, File>, h: Hashes) {
    && (Output(Efi) in v.parent ==> Outs(v) == PAYLOADS)
    && (Final(Committed) in v.journal ==> Outs(v) == PAYLOADS)
    && (forall b | b in Outs(v) :: v.parent[Output(b)] in files && files[v.parent[Output(b)]] == Stored(b, h))
    && (Outs(v) != {} && Journal !in v.parent ==> Outs(v) == PAYLOADS)
    && (Outs(v) != {} && Journal in v.parent ==>
          (Outs(v) == PAYLOADS && v.journal == map[]) || Final(Ready) in v.journal || Final(Committed) in v.journal)
  }

  /** Every state that any power loss can leave is safe. */
  lemma DurableSafety(fs: Fs, h: Hashes, p: map<PName, nat>, j: map<JName, nat>)
    requires Inv(fs, h)
    requires p in fs.parent.AfterPowerLoss() && j in fs.journal.AfterPowerLoss()
    ensures SafeView(Seen(p, j), fs.files, h)
  {
    var v := Seen(p, j);
    var ph :| At(v, fs.files, h, ph);
    SafeOutputs(v, fs.files, h, ph);
    SafeJournal(v, fs.files, h, ph);
  }

  lemma SafeOutputs(v: View, files: map<nat, File>, h: Hashes, ph: Phase)
    requires At(v, files, h, ph)
    ensures Output(Efi) in v.parent ==> Outs(v) == PAYLOADS
    ensures Final(Committed) in v.journal ==> Outs(v) == PAYLOADS
    ensures forall b | b in Outs(v) :: v.parent[Output(b)] in files && files[v.parent[Output(b)]] == Stored(b, h)
  {
    assert Rank(Committed) == 7;
    hide JournalSound, Linked;
  }

  lemma SafeJournal(v: View, files: map<nat, File>, h: Hashes, ph: Phase)
    requires At(v, files, h, ph)
    ensures Outs(v) != {} && Journal !in v.parent ==> Outs(v) == PAYLOADS
    ensures Outs(v) != {} && Journal in v.parent ==>
              (Outs(v) == PAYLOADS && v.journal == map[]) || Final(Ready) in v.journal || Final(Committed) in v.journal
  {
    hide JournalSound, OutputsSound, Linked;
    if ph == Cleaning(8) {
      forall n ensures n !in v.journal {
        match n { case Final(b) => assert CleanRank(b) < 8; case Temp(b) => }
      }
    }
  }

  /** Any power loss, from any state within the invariant, stays within it: unsynced files may hold anything. */
  lemma PowerLossKeepsInv(fs: Fs, h: Hashes, p: map<PName, nat>, j: map<JName, nat>, files: map<nat, File>)
    requires Inv(fs, h)
    requires p in fs.parent.AfterPowerLoss() && j in fs.journal.AfterPowerLoss()
    requires files.Keys == fs.files.Keys
    requires forall i | i in files && fs.files[i].synced :: files[i] == fs.files[i]
    ensures Inv(Fs(Directory(p, []), Directory(Seen(p, j).journal, []), files, fs.next), h)
  {
    var v := Seen(p, j);
    var ph :| At(v, fs.files, h, ph);
    assert At(v, files, h, ph);
    assert Seen(p, v.journal) == v;
  }

  /** From a `Quiet` directory the only state is the live one, so `Inv` is one phase. */
  lemma QuietInv(fs: Fs, h: Hashes, ph: Phase)
    requires QuietAt(fs, h, ph)
    ensures Inv(fs, h)
  {
    QuietEffect(fs.parent);
    QuietEffect(fs.journal);
    assert Seen(fs.parent.durable, fs.journal.durable) == View(fs.parent.durable, fs.journal.durable);
  }

  // ------------------------------------------------------------------------------------------
  // A publication, file by file
  // ------------------------------------------------------------------------------------------

  /** A durable public file with these bytes, under one name. */
  ghost predicate IsFile(fs: Fs, name: PName, sha256: string) {
    && name in Live(fs).parent && Live(fs).parent[name] in fs.files
    && fs.files[Live(fs).parent[name]] == File(Payload(sha256), Public, true)
    && NLink(Live(fs), Live(fs).parent[name]) == 1
  }

  /** Each of the four names holds the file of its own hash, and there is nothing else. */
  ghost predicate FourFiles(fs: Fs, q: Hashes) {
    && IsFile(fs, Output(Efi), q.efi) && IsFile(fs, Output(Components), q.components)
    && IsFile(fs, Output(RunnerProof), q.runnerProof) && IsFile(fs, Output(Lock), q.lock)
    && (forall n :: n in Live(fs).parent ==>
          n == Output(Efi) || n == Output(Components) || n == Output(RunnerProof) || n == Output(Lock))
    && fs.parent.pending == []
  }

  lemma PublishedIsFourFiles(fs: Fs, q: Hashes)
    ensures Published(fs, q) <==> FourFiles(fs, q)
  {
    hide NLink, Live;
    var names := set b | b in PAYLOADS :: Output(b);
    assert names == {Output(Efi), Output(Components), Output(RunnerProof), Output(Lock)};
    if FourFiles(fs, q) {
      assert Live(fs).parent.Keys == names;
    }
  }
}
