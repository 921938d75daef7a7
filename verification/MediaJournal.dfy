/** The directory in which a bootable medium is published, and the phases its journal goes through.

    Only process kills are considered, so every effect that took place is visible to the next run. */
module MediaJournal {
  import opened Options
  import opened Text
  import opened MediaReady

  /** A regular file: what `seal_file` measures of it, and its bytes. */
  datatype Node = Node(seal: FileSeal, text: string)

  datatype Control = Owner | Request | Ready | Committed

  /** A control's temporary; `linked` when the control already names the same inode. */
  datatype TempFile = TempFile(text: string, linked: bool)

  datatype Stage = Stage(controls: map<Control, string>, temps: map<Control, TempFile>, members: map<Member, Node>,
                         workspace: bool)

  /** `tomb` is the cleanup container, which may hold the captured stage. */
  datatype Directory = Directory(finals: map<Member, Node>, stage: Option<Stage>, tomb: Option<Option<Stage>>)

  const EMPTY_STAGE := Stage(map[], map[], map[], false)

  /** One invocation: its binding, the control texts and sidecar texts it derives from it, and whether renameat2 is
      available. `sha256Line` and `manifest` take the hash of the image. */
  datatype Job = Job(binding: Binding, euid: nat, owner: string, request: string, committed: string,
                     sha256Line: string -> string, manifest: string -> string, noreplace: bool)

  const MAX_CONTROL: nat := 16 * 1024 * 1024

  /** The image is promoted last. */
  const PROMOTION_ORDER: seq<Member> := [Sha256, MediaLock, Manifest, Image]

  function Rank(m: Member): nat {
    match m
    case Sha256 => 0
    case MediaLock => 1
    case Manifest => 2
    case Image => 3
  }

  function ControlRank(c: Control): nat {
    match c
    case Owner => 0
    case Request => 1
    case Ready => 2
    case Committed => 3
  }

  function Seals(nodes: map<Member, Node>): (s: seq<FileSeal>)
    requires forall m :: m in nodes
    ensures |s| == 4
  {
    [nodes[Image].seal, nodes[Sha256].seal, nodes[MediaLock].seal, nodes[Manifest].seal]
  }

  /** The seal of `m` in the order of the members. */
  function SealOf(seals: seq<FileSeal>, m: Member): FileSeal
    requires |seals| == 4
  {
    match m
    case Image => seals[0]
    case Sha256 => seals[1]
    case MediaLock => seals[2]
    case Manifest => seals[3]
  }

  /** `validate_bundle_at`: four files of this invocation, alone on their inodes, that fit together. */
  predicate BundleOk(job: Job, nodes: map<Member, Node>) {
    && (forall m :: m in nodes)
    && (forall m :: m in nodes ==> nodes[m].seal.nlink == 1 && Owned(job.binding, job.euid, nodes[m].seal)
                                   && (m != Image ==> nodes[m].seal.len <= MAX_CONTROL))
    && nodes[Sha256].text == job.sha256Line(nodes[Image].seal.hash)
    && nodes[MediaLock].seal.hash == job.binding.profileLockHash
    && nodes[Manifest].text == job.manifest(nodes[Image].seal.hash)
  }

  ghost predicate AllMeasured(nodes: map<Member, Node>) {
    forall m :: m in nodes ==> Measured(nodes[m].seal)
  }

  /** `Loose(k)`: the first `k` of OWNER and REQUEST, no READY. `Sealed(p)`: READY, with the first `p` members of the
      promotion order in the destination, the last of them under both names if `doubled`. The rest are the steps by
      which an empty stage disappears. `complete` says whether the destination holds a whole bundle or nothing. */
  datatype Phase =
    | Idle(complete: bool)
    | Loose(k: nat, complete: bool)
    | Sealed(p: nat, doubled: bool, committed: bool)
    | Reserved(complete: bool)
    | Captured(complete: bool)
    | TombOnly(complete: bool)

  ghost predicate FinalsAre(job: Job, dir: Directory, complete: bool) {
    if complete then BundleOk(job, dir.finals) && AllMeasured(dir.finals) else dir.finals == map[]
  }

  /** Exactly the first `k` controls, with the texts of this invocation. */
  ghost predicate ControlTexts(job: Job, controls: map<Control, string>, k: nat) {
    && (forall c :: c in controls <==> ControlRank(c) < k)
    && (Owner in controls ==> controls[Owner] == job.owner)
    && (Request in controls ==> controls[Request] == job.request)
    && (Committed in controls ==> controls[Committed] == job.committed)
  }

  /** At most one temporary: of the next control, or still linked to the last. */
  ghost predicate TempsAre(job: Job, temps: map<Control, TempFile>, controls: map<Control, string>, k: nat) {
    forall c :: c in temps ==>
      if temps[c].linked then
        !job.noreplace && ControlRank(c) + 1 == k && c in controls && temps[c].text == controls[c]
      else ControlRank(c) == k
  }

  ghost predicate ControlsAre(job: Job, stage: Stage, k: nat) {
    ControlTexts(job, stage.controls, k) && TempsAre(job, stage.temps, stage.controls, k)
  }

  /** The file of member `m` when `p` members are in the destination. */
  function NodeAt(nodes: map<Member, Node>, m: Member, p: nat, doubled: bool): Node
    requires m in nodes
  {
    if doubled && Rank(m) + 1 == p then nodes[m].(seal := nodes[m].seal.(nlink := 2)) else nodes[m]
  }

  /** OWNER, REQUEST and a READY that records exactly the seals of `nodes`. */
  ghost predicate SealedJournal(job: Job, stage: Stage, nodes: map<Member, Node>, committed: bool) {
    && BundleOk(job, nodes) && AllMeasured(nodes)
    && ControlsAre(job, stage, if committed then 4 else 3)
    && Ready in stage.controls && stage.controls[Ready] == ReadyBytes(job.binding, Seals(nodes))
  }

  /** Each member in its one place. */
  ghost predicate Placed(finals: map<Member, Node>, members: map<Member, Node>, nodes: map<Member, Node>, p: nat,
                         doubled: bool)
  {
    && (forall m :: m in nodes)
    && (forall m :: m in finals <==> Rank(m) < p)
    && (forall m :: m in members <==> Rank(m) >= p || (doubled && Rank(m) + 1 == p))
    && (forall m :: m in finals ==> finals[m] == NodeAt(nodes, m, p, doubled))
    && (forall m :: m in members ==> members[m] == NodeAt(nodes, m, p, doubled))
  }

  ghost predicate SealedAt(job: Job, dir: Directory, nodes: map<Member, Node>, p: nat, doubled: bool, committed: bool) {
    && dir.stage.Some? && p <= 4 && SealedJournal(job, dir.stage.value, nodes, committed)
    && (doubled ==> 0 < p && !job.noreplace)
    && (committed || Committed in dir.stage.value.temps ==> p == 4 && !doubled)
    && Placed(dir.finals, dir.stage.value.members, nodes, p, doubled)
  }

  ghost predicate LooseAt(job: Job, dir: Directory, k: nat, complete: bool) {
    && k <= 2 && dir.stage.Some? && ControlsAre(job, dir.stage.value, k) && FinalsAre(job, dir, complete)
    && (k < 2 ==> dir.stage.value.members == map[] && !dir.stage.value.workspace)
    && (complete ==> dir.stage.value.members == map[] && Ready !in dir.stage.value.temps)
  }

  ghost predicate At(job: Job, dir: Directory, nodes: map<Member, Node>, ph: Phase) {
    match ph
    case Idle(complete) => dir.stage.None? && dir.tomb.None? && FinalsAre(job, dir, complete)
    case Loose(k, complete) => dir.tomb.None? && LooseAt(job, dir, k, complete)
    case Sealed(p, doubled, committed) => dir.tomb.None? && SealedAt(job, dir, nodes, p, doubled, committed)
    case Reserved(complete) => dir.stage == Some(EMPTY_STAGE) && dir.tomb == Some(None) && FinalsAre(job, dir, complete)
    case Captured(complete) => dir.stage.None? && dir.tomb == Some(Some(EMPTY_STAGE)) && FinalsAre(job, dir, complete)
    case TombOnly(complete) => dir.stage.None? && dir.tomb == Some(None) && FinalsAre(job, dir, complete)
  }

  ghost predicate Inv(job: Job, dir: Directory) {
    exists nodes, ph :: At(job, dir, nodes, ph)
  }

  /** What the invocation itself guarantees: a plain binding, and controls that are not empty. */
  predicate ValidJob(job: Job) {
    PlainBinding(job.binding)
  }

  /** The state that the hard-link fallback leaves when it is killed between link and unlink of the image. */
  ghost predicate ImageDoubled(dir: Directory) {
    && dir.tomb.None? && Image in dir.finals && dir.stage.Some? && Image in dir.stage.value.members
    && Ready in dir.stage.value.controls
  }

  // ------------------------------------------------------------------------------------------
  // Consequences of the invariant
  // ------------------------------------------------------------------------------------------

  /** The three facts of the protocol. A final image implies its three sidecars. READY implies that each member sits,
      with the identity READY records, in the stage or in the destination, and in only one of them unless a hard-link
      fallback was cut in two. One to three finals imply that READY is there. */
  lemma ThreeFacts(job: Job, dir: Directory)
    requires Inv(job, dir) && ValidJob(job)
    ensures Image in dir.finals ==> Sha256 in dir.finals && MediaLock in dir.finals && Manifest in dir.finals
    ensures dir.stage.Some? && Ready in dir.stage.value.controls ==>
      exists seals :: ParseReady(dir.stage.value.controls[Ready], job.binding, job.euid) == Some(seals) && |seals| == 4
        && forall m :: InOnePlace(job, dir, m, SealOf(seals, m))
    ensures (exists m :: m in dir.finals) && (exists m :: m !in dir.finals) ==>
      dir.stage.Some? && Ready in dir.stage.value.controls
  {
    var nodes: map<Member, Node>, ph :| At(job, dir, nodes, ph);
    ImageLast(job, dir, nodes, ph);
    if (exists m :: m in dir.finals) && (exists m :: m !in dir.finals) {
      SomeMeansReady(job, dir, nodes, ph);
    }
    hide At, ParseReady, InOnePlace;
    if dir.stage.Some? && Ready in dir.stage.value.controls {
      ReadyMeansSealed(job, dir, nodes, ph);
      SealedFacts(job, dir, nodes, ph.p, ph.doubled, ph.committed);
    }
  }

  lemma ImageLast(job: Job, dir: Directory, nodes: map<Member, Node>, ph: Phase)
    requires At(job, dir, nodes, ph)
    ensures Image in dir.finals ==> Sha256 in dir.finals && MediaLock in dir.finals && Manifest in dir.finals
  {
    hide SealedJournal, ReadyBytes;
  }

  lemma ReadyMeansSealed(job: Job, dir: Directory, nodes: map<Member, Node>, ph: Phase)
    requires At(job, dir, nodes, ph) && dir.stage.Some? && Ready in dir.stage.value.controls
    ensures ph.Sealed? && SealedAt(job, dir, nodes, ph.p, ph.doubled, ph.committed)
  {
    assert ControlRank(Ready) == 2;
    hide BundleOk, SealedJournal, Placed, FinalsAre;
  }

  lemma SomeMeansReady(job: Job, dir: Directory, nodes: map<Member, Node>, ph: Phase)
    requires At(job, dir, nodes, ph) && (exists m :: m in dir.finals) && (exists m :: m !in dir.finals)
    ensures dir.stage.Some? && Ready in dir.stage.value.controls
  {
    assert ControlRank(Ready) == 2;
    hide ReadyBytes, AllMeasured;
  }

  lemma SealedFacts(job: Job, dir: Directory, nodes: map<Member, Node>, p: nat, doubled: bool, committed: bool)
    requires SealedAt(job, dir, nodes, p, doubled, committed) && ValidJob(job)
    ensures ParseReady(dir.stage.value.controls[Ready], job.binding, job.euid) == Some(Seals(nodes))
    ensures forall m :: InOnePlace(job, dir, m, SealOf(Seals(nodes), m))
  {
    ReadySeals(job, nodes);
    forall m ensures InOnePlace(job, dir, m, SealOf(Seals(nodes), m)) {
      MemberFacts(job, dir, nodes, p, doubled, committed, m);
    }
  }

  lemma MemberFacts(job: Job, dir: Directory, nodes: map<Member, Node>, p: nat, doubled: bool, committed: bool,
                    m: Member)
    requires SealedAt(job, dir, nodes, p, doubled, committed)
    ensures InOnePlace(job, dir, m, SealOf(Seals(nodes), m))
  {
  }

  /** `same_ready_identity`: everything but the link count. */
  predicate SameIdentity(observed: FileSeal, expected: FileSeal) {
    observed.(nlink := 0) == expected.(nlink := 0)
  }

  predicate InOnePlace(job: Job, dir: Directory, m: Member, seal: FileSeal)
    requires dir.stage.Some?
  {
    var staged := dir.stage.value.members;
    && (m in staged || m in dir.finals)
    && (m in staged ==> SameIdentity(staged[m].seal, seal))
    && (m in dir.finals ==> SameIdentity(dir.finals[m].seal, seal))
    && (m in staged && m in dir.finals ==> !job.noreplace && staged[m].seal.nlink == 2 && dir.finals[m].seal.nlink == 2)
  }

  /** The READY of a sealed bundle parses back to its seals. */
  lemma ReadySeals(job: Job, nodes: map<Member, Node>)
    requires ValidJob(job) && BundleOk(job, nodes) && AllMeasured(nodes)
    ensures ParseReady(ReadyBytes(job.binding, Seals(nodes)), job.binding, job.euid) == Some(Seals(nodes))
  {
    var seals := Seals(nodes);
    forall s | s in seals ensures MediaReady.Sealed(job.binding, job.euid, s) {
      var i :| 0 <= i < 4 && seals[i] == s;
      assert s == nodes[MEMBERS[i]].seal;
    }
    ReadyRoundTrip(job.binding, job.euid, seals);
  }
}
