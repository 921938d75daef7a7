/** Where the media protocol stops keeping its promises, and exactly where. */
module MediaLimits {
  import opened Options
  import opened Text
  import opened Durability
  import opened MediaReady
  import opened MediaJournal
  import opened MediaMoves
  import opened MediaPublish

  function Zeros(n: nat): (z: string)
    ensures |z| == n && forall c | c in z :: c == '0'
  {
    if n == 0 then "" else "0" + Zeros(n - 1)
  }

  const ZEROS := Zeros(64)
  const PLAIN_NODE := Node(FileSeal(0, 0, 0, 0, 0, 1, 0, 0, ZEROS), "")
  const PLAIN_NODES := map[Image := PLAIN_NODE, Sha256 := PLAIN_NODE, MediaLock := PLAIN_NODE, Manifest := PLAIN_NODE]

  function NoText(hash: string): string { "" }

  function PlainJob(noreplace: bool): Job {
    Job(Binding(0, 0, ZEROS, ZEROS, ZEROS, ZEROS, ZEROS, ZEROS, ZEROS, ZEROS), 0, "", "", "", NoText, NoText, noreplace)
  }

  lemma PlainJobIsValid(noreplace: bool)
    ensures ValidJob(PlainJob(noreplace))
  {
    var b := PlainJob(noreplace).binding;
    assert Decimal(0) == "0";
    forall i: nat | i < 11 ensures Plain(("K", HeaderValue(b, i))) {
      var v := HeaderValue(b, i);
      assert v in {"2", "0", ZEROS} && v[|v| - 1] in v;
    }
  }

  lemma PlainBundle(noreplace: bool)
    ensures var job := PlainJob(noreplace); BundleOk(job, PLAIN_NODES) && AllMeasured(PLAIN_NODES)
  {
    forall m ensures m in PLAIN_NODES {
      match m { case Image => case Sha256 => case MediaLock => case Manifest => }
    }
    assert IsHash(ZEROS);
  }

  /** A sealed bundle with its first `p` members promoted. */
  function SealedDirectory(job: Job, nodes: map<Member, Node>, p: nat): MediaJournal.Directory
    requires forall m :: m in nodes
  {
    var controls := map[Owner := job.owner, Request := job.request, Ready := ReadyBytes(job.binding, Seals(nodes))];
    var finals := map m | m in nodes && Rank(m) < p :: nodes[m];
    MediaJournal.Directory(finals, Some(Stage(controls, map[], nodes - finals.Keys, false)), None)
  }

  lemma SealedDirectoryIsSealed(job: Job, nodes: map<Member, Node>, p: nat)
    requires BundleOk(job, nodes) && AllMeasured(nodes) && p <= 4
    ensures SealedAt(job, SealedDirectory(job, nodes, p), nodes, p, false, false)
  {
    assert ControlRank(Owner) == 0 && ControlRank(Request) == 1 && ControlRank(Ready) == 2;
    assert forall c :: c in SealedDirectory(job, nodes, p).stage.value.controls <==> ControlRank(c) < 3;
    hide BundleOk, AllMeasured, ReadyBytes;
  }

  /** Without renameat2: a kill after one system call of the image's move, and no recovery ever succeeds again. */
  method KilledFallbackStrandsImage() returns (d: Publisher, o: Result)
    ensures d.life == Forever && Inv(d.job, d.dir) && ImageDoubled(d.dir) && o.Died?
  {
    PlainJobIsValid(false);
    PlainBundle(false);
    SealedDirectoryIsSealed(PlainJob(false), PLAIN_NODES, 3);
    d := new Publisher(PlainJob(false), SealedDirectory(PlainJob(false), PLAIN_NODES, 3));
    d.life := Calls(1);
    ghost var p, doubled;
    o, p, doubled := d.MoveNoreplace(Image, PLAIN_NODES);
    ghost var ph := Phase.Sealed(4, true, false);
    assert At(d.job, d.dir, PLAIN_NODES, ph);
    DoubledPhase(d.job, d.dir, PLAIN_NODES, ph);
    d.life := Forever;
    var found;
    o, found := d.RecoverPublication({});
  }

  /** A rollback that cannot move the image back, but can move the rest: an image without its sidecars. */
  method BrokenRollbackStrandsImage() returns (d: Publisher, o: Result)
    ensures d.life == Forever && o.Died? && Image in d.dir.finals && forall m | m in SIDECARS :: m !in d.dir.finals
  {
    PlainJobIsValid(true);
    PlainBundle(true);
    SealedDirectoryIsSealed(PlainJob(true), PLAIN_NODES, 4);
    NoTempsYet(PlainJob(true), PLAIN_NODES, 4);
    d := new Publisher(PlainJob(true), SealedDirectory(PlainJob(true), PLAIN_NODES, 4));
    ghost var left, q;
    hide SealedDirectory, SealedAt, SplitAt, Seals, PLAIN_NODES, PlainJob, Prefix, SameControls, BundleOk;
    o, left, q := d.RollbackPromotion(Seals(PLAIN_NODES), {Image}, PLAIN_NODES, 4);
    OnlyImageLeft(d.job, d.dir, PLAIN_NODES);
  }

  lemma NoTempsYet(job: Job, nodes: map<Member, Node>, p: nat)
    requires forall m :: m in nodes
    ensures var dir := SealedDirectory(job, nodes, p);
      dir.tomb.None? && dir.stage.Some? && dir.stage.value.temps == map[]
  {
  }

  lemma OnlyImageLeft(job: Job, dir: MediaJournal.Directory, nodes: map<Member, Node>)
    requires SplitAt(job, dir, nodes, Prefix(4) * {Image})
    ensures Image in dir.finals && (forall m | m in SIDECARS :: m !in dir.finals) && Prefix(4) * {Image} != {}
  {
    assert Rank(Image) == 3;
  }
}
