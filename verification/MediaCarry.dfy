/** What a recovery owes to an earlier run: a published bundle, or a journal whose READY was written. */
module MediaCarry {
  import opened MediaJournal
  import opened MediaMoves
  import opened MediaReady
  import opened Options

  /** The destination holds the four finals, or the stage holds READY. */
  ghost predicate Owed(dir: Directory) {
    (forall m :: m in dir.finals) || (dir.stage.Some? && Ready in dir.stage.value.controls)
  }

  /** The same bytes under the same identity. */
  predicate SameFile(a: Node, b: Node) { a.text == b.text && SameIdentity(a.seal, b.seal) }

  predicate HoldsFile(dir: Directory, m: Member, n: Node) {
    || (m in dir.finals && SameFile(dir.finals[m], n))
    || (dir.stage.Some? && m in dir.stage.value.members && SameFile(dir.stage.value.members[m], n))
  }

  /** Every member's file of `before` is in `after`, in the stage or in the destination. */
  ghost predicate Kept(before: Directory, after: Directory) {
    && (forall m :: m in before.finals ==> HoldsFile(after, m, before.finals[m]))
    && (before.stage.Some? ==>
          forall m :: m in before.stage.value.members ==> HoldsFile(after, m, before.stage.value.members[m]))
  }

  /** The destination holds the four files of `before`: those that were already there and those that were staged. */
  ghost predicate FilesCarried(before: Directory, after: Directory) {
    && (forall m :: m in after.finals)
    && (forall m :: m in before.finals ==> SameFile(before.finals[m], after.finals[m]))
    && (before.stage.Some? ==>
          forall m :: m in before.stage.value.members ==> SameFile(before.stage.value.members[m], after.finals[m]))
  }

  /** When there was a READY, the files have exactly the seals that it records. */
  ghost predicate SealsCarried(job: Job, before: Directory, after: Directory)
    requires forall m :: m in after.finals
  {
    before.stage.Some? && Ready in before.stage.value.controls ==>
      match ParseReady(before.stage.value.controls[Ready], job.binding, job.euid)
      case Some(seals) => |seals| == 4 && forall m :: after.finals[m].seal == SealOf(seals, m)
      case None => false
  }

  ghost predicate CarriedForward(job: Job, before: Directory, after: Directory) {
    FilesCarried(before, after) && SealsCarried(job, before, after)
  }

  /** Phases that owe `nodes`: a sealed journal, or the bundle published. */
  ghost predicate Holding(dir: Directory, nodes: map<Member, Node>, ph: Phase) {
    ph.Sealed? || (Complete(ph) && dir.finals == nodes)
  }

  lemma OwedPhase(job: Job, dir: Directory, nodes: map<Member, Node>, ph: Phase)
    requires ValidJob(job) && At(job, dir, nodes, ph)
    ensures Owed(dir) <==> ph.Sealed? || Complete(ph)
  {
    if ph.Idle? || ph.Loose? || ph.Sealed? {
      RecognizedPhase(job, dir, nodes, ph);
      if !ph.Idle? {
        ReadyOf(job, dir, nodes, ph);
      }
      hide SealedAt, LooseAt, FinalsAre;
    } else {
      WholeFinals(job, dir, Complete(ph));
      hide FinalsAre;
    }
  }

  lemma WholeFinals(job: Job, dir: Directory, complete: bool)
    requires FinalsAre(job, dir, complete)
    ensures (forall m :: m in dir.finals) <==> complete
  {
    if !complete {
      assert Image !in dir.finals;
    }
  }

  /** A phase that is not sealed says nothing of its nodes: they may be taken to be the finals. */
  lemma HoldingFinals(job: Job, dir: Directory, nodes: map<Member, Node>, ph: Phase)
    requires At(job, dir, nodes, ph) && (ph.Sealed? || Complete(ph))
    ensures var n := if ph.Sealed? then nodes else dir.finals; At(job, dir, n, ph) && Holding(dir, n, ph)
  {
    hide FinalsAre, LooseAt, SealedAt;
  }

  /** The phase of a directory of the invariant, and the nodes that it holds. */
  lemma PhaseOf(job: Job, dir: Directory) returns (nodes: map<Member, Node>, ph: Phase)
    requires ValidJob(job) && Inv(job, dir)
    ensures At(job, dir, nodes, ph) && (Owed(dir) <==> ph.Sealed? || Complete(ph))
    ensures Owed(dir) ==> Holding(dir, nodes, ph)
  {
    hide At;
    nodes, ph :| At(job, dir, nodes, ph);
    OwedPhase(job, dir, nodes, ph);
    if Owed(dir) {
      HoldingFinals(job, dir, nodes, ph);
      nodes := if ph.Sealed? then nodes else dir.finals;
    }
  }

  /** When the destination is whole and nothing is doubled, it is the nodes that the phase holds. */
  lemma FinalsHeld(job: Job, dir: Directory, nodes: map<Member, Node>, ph: Phase)
    requires At(job, dir, nodes, ph) && Holding(dir, nodes, ph) && Complete(ph) && !(ph.Sealed? && ph.doubled)
    ensures dir.finals == nodes
  {
    if ph.Sealed? {
      WholeOrNothing(job, dir, nodes, 4, ph.committed);
    }
  }

  lemma KeptWhileHeld(job: Job, before: Directory, after: Directory, nodes: map<Member, Node>, ph: Phase, ph': Phase)
    requires ValidJob(job) && At(job, before, nodes, ph) && Holding(before, nodes, ph)
    requires At(job, after, nodes, ph') && Holding(after, nodes, ph')
    ensures Owed(after) && Kept(before, after)
  {
    OwedPhase(job, after, nodes, ph');
    FilesOf(job, before, nodes, ph);
    FilesHeld(job, after, nodes, ph');
    hide At, Holding, Owed, HoldsFile;
    SameFiles(nodes, before, after);
  }

  lemma SameFiles(nodes: map<Member, Node>, before: Directory, after: Directory)
    requires forall m :: m in nodes && HoldsFile(after, m, nodes[m])
    requires forall m :: m in before.finals ==> SameFile(nodes[m], before.finals[m])
    requires before.stage.Some? ==>
               forall m :: m in before.stage.value.members ==> SameFile(nodes[m], before.stage.value.members[m])
    ensures Kept(before, after)
  {
  }

  /** Every file of such a phase is one of the nodes. */
  lemma FilesOf(job: Job, dir: Directory, nodes: map<Member, Node>, ph: Phase)
    requires At(job, dir, nodes, ph) && Holding(dir, nodes, ph)
    ensures forall m :: m in nodes
    ensures forall m :: m in dir.finals ==> SameFile(nodes[m], dir.finals[m])
    ensures dir.stage.Some? ==>
              forall m :: m in dir.stage.value.members ==> SameFile(nodes[m], dir.stage.value.members[m])
  {
    hide ReadyBytes, AllMeasured, ControlsAre;
  }

  /** Every node is there. */
  lemma FilesHeld(job: Job, dir: Directory, nodes: map<Member, Node>, ph: Phase)
    requires At(job, dir, nodes, ph) && Holding(dir, nodes, ph)
    ensures forall m :: m in nodes && HoldsFile(dir, m, nodes[m])
  {
    hide ReadyBytes, AllMeasured, ControlsAre;
  }

  /** Publishing the nodes of such a phase carries it forward. */
  lemma CarriedIs(job: Job, before: Directory, after: Directory, nodes: map<Member, Node>, ph: Phase)
    requires ValidJob(job) && At(job, before, nodes, ph) && Holding(before, nodes, ph) && after.finals == nodes
    ensures CarriedForward(job, before, after)
  {
    FilesOf(job, before, nodes, ph);
    SealsAreCarried(job, before, after, nodes, ph);
    hide At, Holding, SealsCarried, ValidJob;
  }

  lemma SealsAreCarried(job: Job, before: Directory, after: Directory, nodes: map<Member, Node>, ph: Phase)
    requires ValidJob(job) && At(job, before, nodes, ph) && after.finals == nodes && forall m :: m in nodes
    ensures SealsCarried(job, before, after)
  {
    SealsOfNodes(nodes);
    if before.stage.Some? && (ph.Loose? || ph.Sealed?) {
      ReadyOf(job, before, nodes, ph);
    }
    hide ParseReady, SealedAt, LooseAt, FinalsAre, Seals, SealOf;
  }

  lemma KeptTransitive(a: Directory, b: Directory, c: Directory)
    requires Kept(a, b) && Kept(b, c)
    ensures Kept(a, c)
  {
    forall m, n | HoldsFile(b, m, n) ensures HoldsFile(c, m, n) {
      StillHeld(b, c, m, n);
    }
  }

  lemma StillHeld(b: Directory, c: Directory, m: Member, n: Node)
    requires Kept(b, c) && HoldsFile(b, m, n)
    ensures HoldsFile(c, m, n)
  {
  }

  lemma KeptThenCarried(a: Directory, b: Directory, c: Directory)
    requires Kept(a, b) && FilesCarried(b, c)
    ensures FilesCarried(a, c)
  {
  }

  lemma KeptItself(dir: Directory)
    ensures Kept(dir, dir)
  {
  }
}
