/** Publication of a medium: preparation, promotion, rollback, cleanup and recovery, over a directory whose process
    may be killed before any system call that changes it. */
module MediaPublish {
  import opened Options
  import opened Text
  import opened Durability
  import opened MediaReady
  import opened MediaJournal
  import opened MediaMoves
  import opened MediaCarry

  datatype PublishPhase =
    | Staged | Validated | Sealed | Sha256Promoted | MediaLockPromoted | ManifestPromoted | SidecarsSynced
    | ImagePromoted | PublishedValidated | Committed | CleanupUnsealed | CleanupImageRemoved | CleanupSha256Removed
    | CleanupMediaLockRemoved | CleanupManifestRemoved | StageCapturedBeforeRemove | StageRemovedBeforeSync

  datatype Reason =
    | Checkpoint(at: PublishPhase)
    | ControlTwoIdentities(control: Control) | ControlExists(control: Control) | ControlChanged(control: Control)
    | MemberDiverges(member: Member) | MemberTwoIdentities(member: Member) | MemberGone(member: Member)
    | BundleInvalid | ReadyInvalid | OwnerDiverges | RequestDiverges | PartialWithoutJournal | OutputExists
    | CleanupDiverges | StageNotEmpty | TombstoneExists | RollbackIncomplete

  type Result = Outcome<Reason>

  class Publisher {
    const job: Job
    var dir: MediaJournal.Directory
    var life: Life

    constructor (job: Job, dir: MediaJournal.Directory)
      ensures this.job == job && this.dir == dir && life == Forever
    {
      this.job := job;
      this.dir := dir;
      life := Forever;
    }

    // ----------------------------------------------------------------------------------------
    // System calls that change the directory
    // ----------------------------------------------------------------------------------------

    /** The kill, if it is due, comes before the effect; otherwise the directory becomes `next`. */
    method Do(next: MediaJournal.Directory) returns (o: Result)
      modifies this
      ensures !o.Died? && dir == (if o.Done? then next else old(dir))
      ensures o.Done? <==> old(life) != Calls(0)
      ensures o.Done? ==> life == old(life).Spent()
      ensures old(life) == Forever ==> life == Forever && o.Done?
    {
      if life == Calls(0) {
        return Killed;
      }
      life := life.Spent();
      dir := next;
      return Done;
    }

    method PutStage(stage: Stage) returns (o: Result)
      modifies this
      ensures !o.Died? && dir == (if o.Done? then old(dir).(stage := Some(stage)) else old(dir))
      ensures old(life) == Forever ==> life == Forever && o.Done?
    {
      o := Do(dir.(stage := Some(stage)));
    }

    /** A checkpoint of the callers that inject faults; production runs pass no failing phase. */
    method CheckpointAt(at: PublishPhase, failing: set<PublishPhase>) returns (o: Result)
      ensures o == if at in failing then Died(Checkpoint(at)) else Done
    {
      return if at in failing then Died(Checkpoint(at)) else Done;
    }

    // ----------------------------------------------------------------------------------------
    // Controls
    // ----------------------------------------------------------------------------------------

    /** `reconcile_control_temp`. */
    method ReconcileControlTemp(c: Control, ghost k: nat) returns (o: Result)
      requires dir.stage.Some? && ControlsAre(job, dir.stage.value, k)
      modifies this
      ensures old(life) == Forever ==> life == Forever && o.Done?
      ensures !o.Died?
      ensures dir == old(dir) || dir == old(dir).(stage := Some(WithoutTemp(old(dir).stage.value, c)))
      ensures o.Done? ==> dir == old(dir).(stage := Some(WithoutTemp(old(dir).stage.value, c)))
    {
      var s := dir.stage.value;
      if c !in s.temps {
        assert s.temps - {c} == s.temps;
        return Done;
      }
      if c in s.controls && !s.temps[c].linked {
        return Died(ControlTwoIdentities(c));
      }
      o := PutStage(WithoutTemp(s, c));
    }

    /** `read_stage_control`. */
    method ReadStageControl(c: Control, ghost k: nat) returns (o: Result, text: Option<string>)
      requires dir.stage.Some? && ControlsAre(job, dir.stage.value, k)
      modifies this
      ensures old(life) == Forever ==> life == Forever && o.Done?
      ensures !o.Died?
      ensures dir == old(dir) || dir == old(dir).(stage := Some(WithoutTemp(old(dir).stage.value, c)))
      ensures o.Done? ==> dir == old(dir).(stage := Some(WithoutTemp(old(dir).stage.value, c)))
      ensures o.Done? ==> text == if c in dir.stage.value.controls then Some(dir.stage.value.controls[c]) else None
    {
      text := None;
      o := ReconcileControlTemp(c, k);
      if o.Done? {
        text := if c in dir.stage.value.controls then Some(dir.stage.value.controls[c]) else None;
      }
    }

    /** `write_control_atomic_at`: temporary, full write, move to the final name. Every state it passes through has
        the first `k` controls, and it ends with one more. */
    method WriteControl(c: Control, text: string, ghost k: nat) returns (o: Result)
      requires dir.stage.Some? && ControlsAre(job, dir.stage.value, k) && ControlRank(c) == k
      requires forall t :: t in dir.stage.value.temps ==> t == c
      requires OwnText(job, c, text)
      modifies this
      ensures old(life) == Forever ==> life == Forever && o.Done?
      ensures !o.Died? && Writing(job, old(dir), dir, c, text, k)
      ensures o.Done? ==> dir == old(dir).(stage := Some(WithControl(old(dir).stage.value, c, text)))
    {
      ghost var s0 := dir.stage.value;
      DroppingTempKeepsControls(job, s0, c, k);
      :- ReconcileControlTemp(c, k);
      assert dir.stage.value.temps == map[];
      o := PublishControl(c, text, k);
    }

    method PublishControl(c: Control, text: string, ghost k: nat) returns (o: Result)
      requires dir.stage.Some? && ControlsAre(job, dir.stage.value, k) && ControlRank(c) == k
      requires dir.stage.value.temps == map[]
      requires OwnText(job, c, text)
      modifies this
      ensures old(life) == Forever ==> life == Forever && o.Done?
      ensures !o.Died? && Writing(job, old(dir), dir, c, text, k)
      ensures o.Done? ==> dir == old(dir).(stage := Some(WithControl(old(dir).stage.value, c, text)))
    {
      var s := dir.stage.value;
      WritingBefore(job, dir, c, text, "", k);
      WritingBefore(job, dir, c, text, text, k);
      WritingAfter(job, dir, c, text, k);
      if !job.noreplace {
        WritingLinked(job, dir, c, text, k);
      }
      assert Writing(job, dir, dir, c, text, k);
      hide ControlsAre, Writing, OwnText;
      if c in s.controls {
        return Died(ControlExists(c));
      }
      :- PutStage(WithTemp(s, c, "", false));
      :- PutStage(WithTemp(s, c, text, false));
      if !job.noreplace {
        :- PutStage(WithTemp(s.(controls := s.controls[c := text]), c, text, true));
      }
      :- PutStage(WithControl(s, c, text));
      if dir.stage.value.controls[c] != text {
        return Died(ControlChanged(c));
      }
      return Done;
    }

    // ----------------------------------------------------------------------------------------
    // Promotion
    // ----------------------------------------------------------------------------------------

    /** `move_noreplace`: a rename, or link and unlink where there is no renameat2. */
    method MoveNoreplace(m: Member, ghost nodes: map<Member, Node>)
      returns (o: Result, ghost p': nat, ghost doubled': bool)
      requires dir.tomb.None? && SealedAt(job, dir, nodes, Rank(m), false, false)
      modifies this
      ensures old(life) == Forever ==> life == Forever && o.Done?
      ensures !o.Died? && dir.tomb.None? && SealedAt(job, dir, nodes, p', doubled', false)
      ensures SameControls(old(dir), dir)
      ensures p' <= 4 && (o.Done? ==> p' == Rank(m) + 1 && !doubled')
      ensures !job.noreplace && old(life) == Calls(1) ==> p' == Rank(m) + 1 && doubled'
    {
      p', doubled' := Rank(m), false;
      PromoteStep(job, dir, nodes, m);
      assert dir.stage.Some?;
      hide SealedAt;
      if job.noreplace {
        o := Do(Promoted(dir, m));
        p' := if o.Done? then Rank(m) + 1 else Rank(m);
      } else {
        LinkStep(job, dir, nodes, m);
        o := Do(LinkedToo(dir, m));
        if o.IsFailure() {
          return;
        }
        p', doubled' := Rank(m) + 1, true;
        UnlinkStep(job, dir, nodes, m);
        o := Do(Unstaged(dir, m));
        doubled' := !o.Done?;
      }
    }

    /** `ensure_member_state`: promote the member, or recognise that it already is where it belongs. */
    method EnsureMemberState(m: Member, expected: FileSeal, ghost nodes: map<Member, Node>, ghost p: nat,
                             ghost doubled: bool)
      returns (o: Result, ghost p': nat, ghost doubled': bool)
      requires dir.tomb.None? && SealedAt(job, dir, nodes, p, doubled, false)
      requires m in nodes && expected == nodes[m].seal && Rank(m) <= p && (Rank(m) == p ==> !doubled)
      modifies this
      ensures old(life) == Forever ==> life == Forever && o.Done?
      ensures !o.Died? && dir.tomb.None? && SealedAt(job, dir, nodes, p', doubled', false)
      ensures SameControls(old(dir), dir)
      ensures p' <= 4
      ensures o.Done? ==> p' == (if p == Rank(m) then p + 1 else p) && doubled' == (doubled && p > Rank(m) + 1)
    {
      p', doubled' := p, doubled;
      if doubled && Rank(m) + 1 == p {
        UnlinkStep(job, dir, nodes, m);
      } else {
        MemberPlace(job, dir, nodes, p, doubled, m);
      }
      var staged, final := m in dir.stage.value.members, m in dir.finals;
      hide SealedAt;
      if staged && !final && dir.stage.value.members[m].seal == expected {
        o, p', doubled' := MoveNoreplace(m, nodes);
        if o.Done? {
          MemberPlace(job, dir, nodes, p', false, m);
          if dir.finals[m].seal != expected {
            return Died(MemberDiverges(m)), p', doubled';
          }
        }
        return;
      }
      if !staged && final && dir.finals[m].seal == expected {
        return Done, p', doubled';
      }
      if staged && final && SameIdentity(dir.stage.value.members[m].seal, expected)
         && SameIdentity(dir.finals[m].seal, expected) {
        if dir.stage.value.members[m].seal.nlink != 2 || dir.finals[m].seal.nlink != 2 {
          return Died(MemberTwoIdentities(m)), p', doubled';
        }
        o := Do(Unstaged(dir, m));
        doubled' := !o.Done?;
        return;
      }
      o := Died(if staged && final then MemberTwoIdentities(m)
                else if staged || final then MemberDiverges(m) else MemberGone(m));
    }

    /** `validate_bundle_at` on a directory's four names. */
    method ValidateBundle(nodes: map<Member, Node>) returns (ok: bool)
      ensures ok <==> BundleOk(job, nodes)
    {
      var names := MEMBERS;
      for i := 0 to 4
        invariant forall j | 0 <= j < i :: MEMBERS[j] in nodes && MemberOk(job, nodes[MEMBERS[j]], MEMBERS[j])
      {
        var m := names[i];
        if m !in nodes || !MemberOk(job, nodes[m], m) {
          assert !BundleOk(job, nodes);
          return false;
        }
      }
      AllMembers(job, nodes);
      var image := nodes[Image].seal.hash;
      return nodes[Sha256].text == job.sha256Line(image) && nodes[MediaLock].seal.hash == job.binding.profileLockHash
          && nodes[Manifest].text == job.manifest(image);
    }

    /** The three sidecars, in order. */
    method PromoteSidecars(expected: seq<FileSeal>, failing: set<PublishPhase>, ghost nodes: map<Member, Node>,
                           ghost p: nat, ghost doubled: bool)
      returns (o: Result, ghost p': nat, ghost doubled': bool)
      requires dir.tomb.None? && SealedAt(job, dir, nodes, p, doubled, false)
      requires !(doubled && p == 4) && expected == Seals(nodes)
      modifies this
      ensures old(life) == Forever ==> life == Forever && !o.Killed?
      ensures dir.tomb.None? && SealedAt(job, dir, nodes, p', doubled', false) && SameControls(old(dir), dir)
      ensures o.Died? ==> o.reason.Checkpoint? && o.reason.at in failing
      ensures o.Done? ==> 3 <= p' <= 4 && !doubled'
    {
      p', doubled' := p, doubled;
      assert dir.stage.Some? && p <= 4 && forall m :: m in nodes;
      SealsOfNodes(nodes);
      ghost var dir0 := dir;
      assert SameControls(dir0, dir);
      hide SealedAt, SameControls, Seals, SealOf, PROMOTION_ORDER;
      var order := PROMOTION_ORDER;
      var phases := [Sha256Promoted, MediaLockPromoted, ManifestPromoted];
      for i := 0 to 3
        invariant old(life) == Forever ==> life == Forever
        invariant dir.tomb.None? && SealedAt(job, dir, nodes, p', doubled', false) && SameControls(dir0, dir)
        invariant i <= p' <= 4 && !(doubled' && p' == 4) && (doubled' ==> i < p')
      {
        ReversedRank(3 - i);
        ghost var dir1 := dir;
        o, p', doubled' := EnsureMemberState(order[i], SealOf(expected, order[i]), nodes, p', doubled');
        SameControlsTrans(dir0, dir1, dir);
        if o.IsFailure() {
          return;
        }
        o := CheckpointAt(phases[i], failing);
        if o.IsFailure() {
          return;
        }
      }
      o := CheckpointAt(SidecarsSynced, failing);
    }

    /** `complete_promotion`: the three sidecars, a sync, the image, and a check of the result. */
    method CompletePromotion(expected: seq<FileSeal>, failing: set<PublishPhase>, ghost nodes: map<Member, Node>,
                             ghost p: nat, ghost doubled: bool)
      returns (o: Result, ghost p': nat, ghost doubled': bool)
      requires dir.tomb.None? && SealedAt(job, dir, nodes, p, doubled, false)
      requires !(doubled && p == 4) && expected == Seals(nodes)
      modifies this
      ensures old(life) == Forever ==> life == Forever && !o.Killed?
      ensures dir.tomb.None? && SealedAt(job, dir, nodes, p', doubled', false) && SameControls(old(dir), dir)
      ensures o.Died? ==> o.reason.Checkpoint? && o.reason.at in failing
      ensures o.Done? ==> p' == 4 && !doubled' && BundleOk(job, dir.finals) && dir.finals == nodes
    {
      assert forall m :: m in nodes;
      hide SealedAt;
      o, p', doubled' := PromoteSidecars(expected, failing, nodes, p, doubled);
      if o.IsFailure() {
        return;
      }
      o, p', doubled' := EnsureMemberState(Image, SealOf(expected, Image), nodes, p', doubled');
      if o.IsFailure() {
        return;
      }
      o := CheckpointAt(ImagePromoted, failing);
      if o.IsFailure() {
        return;
      }
      WholeBundle(job, dir, nodes);
      var ok := ValidateBundle(dir.finals);
      if !ok || Seals(dir.finals) != expected {
        return Died(BundleInvalid), p', doubled';
      }
      o := CheckpointAt(PublishedValidated, failing);
    }

    // ----------------------------------------------------------------------------------------
    // Rollback
    // ----------------------------------------------------------------------------------------

    /** `move_back_owned` where nothing is doubled; the rename fails for the members in `broken`. */
    method MoveBackOwned(m: Member, expected: FileSeal, broken: set<Member>, ghost nodes: map<Member, Node>,
                         ghost fin: set<Member>)
      returns (o: Result)
      requires SplitAt(job, dir, nodes, fin) && expected == nodes[m].seal
      modifies this
      ensures old(life) == Forever ==> life == Forever && !o.Killed?
      ensures o.Died? <==> !o.Killed? && m in fin && m in broken
      ensures SplitAt(job, dir, nodes, if o.Done? then fin - {m} else fin)
      ensures SameControls(old(dir), dir) && dir.tomb == old(dir).tomb
    {
      var staged, final := m in dir.stage.value.members, m in dir.finals;
      if staged && !final && dir.stage.value.members[m].seal == expected {
        assert fin - {m} == fin;
        return Done;
      }
      if !staged && final && dir.finals[m].seal == expected {
        DemoteStep(job, dir, nodes, fin, m);
        if m in broken {
          return Died(RollbackIncomplete);
        }
        o := Do(Demoted(dir, m));
        return;
      }
      assert false;
      return Died(MemberDiverges(m));
    }

    /** One member of a rollback from prefix `p`, after the first `i` of the reversed order. */
    method RollbackStep(i: nat, m: Member, expected: FileSeal, broken: set<Member>, ghost nodes: map<Member, Node>,
                        ghost p: nat, ghost dir0: MediaJournal.Directory)
      returns (o: Result)
      requires RolledBack(job, dir0, dir, nodes, p, i, broken) && Rank(m) + i == 3
      requires m in nodes && expected == nodes[m].seal
      modifies this
      ensures old(life) == Forever ==> life == Forever && !o.Killed?
      ensures RolledBack(job, dir0, dir, nodes, p, if o.Killed? then i else i + 1, broken)
      ensures !o.Killed? ==> (Stuck(p, i + 1, broken) != {} <==> Stuck(p, i, broken) != {} || o.Died?)
    {
      ghost var dir1 := dir;
      LeftStep(p, i, broken, m);
      hide LeftAfter, Stuck, SameControls;
      o := MoveBackOwned(m, expected, broken, nodes, LeftAfter(p, i, broken));
      SameControlsTrans(dir0, dir1, dir);
    }

    /** The members of the reversed order, one by one, until a kill. */
    method RollbackMembers(expected: seq<FileSeal>, broken: set<Member>, ghost nodes: map<Member, Node>, ghost p: nat)
      returns (o: Result, failed: bool, ghost done: nat)
      requires RolledBack(job, dir, dir, nodes, p, 0, broken) && Stuck(p, 0, broken) == {}
      requires (forall m :: m in nodes) && expected == Seals(nodes)
      modifies this
      ensures old(life) == Forever ==> life == Forever && !o.Killed?
      ensures done <= 4 && RolledBack(job, old(dir), dir, nodes, p, done, broken)
      ensures !o.Killed? ==> done == 4 && (failed <==> Stuck(p, 4, broken) != {})
    {
      ghost var dir0 := dir;
      SealsOfNodes(nodes);
      hide RolledBack, Stuck, Seals, SealOf, PROMOTION_ORDER;
      var order := PROMOTION_ORDER;
      failed, done, o := false, 0, Done;
      for i := 0 to 4
        invariant done == i && (old(life) == Forever ==> life == Forever) && !o.Killed?
        invariant RolledBack(job, dir0, dir, nodes, p, i, broken) && (failed <==> Stuck(p, i, broken) != {})
      {
        ReversedRank(i);
        o := RollbackStep(i, order[3 - i], SealOf(expected, order[3 - i]), broken, nodes, p, dir0);
        if o.Killed? {
          return;
        }
        failed, done := failed || o.Died?, i + 1;
      }
    }

    /** `rollback_promotion`: image first, and on to the next member even when one fails. What stays in the destination
        is what was promoted and whose move failed. That can be an image without its sidecars: exactly if all four were
        promoted, the move of the image fails and that of a sidecar does not. */
    method RollbackPromotion(expected: seq<FileSeal>, broken: set<Member>, ghost nodes: map<Member, Node>, ghost p: nat)
      returns (o: Result, ghost fin: set<Member>, ghost q: nat)
      requires dir.tomb.None? && SealedAt(job, dir, nodes, p, false, false) && expected == Seals(nodes)
      requires Control.Committed !in dir.stage.value.temps
      modifies this
      ensures old(life) == Forever ==> life == Forever && !o.Killed?
      ensures dir.tomb.None? && SplitAt(job, dir, nodes, fin) && SameControls(old(dir), dir)
      ensures !o.Killed? ==> fin == Prefix(p) * broken && (o.Died? <==> fin != {})
      ensures !o.Killed? ==> ((Image in dir.finals ==> SIDECARS <= dir.finals.Keys)
                              <==> !(p >= 4 && Image in broken && exists m | m in SIDECARS :: m !in broken))
      ensures broken == {} ==> SealedAt(job, dir, nodes, q, false, false) && (o.Done? ==> q == 0)
    {
      ghost var dir0 := dir;
      SplitIsSealed(job, dir, nodes, p);
      LeftBounds(p, broken);
      assert forall m :: m in nodes;
      assert SameControls(dir0, dir0);
      hide SealedAt, SplitAt, LeftAfter, Stuck, Seals, Prefix, SameControls;
      var failed;
      ghost var done;
      o, failed, done := RollbackMembers(expected, broken, nodes, p);
      fin := LeftAfter(p, done, broken);
      q := StillSealed(job, dir0, dir, nodes, p, done, broken);
      if !o.Killed? {
        ImageLastIff(job, dir, nodes, p, broken);
      }
      o := if o.Killed? then o else if failed then Died(RollbackIncomplete) else Done;
    }

    // ----------------------------------------------------------------------------------------
    // Cleanup
    // ----------------------------------------------------------------------------------------

    /** `remove_stage_regular` of a control whose exact bytes are known, or of any bytes. */
    method RemoveControl(c: Control, exact: Option<string>) returns (o: Result)
      requires dir.stage.Some?
      modifies this
      ensures old(life) == Forever ==> life == Forever && !o.Killed?
      ensures o.Died? <==> !o.Killed? && c in old(dir).stage.value.controls && exact.Some?
                           && old(dir).stage.value.controls[c] != exact.value
      ensures dir == if o.Done? then old(dir).(stage := Some(WithoutControl(old(dir).stage.value, c))) else old(dir)
    {
      var s := dir.stage.value;
      if c !in s.controls {
        assert s.controls - {c} == s.controls;
        return Done;
      }
      if exact.Some? && s.controls[c] != exact.value {
        return Died(CleanupDiverges);
      }
      o := PutStage(WithoutControl(s, c));
    }

    /** The four `reconcile_control_temp` at the start of a cleanup. */
    method ReconcileAll(ghost nodes: map<Member, Node>, ghost ph: Phase) returns (o: Result)
      requires At(job, dir, nodes, ph) && (ph.Loose? || ph.Sealed?)
      modifies this
      ensures old(life) == Forever ==> life == Forever && o.Done?
      ensures !o.Died? && At(job, dir, nodes, ph) && dir.finals == old(dir).finals && dir.stage.Some?
      ensures dir.stage.value.members == old(dir).stage.value.members
      ensures o.Done? ==> dir.stage.value.temps == map[]
    {
      var controls := [Owner, Request, Ready, Control.Committed];
      ghost var k := ControlCount(ph);
      for i := 0 to 4
        invariant old(life) == Forever ==> life == Forever
        invariant At(job, dir, nodes, ph) && dir.finals == old(dir).finals && dir.stage.Some?
        invariant dir.stage.value.members == old(dir).stage.value.members
        invariant forall c :: c in dir.stage.value.temps ==> ControlRank(c) >= i
      {
        assert ControlRank(controls[i]) == i;
        assert forall c :: ControlRank(c) == i ==> c == controls[i];
        PhaseControls(job, dir, nodes, ph);
        DroppingTempKeepsPhase(job, dir, nodes, ph, controls[i]);
        hide At;
        :- ReconcileControlTemp(controls[i], k);
      }
      assert dir.stage.value.temps == map[];
      return Done;
    }

    /** COMMITTED and then READY go before anything they describe. */
    method Unseal(expected: Option<seq<FileSeal>>, failing: set<PublishPhase>, ghost nodes: map<Member, Node>,
                  ghost ph: Phase)
      returns (o: Result, ghost ph': Phase)
      requires At(job, dir, nodes, ph) && CleanupCase(nodes, ph, expected)
      modifies this
      ensures old(life) == Forever ==> life == Forever && !o.Killed?
      ensures At(job, dir, nodes, ph') && dir.finals == old(dir).finals && Complete(ph') == Complete(ph)
      ensures o.Died? ==> o.reason.Checkpoint? && o.reason.at in failing
      ensures o.Done? ==> ph'.Loose? && dir.stage.Some? && dir.stage.value.temps == map[]
      ensures o.Done? ==> dir.stage.value.members == old(dir).stage.value.members
    {
      ph' := ph;
      o := ReconcileAll(nodes, ph);
      if o.IsFailure() {
        return;
      }
      UnsealSteps(job, dir, nodes, ph);
      var ready := if expected.Some? then Some(ReadyBytes(job.binding, expected.value)) else None;
      ghost var s := dir.stage.value;
      hide At, ReadyBytes;
      o := RemoveControl(Control.Committed, Some(job.committed));
      if o.IsFailure() {
        return;
      }
      ph' := if ph.Sealed? then ph.(committed := false) else ph;
      o := RemoveControl(Ready, ready);
      if o.IsFailure() {
        return;
      }
      ph' := if ph.Sealed? then Loose(2, ph.p == 4) else ph;
      o := CheckpointAt(CleanupUnsealed, failing);
    }

    /** The workspace and the four staged members, each checked against READY when there was one. */
    method ClearMembers(expected: Option<seq<FileSeal>>, failing: set<PublishPhase>, ghost k: nat, ghost complete: bool)
      returns (o: Result)
      requires dir.tomb.None? && LooseAt(job, dir, k, complete) && dir.stage.value.temps == map[]
      requires expected.Some? ==> |expected.value| == 4
      requires expected.Some? ==> forall m :: m in dir.stage.value.members ==>
        SameIdentity(dir.stage.value.members[m].seal, SealOf(expected.value, m))
      modifies this
      ensures old(life) == Forever ==> life == Forever && !o.Killed?
      ensures dir.tomb.None? && LooseAt(job, dir, k, complete) && dir.finals == old(dir).finals
      ensures o.Died? ==> o.reason.Checkpoint? && o.reason.at in failing
      ensures dir.stage.value.temps == map[]
      ensures o.Done? ==> dir.stage.value.members == map[] && !dir.stage.value.workspace
    {
      if dir.stage.value.workspace {
        :- PutStage(dir.stage.value.(workspace := false));
      }
      var members := MEMBERS;
      var phases := [CleanupImageRemoved, CleanupSha256Removed, CleanupMediaLockRemoved, CleanupManifestRemoved];
      for i := 0 to 4
        invariant old(life) == Forever ==> life == Forever
        invariant dir.tomb.None? && LooseAt(job, dir, k, complete) && dir.finals == old(dir).finals
        invariant dir.stage.value.temps == map[] && !dir.stage.value.workspace
        invariant forall m :: m in dir.stage.value.members ==>
          m in old(dir).stage.value.members && dir.stage.value.members[m] == old(dir).stage.value.members[m]
        invariant forall j | 0 <= j < i :: MEMBERS[j] !in dir.stage.value.members
      {
        var m := members[i];
        var s := dir.stage.value;
        if m in s.members {
          if expected.Some? && !SameIdentity(s.members[m].seal, SealOf(expected.value, m)) {
            return Died(CleanupDiverges);
          }
          :- PutStage(s.(members := s.members - {m}));
        }
        :- CheckpointAt(phases[i], failing);
      }
      assert forall m :: m !in dir.stage.value.members by {
        forall m ensures m !in dir.stage.value.members {
          assert MEMBERS[IndexOf(m)] == m;
        }
      }
      return Done;
    }

    /** REQUEST, then OWNER: the stage ends up empty. */
    method ClearControls(ghost k: nat, ghost complete: bool) returns (o: Result, ghost k': nat)
      requires dir.tomb.None? && LooseAt(job, dir, k, complete)
      requires var s := dir.stage.value; s.temps == map[] && s.members == map[] && !s.workspace
      modifies this
      ensures old(life) == Forever ==> life == Forever && o.Done?
      ensures !o.Died? && dir.tomb.None? && LooseAt(job, dir, k', complete) && dir.finals == old(dir).finals
      ensures o.Done? ==> dir.stage == Some(EMPTY_STAGE)
    {
      k' := k;
      RemovalSteps(job, dir, k, complete);
      o := RemoveControl(Request, Some(job.request));
      if o.IsFailure() {
        return;
      }
      k' := if k == 2 then 1 else k;
      o := RemoveControl(Owner, Some(job.owner));
      if o.Done? {
        k' := 0;
      }
    }

    /** `capture_and_remove_stage`: move the empty stage into a private container, then remove both. */
    method CaptureAndRemoveStage(failing: set<PublishPhase>, ghost complete: bool) returns (o: Result, ghost ph': Phase)
      requires dir.stage == Some(EMPTY_STAGE) && FinalsAre(job, dir, complete)
      requires dir.tomb.None?
      modifies this
      ensures old(life) == Forever ==> life == Forever && !o.Killed?
      ensures dir.finals == old(dir).finals && Complete(ph') == complete
      ensures forall nodes :: At(job, dir, nodes, ph')
      ensures o.Died? ==> o.reason.Checkpoint? && o.reason.at in failing
      ensures o.Done? ==> ph' == Idle(complete)
    {
      EmptyIsLoose(job, dir, complete);
      ph' := Loose(0, complete);
      o := Do(dir.(tomb := Some(None)));
      if o.IsFailure() {
        return;
      }
      ph' := Reserved(complete);
      o := Do(dir.(stage := None, tomb := Some(dir.stage)));
      if o.IsFailure() {
        return;
      }
      ph' := Captured(complete);
      o := CheckpointAt(StageCapturedBeforeRemove, failing);
      if o.IsFailure() {
        return;
      }
      if dir.tomb.value != Some(EMPTY_STAGE) {
        return Died(StageNotEmpty), ph';
      }
      o := Do(dir.(tomb := Some(None)));
      if o.IsFailure() {
        return;
      }
      ph' := TombOnly(complete);
      o := Do(dir.(tomb := None));
      if o.IsFailure() {
        return;
      }
      ph' := Idle(complete);
      o := CheckpointAt(StageRemovedBeforeSync, failing);
    }

    /** `cleanup_stage`. */
    method CleanupStage(expected: Option<seq<FileSeal>>, failing: set<PublishPhase>, ghost nodes: map<Member, Node>,
                        ghost ph: Phase)
      returns (o: Result, ghost ph': Phase)
      requires At(job, dir, nodes, ph) && CleanupCase(nodes, ph, expected)
      modifies this
      ensures old(life) == Forever ==> life == Forever && !o.Killed?
      ensures At(job, dir, nodes, ph') && dir.finals == old(dir).finals && Complete(ph') == Complete(ph)
      ensures o.Died? ==> o.reason.Checkpoint? && o.reason.at in failing
      ensures o.Done? ==> ph' == Idle(Complete(ph))
    {
      StagedIdentity(job, dir, nodes, ph, expected);
      o, ph' := Unseal(expected, failing, nodes, ph);
      if o.IsFailure() {
        return;
      }
      ghost var complete := ph'.complete;
      o := ClearMembers(expected, failing, ph'.k, complete);
      if o.IsFailure() {
        return;
      }
      ghost var k;
      o, k := ClearControls(ph'.k, complete);
      ph' := Loose(k, complete);
      if o.IsFailure() {
        return;
      }
      o, ph' := CaptureAndRemoveStage(failing, complete);
    }

    // ----------------------------------------------------------------------------------------
    // Recovery
    // ----------------------------------------------------------------------------------------

    /** `recover_stage_cleanup`: finish removing a captured stage and its container. */
    method RecoverStageCleanup(ghost nodes: map<Member, Node>, ghost ph: Phase) returns (o: Result, ghost ph': Phase)
      requires At(job, dir, nodes, ph)
      modifies this
      ensures old(life) == Forever ==> life == Forever && o.Done?
      ensures !o.Died? && At(job, dir, nodes, ph') && dir.finals == old(dir).finals
      ensures ph.Idle? || ph.Loose? || ph.Sealed? ==> ph' == ph && dir == old(dir)
      ensures Complete(ph') == Complete(ph) && (ph'.Sealed? ==> ph' == ph)
      ensures o.Done? ==> ph'.Idle? || ph'.Loose? || ph'.Sealed?
    {
      ph' := ph;
      if dir.tomb.None? {
        return Done, ph';
      }
      if dir.stage.Some? && dir.tomb.value.Some? {
        return Died(TombstoneExists), ph';
      }
      if dir.tomb.value.Some? {
        if dir.tomb.value != Some(EMPTY_STAGE) {
          return Died(StageNotEmpty), ph';
        }
        o := Do(dir.(tomb := Some(None)));
        if o.IsFailure() {
          return;
        }
        ph' := TombOnly(Complete(ph));
      }
      if dir.stage.Some? {
        EmptyIsLoose(job, dir.(tomb := None), Complete(ph));
      }
      o := Do(dir.(tomb := None));
      if o.Done? {
        ph' := if dir.stage.Some? then Loose(0, Complete(ph)) else Idle(Complete(ph));
      }
    }

    /** `final_member_count` as the two questions its callers ask. */
    method FinalMembers() returns (none: bool, all: bool)
      ensures none <==> dir.finals == map[]
      ensures all <==> forall m :: m in dir.finals
    {
      var members := MEMBERS;
      none, all := true, true;
      for i := 0 to 4
        invariant none <==> forall j | 0 <= j < i :: MEMBERS[j] !in dir.finals
        invariant all <==> forall j | 0 <= j < i :: MEMBERS[j] in dir.finals
      {
        none := none && members[i] !in dir.finals;
        all := all && members[i] in dir.finals;
      }
      MembersListed(dir.finals);
    }

    /** `recognize_complete_output`: a whole bundle must also be valid, with one link to each file. */
    method RecognizeCompleteOutput() returns (o: Result, found: bool)
      ensures !o.Killed?
      ensures o.Died? <==> (forall m :: m in dir.finals) && !BundleOk(job, dir.finals)
      ensures found <==> o.Done? && forall m :: m in dir.finals
      ensures found ==> BundleOk(job, dir.finals)
    {
      var none, all := FinalMembers();
      if !all {
        return Done, false;
      }
      var ok := ValidateBundle(dir.finals);
      if !ok {
        return Died(BundleInvalid), false;
      }
      return Done, true;
    }

    /** `remove_empty_stage`: only temporaries of controls may be in a stage without OWNER. */
    method RemoveEmptyStage(failing: set<PublishPhase>, ghost nodes: map<Member, Node>, ghost complete: bool)
      returns (o: Result, ghost ph': Phase)
      requires At(job, dir, nodes, Loose(0, complete))
      modifies this
      ensures old(life) == Forever ==> life == Forever && !o.Killed?
      ensures At(job, dir, nodes, ph') && dir.finals == old(dir).finals && Complete(ph') == complete
      ensures o.Died? ==> o.reason.Checkpoint? && o.reason.at in failing
      ensures o.Done? ==> ph' == Idle(complete)
    {
      ph' := Loose(0, complete);
      o := ReconcileAll(nodes, ph');
      if o.IsFailure() {
        return;
      }
      assert dir.stage.value.controls == map[];
      assert dir.stage == Some(EMPTY_STAGE);
      o, ph' := CaptureAndRemoveStage(failing, complete);
    }

    /** The stage that lies beside a whole bundle: its cleanup may fail, which is only worth a warning. */
    method CleanBesideOutput(failing: set<PublishPhase>, ghost nodes: map<Member, Node>, ghost ph: Phase)
      returns (o: Result, ghost ph': Phase)
      requires ValidJob(job) && At(job, dir, nodes, ph) && Complete(ph)
      requires ph.Idle? || ph.Loose? || (ph.Sealed? && !ph.doubled)
      modifies this
      ensures old(life) == Forever ==> life == Forever && o.Done?
      ensures !o.Died? && At(job, dir, nodes, ph') && dir.finals == old(dir).finals && Complete(ph')
      ensures o.Done? && failing == {} ==> ph' == Idle(true)
    {
      ph' := ph;
      if dir.stage.None? {
        return Done, ph';
      }
      PhaseControls(job, dir, nodes, ph);
      OwnTexts(job, dir.stage.value, ControlCount(ph));
      DroppingTempKeepsPhase(job, dir, nodes, ph, Owner);
      var owner;
      o, owner := ReadStageControl(Owner, ControlCount(ph));
      if o.IsFailure() {
        return;
      }
      if owner.None? {
        o, ph' := RemoveEmptyStage(failing, nodes, true);
      } else if owner.value == job.owner {
        PhaseControls(job, dir, nodes, ph);
        DroppingTempKeepsPhase(job, dir, nodes, ph, Ready);
        var ready;
        o, ready := ReadStageControl(Ready, ControlCount(ph));
        if o.IsFailure() {
          return;
        }
        ReadyOf(job, dir, nodes, ph);
        var expected := if ready.None? then None else ParseReady(ready.value, job.binding, job.euid);
        hide ParseReady;
        if ready.Some? && expected.None? {
          return Died(ReadyInvalid), ph';
        }
        o, ph' := CleanupStage(expected, failing, nodes, ph);
      }
      o := if o.Died? then Done else o;
    }

    /** A sealed journal: promote, commit, clean up; roll back when the promotion fails. */
    method FinishSealed(expected: seq<FileSeal>, failing: set<PublishPhase>, ghost nodes: map<Member, Node>,
                        ghost p: nat, ghost doubled: bool)
      returns (o: Result, ghost ph': Phase)
      requires ValidJob(job) && At(job, dir, nodes, Phase.Sealed(p, doubled, false)) && !(doubled && p == 4)
      requires expected == Seals(nodes) && (job.noreplace || failing == {})
      requires dir.stage.value.temps == map[]
      modifies this
      ensures old(life) == Forever ==> life == Forever && !o.Killed?
      ensures At(job, dir, nodes, ph')
      ensures o.Died? ==> o.reason.Checkpoint? && o.reason.at in failing
      ensures o.Done? ==> ph' == Idle(true) && dir.finals == nodes
      ensures failing == {} ==> Holding(dir, nodes, ph')
    {
      ghost var p', doubled';
      o, p', doubled' := CompletePromotion(expected, failing, nodes, p, doubled);
      ph' := Phase.Sealed(p', doubled', false);
      if o.Killed? {
        return;
      }
      if o.Died? {
        var why := o;
        o, ph' := UndoPromotion(expected, nodes, p');
        o := if o.Killed? then o else why;
        return;
      }
      o, ph' := Commit(expected, failing, nodes);
    }

    /** COMMITTED and the cleanup that follows it. */
    method Commit(expected: seq<FileSeal>, failing: set<PublishPhase>, ghost nodes: map<Member, Node>)
      returns (o: Result, ghost ph': Phase)
      requires ValidJob(job) && At(job, dir, nodes, Phase.Sealed(4, false, false)) && expected == Seals(nodes)
      requires dir.stage.value.temps == map[]
      modifies this
      ensures old(life) == Forever ==> life == Forever && !o.Killed?
      ensures At(job, dir, nodes, ph')
      ensures o.Died? ==> o.reason.Checkpoint? && o.reason.at in failing
      ensures o.Done? ==> ph' == Idle(true) && dir.finals == nodes
      ensures Holding(dir, nodes, ph')
    {
      ph' := Phase.Sealed(4, false, false);
      ghost var dir0 := dir;
      WholeOrNothing(job, dir, nodes, 4, false);
      o := WriteControl(Control.Committed, job.committed, 3);
      CommittedPhase(job, dir0, dir, nodes);
      ph' := Phase.Sealed(4, false, Control.Committed in dir.stage.value.controls);
      if o.IsFailure() {
        return;
      }
      o := CheckpointAt(PublishPhase.Committed, failing);
      if o.IsFailure() {
        return;
      }
      o, ph' := CleanupStage(Some(expected), failing, nodes, ph');
    }

    /** After a failed promotion: roll back and, once everything is staged again, clean up without checkpoints. */
    method UndoPromotion(expected: seq<FileSeal>, ghost nodes: map<Member, Node>, ghost p: nat)
      returns (o: Result, ghost ph': Phase)
      requires ValidJob(job) && At(job, dir, nodes, Phase.Sealed(p, false, false)) && expected == Seals(nodes)
      requires dir.stage.value.temps == map[]
      modifies this
      ensures old(life) == Forever ==> life == Forever && o.Done?
      ensures !o.Died? && At(job, dir, nodes, ph')
      ensures o.Done? ==> ph' == Idle(false)
    {
      ghost var fin, q;
      o, fin, q := RollbackPromotion(expected, {}, nodes, p);
      ph' := Phase.Sealed(q, false, false);
      if o.Killed? {
        return;
      }
      o, ph' := CleanupStage(Some(expected), {}, nodes, ph');
    }

    /** What `recover_publication` does in a phase of the journal: whatever the phase holds is published, and a run that
        is cut leaves it held. */
    method Recover(failing: set<PublishPhase>, ghost nodes: map<Member, Node>, ghost ph0: Phase)
      returns (o: Result, found: bool, ghost ph: Phase)
      requires ValidJob(job) && At(job, dir, nodes, ph0) && (job.noreplace || failing == {})
      requires ph0.Sealed? || Complete(ph0) ==> Holding(dir, nodes, ph0)
      modifies this
      ensures At(job, dir, nodes, ph)
      ensures old(life) == Forever ==> life == Forever && !o.Killed?
      ensures o.Died? ==> ImageDoubled(old(dir)) || (o.reason.Checkpoint? && o.reason.at in failing)
      ensures ImageDoubled(old(dir)) ==> !o.Done? && dir == old(dir)
      ensures o.Done? && failing == {} ==> Settled(job, dir, found)
      ensures o.Done? && !found ==> dir.finals == map[] && dir.stage.None? && dir.tomb.None?
      ensures o.Done? ==> (found <==> ph0.Sealed? || Complete(ph0))
      ensures found ==> o.Done? && dir.finals == nodes
      ensures failing == {} && (ph0.Sealed? || Complete(ph0)) ==> Holding(dir, nodes, ph)
    {
      found := false;
      DoubledPhase(job, dir, nodes, ph0);
      o, ph := RecoverStageCleanup(nodes, ph0);
      if o.IsFailure() {
        return;
      }
      var whole;
      o, whole := RecognizeCompleteOutput();
      RecognizedPhase(job, dir, nodes, ph);
      if o.IsFailure() {
        return;
      }
      if whole {
        FinalsHeld(job, dir, nodes, ph);
        o, ph := CleanBesideOutput(failing, nodes, ph);
        found := o.Done?;
        return;
      }
      if dir.stage.None? {
        var none, all := FinalMembers();
        if !none {
          return Died(PartialWithoutJournal), false, ph;
        }
        return Done, false, ph;
      }
      o, found, ph := RecoverStage(failing, nodes, ph);
    }

    /** Recovery of a stage whose bundle is not whole in the destination. */
    method RecoverStage(failing: set<PublishPhase>, ghost nodes: map<Member, Node>, ghost ph: Phase)
      returns (o: Result, found: bool, ghost ph': Phase)
      requires ValidJob(job) && At(job, dir, nodes, ph) && (job.noreplace || failing == {})
      requires (ph.Loose? && !ph.complete) || (ph.Sealed? && ph.p < 4)
      modifies this
      ensures At(job, dir, nodes, ph')
      ensures old(life) == Forever ==> life == Forever && !o.Killed?
      ensures o.Died? ==> o.reason.Checkpoint? && o.reason.at in failing
      ensures o.Done? ==> Settled(job, dir, found) && (found <==> ph.Sealed?)
      ensures found ==> o.Done? && dir.finals == nodes
      ensures failing == {} && ph.Sealed? ==> Holding(dir, nodes, ph')
    {
      found := false;
      ph' := ph;
      ghost var k := ControlCount(ph);
      PhaseControls(job, dir, nodes, ph);
      OwnTexts(job, dir.stage.value, k);
      DroppingTempKeepsPhase(job, dir, nodes, ph, Owner);
      var owner, request;
      o, owner := ReadStageControl(Owner, k);
      if o.IsFailure() {
        return;
      }
      if owner.None? {
        o, ph' := RemoveEmptyStage(failing, nodes, false);
        return;
      }
      if owner.value != job.owner {
        return Died(OwnerDiverges), false, ph';
      }
      PhaseControls(job, dir, nodes, ph);
      DroppingTempKeepsPhase(job, dir, nodes, ph, Request);
      o, request := ReadStageControl(Request, k);
      if o.IsFailure() {
        return;
      }
      if request.None? {
        o, ph' := CleanupStage(None, failing, nodes, ph);
        return;
      }
      if request.value != job.request {
        return Died(RequestDiverges), false, ph';
      }
      o, found, ph' := RecoverReady(failing, nodes, ph);
    }

    /** Recovery once OWNER and REQUEST are ours: READY decides. */
    method RecoverReady(failing: set<PublishPhase>, ghost nodes: map<Member, Node>, ghost ph: Phase)
      returns (o: Result, found: bool, ghost ph': Phase)
      requires ValidJob(job) && At(job, dir, nodes, ph) && (job.noreplace || failing == {})
      requires (ph.Loose? && !ph.complete) || (ph.Sealed? && ph.p < 4)
      modifies this
      ensures At(job, dir, nodes, ph')
      ensures old(life) == Forever ==> life == Forever && !o.Killed?
      ensures o.Died? ==> o.reason.Checkpoint? && o.reason.at in failing
      ensures o.Done? ==> Settled(job, dir, found) && (found <==> ph.Sealed?)
      ensures found ==> o.Done? && dir.finals == nodes
      ensures failing == {} && ph.Sealed? ==> Holding(dir, nodes, ph')
    {
      found := false;
      ph' := ph;
      PhaseControls(job, dir, nodes, ph);
      DroppingTempKeepsPhase(job, dir, nodes, ph, Ready);
      var ready;
      o, ready := ReadStageControl(Ready, ControlCount(ph));
      if o.IsFailure() {
        return;
      }
      ReadyOf(job, dir, nodes, ph);
      if ready.None? {
        o, ph' := CleanupStage(None, failing, nodes, ph);
        return;
      }
      var expected := ParseReady(ready.value, job.binding, job.euid);
      hide ParseReady;
      if expected.None? {
        return Died(ReadyInvalid), false, ph';
      }
      NoTempsLeft(job, dir, nodes, ph);
      o, ph' := FinishSealed(expected.value, failing, nodes, ph.p, ph.doubled);
      found := o.Done?;
    }

    /** `recover_publication`. `found` is the published bundle it reports, if any. */
    method RecoverPublication(failing: set<PublishPhase>) returns (o: Result, found: bool)
      requires ValidJob(job) && Inv(job, dir) && (job.noreplace || failing == {})
      modifies this
      ensures Inv(job, dir)
      ensures old(life) == Forever ==> life == Forever && !o.Killed?
      ensures o.Died? ==> ImageDoubled(old(dir)) || (o.reason.Checkpoint? && o.reason.at in failing)
      ensures ImageDoubled(old(dir)) ==> !o.Done? && dir == old(dir)
      ensures o.Done? && failing == {} ==> Settled(job, dir, found)
      ensures o.Done? && !found ==> dir.finals == map[] && dir.stage.None? && dir.tomb.None?
      ensures o.Done? ==> (found <==> Owed(old(dir)))
      ensures found ==> o.Done? && CarriedForward(job, old(dir), dir)
      ensures failing == {} && Owed(old(dir)) ==> Owed(dir) && Kept(old(dir), dir)
    {
      ghost var dir0 := dir;
      ghost var nodes, ph0 := PhaseOf(job, dir);
      hide Owed, Kept, CarriedForward, Holding, At, Settled;
      ghost var ph;
      o, found, ph := Recover(failing, nodes, ph0);
      if ph0.Sealed? || Complete(ph0) {
        if failing == {} {
          KeptWhileHeld(job, dir0, dir, nodes, ph0, ph);
        }
        if found {
          CarriedIs(job, dir0, dir, nodes, ph0);
        }
      }
    }
    // ----------------------------------------------------------------------------------------
    // A new build
    // ----------------------------------------------------------------------------------------

    /** `create_stage`. */
    method CreateStage() returns (o: Result, ghost k: nat)
      requires dir.stage.None? && dir.tomb.None? && dir.finals == map[]
      modifies this
      ensures old(life) == Forever ==> life == Forever && o.Done?
      ensures !o.Died? && dir.tomb.None? && dir.finals == map[]
      ensures dir.stage.None? || LooseAt(job, dir, k, false)
      ensures o.Done? ==> dir.stage.Some? && k == 2 && dir.stage.value.temps == map[]
    {
      k := 0;
      o := PutStage(EMPTY_STAGE);
      if o.IsFailure() {
        return;
      }
      EmptyIsLoose(job, dir, false);
      ghost var dir0 := dir;
      assert At(job, dir, map[], Loose(0, false));
      o := WriteControl(Owner, job.owner, 0);
      k := LooseWriting(job, dir0, dir, Owner, job.owner, 0);
      if o.IsFailure() {
        return;
      }
      ghost var dir1 := dir;
      o := WriteControl(Request, job.request, 1);
      k := LooseWriting(job, dir1, dir, Request, job.request, 1);
    }

    /** The compositor and the sidecar writers: each file is created, torn, and then whole. `made` is what the
        filesystem and the compositor produced; nothing is assumed of it but that its seals are `stat` values. */
    method Prepare(made: map<Member, Node>, torn: map<Member, Node>, workspace: bool) returns (o: Result)
      requires dir.tomb.None? && LooseAt(job, dir, 2, false) && dir.stage.value.temps == map[]
      modifies this
      ensures old(life) == Forever ==> life == Forever && o.Done?
      ensures !o.Died? && dir.tomb.None? && LooseAt(job, dir, 2, false) && dir.stage.value.temps == map[]
      ensures o.Done? ==> dir.stage.value.members == made
    {
      var members := MEMBERS;
      :- PutStage(dir.stage.value.(workspace := workspace, members := map[]));
      for i := 0 to 4
        invariant old(life) == Forever ==> life == Forever
        invariant dir.tomb.None? && LooseAt(job, dir, 2, false) && dir.stage.value.temps == map[]
        invariant forall m :: m in dir.stage.value.members <==> m in made && IndexOf(m) < i
        invariant forall m :: m in dir.stage.value.members ==> dir.stage.value.members[m] == made[m]
      {
        var m := members[i];
        assert forall x :: IndexOf(x) == i <==> x == m;
        var s := dir.stage.value;
        if m in made {
          if m in torn {
            :- PutStage(s.(members := s.members[m := torn[m]]));
          }
          :- PutStage(s.(members := s.members[m := made[m]]));
        }
      }
      :- PutStage(dir.stage.value.(workspace := false));
      return Done;
    }

    /** `finish_publication`: validate what was staged, seal it, promote it. */
    method FinishPublication(failing: set<PublishPhase>) returns (o: Result)
      requires ValidJob(job) && (job.noreplace || failing == {})
      requires dir.tomb.None? && LooseAt(job, dir, 2, false) && dir.stage.value.temps == map[]
      requires AllMeasured(dir.stage.value.members)
      modifies this
      ensures Inv(job, dir)
      ensures old(life) == Forever ==> life == Forever && !o.Killed?
      ensures o.Done? ==> Settled(job, dir, true) && dir.finals == old(dir).stage.value.members
      ensures o.Died? ==> (o.reason.Checkpoint? && o.reason.at in failing)
                          || (o.reason == BundleInvalid && Settled(job, dir, false))
      ensures old(life) == Forever && failing == {} ==> (o.Done? <==> BundleOk(job, old(dir).stage.value.members))
    {
      ghost var ph := Loose(2, false);
      ghost var nodes := dir.stage.value.members;
      assert At(job, dir, nodes, ph);
      var first := CheckpointAt(Staged, failing);
      var ok := ValidateBundle(dir.stage.value.members);
      var second := CheckpointAt(Validated, failing);
      if first.Died? || !ok || second.Died? {
        var why := if first.Died? then first else if !ok then Died(BundleInvalid) else second;
        o, ph := CleanupStage(None, {}, nodes, ph);
        o := if o.Killed? then o else why;
        return;
      }
      var seals := Seals(dir.stage.value.members);
      hide LooseAt, At, BundleOk, Seals, AllMeasured;
      o, ph := SealStage(seals, nodes);
      if o.IsFailure() {
        return;
      }
      o := CheckpointAt(PublishPhase.Sealed, failing);
      if o.IsFailure() {
        var why := o;
        o, ph := UndoPromotion(seals, nodes, 0);
        o := if o.Killed? then o else why;
        return;
      }
      o, ph := FinishSealed(seals, failing, nodes, 0, false);
    }

    /** READY over a validated stage. */
    method SealStage(seals: seq<FileSeal>, ghost nodes: map<Member, Node>) returns (o: Result, ghost ph: Phase)
      requires dir.tomb.None? && LooseAt(job, dir, 2, false) && dir.stage.value.temps == map[]
      requires dir.stage.value.members == nodes && BundleOk(job, nodes) && AllMeasured(nodes) && seals == Seals(nodes)
      modifies this
      ensures old(life) == Forever ==> life == Forever && o.Done?
      ensures !o.Died? && At(job, dir, nodes, ph)
      ensures o.Done? ==> ph == Phase.Sealed(0, false, false) && dir.stage.Some? && dir.stage.value.temps == map[]
    {
      ghost var dir0 := dir;
      SealingIsLoose(job, dir0, nodes);
      o := WriteControl(Ready, ReadyBytes(job.binding, seals), 2);
      ph := SealingPhase(job, dir0, dir, nodes);
    }

    /** `build`, from recovery to publication; `made` and `torn` are what its compositor writes. */
    method Build(made: map<Member, Node>, torn: map<Member, Node>, workspace: bool, failing: set<PublishPhase>)
      returns (o: Result)
      requires ValidJob(job) && Inv(job, dir) && (job.noreplace || failing == {})
      requires AllMeasured(made)
      modifies this
      ensures Inv(job, dir)
      ensures old(life) == Forever ==> !o.Killed?
      ensures o.Done? && failing == {} ==> Settled(job, dir, true)
      ensures o.Done? ==> if Owed(old(dir)) then CarriedForward(job, old(dir), dir) else dir.finals == made
      ensures failing == {} && Owed(old(dir)) ==> Owed(dir) && Kept(old(dir), dir)
      ensures old(life) == Forever && failing == {} ==>
                (o.Done? <==> !ImageDoubled(old(dir)) && (Owed(old(dir)) || BundleOk(job, made)))
      ensures old(life) == Forever && failing == {} && o.Died? ==>
                if ImageDoubled(old(dir)) then dir == old(dir) else Settled(job, dir, false)
    {
      ghost var dir0 := dir;
      var found;
      o, found := RecoverPublication(failing);
      if o.IsFailure() || found {
        return;
      }
      o := BuildNew(made, torn, workspace, failing);
    }

    /** The build itself, when recovery left nothing. */
    method BuildNew(made: map<Member, Node>, torn: map<Member, Node>, workspace: bool, failing: set<PublishPhase>)
      returns (o: Result)
      requires ValidJob(job) && (job.noreplace || failing == {})
      requires dir.finals == map[] && dir.stage.None? && dir.tomb.None? && AllMeasured(made)
      modifies this
      ensures Inv(job, dir)
      ensures old(life) == Forever ==> !o.Killed?
      ensures o.Done? ==> Settled(job, dir, true) && dir.finals == made
      ensures old(life) == Forever && failing == {} ==> (o.Done? <==> BundleOk(job, made))
      ensures old(life) == Forever && failing == {} && o.Died? ==> Settled(job, dir, false)
    {
      assert At(job, dir, map[], Idle(false));
      var none, all := FinalMembers();
      if !none {
        return Died(OutputExists);
      }
      ghost var k;
      o, k := CreateStage();
      if o.IsFailure() {
        StageIsInv(job, dir, k);
        return;
      }
      o := Prepare(made, torn, workspace);
      if o.IsFailure() {
        StageIsInv(job, dir, 2);
        return;
      }
      o := FinishPublication(failing);
    }
  }

  // ------------------------------------------------------------------------------------------
  // Any number of builds and recoveries
  // ------------------------------------------------------------------------------------------

  /** A build or a recovery that is killed after `calls` system calls, with injected checkpoint failures. */
  datatype Event =
    | CutBuild(calls: nat, made: map<Member, Node>, torn: map<Member, Node>, workspace: bool,
               failing: set<PublishPhase>)
    | CutRecovery(calls: nat, failing: set<PublishPhase>)

  predicate Allowed(job: Job, e: Event) {
    && (job.noreplace || e.failing == {})
    && (e.CutBuild? ==> forall m | m in e.made :: Measured(e.made[m].seal))
  }

  const NOTHING := MediaJournal.Directory(map[], None, None)

  method Suffer(d: Publisher, e: Event)
    requires ValidJob(d.job) && Inv(d.job, d.dir) && Allowed(d.job, e)
    modifies d
    ensures Inv(d.job, d.dir)
    ensures e.failing == {} && Owed(old(d.dir)) ==> Owed(d.dir) && Kept(old(d.dir), d.dir)
  {
    d.life := Calls(e.calls);
    match e {
      case CutBuild(_, made, torn, workspace, failing) => var _ := d.Build(made, torn, workspace, failing);
      case CutRecovery(_, failing) => var _, _ := d.RecoverPublication(failing);
    }
  }

  /** Recovery. After any number of builds and recoveries of one invocation, each killed anywhere, one uninterrupted
      `recover_publication` publishes the bundle exactly when one was published or its READY was written, with the very
      files and seals, and leaves nothing otherwise; no stage and no tombstone stays. The one exception needs a
      filesystem without renameat2: a kill between the link and the unlink of the image. */
  method RecoverAfterAnything(job: Job, events: seq<Event>)
    returns (d: Publisher, o: Result, found: bool, before: MediaJournal.Directory)
    requires ValidJob(job) && forall e | e in events :: Allowed(job, e)
    ensures d.job == job && Inv(job, before)
    ensures o.Done? <==> !ImageDoubled(before)
    ensures o.Done? ==> Settled(job, d.dir, found) && (found <==> Owed(before))
    ensures found ==> CarriedForward(job, before, d.dir)
    ensures job.noreplace ==> o.Done?
  {
    d := new Publisher(job, NOTHING);
    assert At(job, NOTHING, map[], Idle(false));
    hide Owed, Kept, CarriedForward, Settled;
    for i := 0 to |events|
      invariant d.job == job && Inv(job, d.dir)
    {
      assert events[i] in events;
      Suffer(d, events[i]);
    }
    d.life := Forever;
    before := d.dir;
    o, found := d.RecoverPublication({});
    if job.noreplace {
      ghost var nodes: map<Member, Node>, ph :| At(job, before, nodes, ph);
      DoubledPhase(job, before, nodes, ph);
    }
  }

  /** A bundle that is published, or whose READY was written, survives every later build and recovery that is killed
      anywhere, whatever those builds make, and one uninterrupted recovery publishes its files. */
  method SealedIsPublished(d: Publisher, events: seq<Event>) returns (o: Result, found: bool)
    requires ValidJob(d.job) && d.job.noreplace && Inv(d.job, d.dir) && Owed(d.dir)
    requires forall e | e in events :: Allowed(d.job, e) && e.failing == {}
    modifies d
    ensures o.Done? && found && Settled(d.job, d.dir, true) && FilesCarried(old(d.dir), d.dir)
  {
    hide Owed, Kept, FilesCarried, SealsCarried, Settled;
    ghost var before := d.dir;
    KeptItself(before);
    for i := 0 to |events|
      invariant Inv(d.job, d.dir) && Owed(d.dir) && Kept(before, d.dir)
    {
      assert events[i] in events;
      ghost var last := d.dir;
      Suffer(d, events[i]);
      KeptTransitive(before, last, d.dir);
    }
    d.life := Forever;
    ghost var nodes: map<Member, Node>, ph :| At(d.job, d.dir, nodes, ph);
    DoubledPhase(d.job, d.dir, nodes, ph);
    ghost var last := d.dir;
    o, found := d.RecoverPublication({});
    KeptThenCarried(before, last, d.dir);
  }
}
