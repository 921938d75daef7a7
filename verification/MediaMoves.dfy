/** What each move of a bundle member does to a sealed journal. */
module MediaMoves {
  import opened Options
  import opened Text
  import opened MediaReady
  import opened MediaJournal

  function IndexOf(m: Member): (j: nat)
    ensures j < 4 && MEMBERS[j] == m
  {
    match m case Image => 0 case Sha256 => 1 case MediaLock => 2 case Manifest => 3
  }

  function WithLinks(n: Node, links: nat): Node { n.(seal := n.seal.(nlink := links)) }

  /** renameat from the stage to the destination. */
  function Promoted(dir: Directory, m: Member): Directory
    requires dir.stage.Some? && m in dir.stage.value.members
  {
    var s := dir.stage.value;
    dir.(finals := dir.finals[m := s.members[m]], stage := Some(s.(members := s.members - {m})))
  }

  /** linkat from the stage to the destination: one inode, two names. */
  function LinkedToo(dir: Directory, m: Member): Directory
    requires dir.stage.Some? && m in dir.stage.value.members
  {
    var s := dir.stage.value;
    var n := WithLinks(s.members[m], 2);
    dir.(finals := dir.finals[m := n], stage := Some(s.(members := s.members[m := n])))
  }

  /** unlinkat of the staged name of a doubled member. */
  function Unstaged(dir: Directory, m: Member): Directory
    requires dir.stage.Some? && m in dir.finals
  {
    var s := dir.stage.value;
    dir.(finals := dir.finals[m := WithLinks(dir.finals[m], 1)], stage := Some(s.(members := s.members - {m})))
  }

  /** renameat from the destination back to the stage. */
  function Demoted(dir: Directory, m: Member): Directory
    requires dir.stage.Some? && m in dir.finals
  {
    var s := dir.stage.value;
    dir.(finals := dir.finals - {m}, stage := Some(s.(members := s.members[m := dir.finals[m]])))
  }

  lemma OneOfRank(m: Member)
    ensures forall x :: Rank(x) == Rank(m) ==> x == m
  {
  }

  lemma PlacePromoted(f: map<Member, Node>, s: map<Member, Node>, nodes: map<Member, Node>, m: Member)
    requires Placed(f, s, nodes, Rank(m), false)
    ensures m in s && m !in f
    ensures Placed(f[m := s[m]], s - {m}, nodes, Rank(m) + 1, false)
  {
    OneOfRank(m);
  }

  lemma PlaceLinked(f: map<Member, Node>, s: map<Member, Node>, nodes: map<Member, Node>, m: Member)
    requires Placed(f, s, nodes, Rank(m), false)
    ensures m in s && m !in f
    ensures var n := WithLinks(s[m], 2); Placed(f[m := n], s[m := n], nodes, Rank(m) + 1, true)
  {
    OneOfRank(m);
  }

  lemma PlaceUnlinked(f: map<Member, Node>, s: map<Member, Node>, nodes: map<Member, Node>, m: Member)
    requires Placed(f, s, nodes, Rank(m) + 1, true) && nodes[m].seal.nlink == 1
    ensures m in f && m in s && f[m] == WithLinks(nodes[m], 2) && s[m] == WithLinks(nodes[m], 2)
    ensures Placed(f[m := WithLinks(f[m], 1)], s - {m}, nodes, Rank(m) + 1, false)
  {
    OneOfRank(m);
    assert WithLinks(WithLinks(nodes[m], 2), 1) == nodes[m];
  }

  /** The journal part of a sealed stage does not depend on where the members are. */
  lemma JournalKept(job: Job, s: Stage, nodes: map<Member, Node>, members: map<Member, Node>)
    requires SealedJournal(job, s, nodes, false)
    ensures SealedJournal(job, s.(members := members), nodes, false)
    ensures forall m :: m in nodes && nodes[m].seal.nlink == 1
  {
  }

  lemma PromoteStep(job: Job, dir: Directory, nodes: map<Member, Node>, m: Member)
    requires SealedAt(job, dir, nodes, Rank(m), false, false)
    ensures m in dir.stage.value.members && m !in dir.finals
    ensures SealedAt(job, Promoted(dir, m), nodes, Rank(m) + 1, false, false)
  {
    PlacePromoted(dir.finals, dir.stage.value.members, nodes, m);
    JournalKept(job, dir.stage.value, nodes, dir.stage.value.members - {m});
    hide Placed, SealedJournal;
  }

  lemma LinkStep(job: Job, dir: Directory, nodes: map<Member, Node>, m: Member)
    requires SealedAt(job, dir, nodes, Rank(m), false, false) && !job.noreplace
    ensures m in dir.stage.value.members
    ensures SealedAt(job, LinkedToo(dir, m), nodes, Rank(m) + 1, true, false)
  {
    PlaceLinked(dir.finals, dir.stage.value.members, nodes, m);
    JournalKept(job, dir.stage.value, nodes, LinkedToo(dir, m).stage.value.members);
    hide Placed, SealedJournal;
  }

  lemma UnlinkStep(job: Job, dir: Directory, nodes: map<Member, Node>, m: Member)
    requires SealedAt(job, dir, nodes, Rank(m) + 1, true, false)
    ensures m in dir.finals && m in dir.stage.value.members && m in nodes && nodes[m].seal.nlink == 1
    ensures dir.finals[m] == WithLinks(nodes[m], 2) && dir.stage.value.members[m] == WithLinks(nodes[m], 2)
    ensures SealedAt(job, Unstaged(dir, m), nodes, Rank(m) + 1, false, false)
  {
    JournalKept(job, dir.stage.value, nodes, dir.stage.value.members - {m});
    PlaceUnlinked(dir.finals, dir.stage.value.members, nodes, m);
    hide Placed, SealedJournal;
  }

  /** Where member `m` is while `p` members are in the destination, unless it is the doubled one. */
  lemma MemberPlace(job: Job, dir: Directory, nodes: map<Member, Node>, p: nat, doubled: bool, m: Member)
    requires SealedAt(job, dir, nodes, p, doubled, false) && !(doubled && Rank(m) + 1 == p)
    ensures m in nodes && nodes[m].seal.nlink == 1
    ensures if Rank(m) < p then m in dir.finals && m !in dir.stage.value.members && dir.finals[m] == nodes[m]
            else m !in dir.finals && m in dir.stage.value.members && dir.stage.value.members[m] == nodes[m]
  {
    JournalKept(job, dir.stage.value, nodes, dir.stage.value.members);
    hide SealedJournal;
  }

  /** A rollback that may fail for some members: `fin` is the set still in the destination. */
  ghost predicate SplitAt(job: Job, dir: Directory, nodes: map<Member, Node>, fin: set<Member>) {
    && dir.stage.Some? && (forall m :: m in nodes)
    && (forall m :: m in dir.finals <==> m in fin)
    && (forall m :: m in dir.stage.value.members <==> m !in fin)
    && (forall m :: m in dir.finals ==> dir.finals[m] == nodes[m])
    && (forall m :: m in dir.stage.value.members ==> dir.stage.value.members[m] == nodes[m])
  }

  function Prefix(p: nat): set<Member> { set m: Member | Rank(m) < p }

  lemma DemoteStep(job: Job, dir: Directory, nodes: map<Member, Node>, fin: set<Member>, m: Member)
    requires SplitAt(job, dir, nodes, fin) && m in fin
    ensures m in dir.finals && m !in dir.stage.value.members && dir.finals[m] == nodes[m]
    ensures SplitAt(job, Demoted(dir, m), nodes, fin - {m})
  {
  }

  /** While a rollback meets no failure, what it leaves in the destination is a prefix of the promotion order. */
  lemma SplitIsSealed(job: Job, dir: Directory, nodes: map<Member, Node>, p: nat)
    requires p <= 4 && dir.stage.Some? && SealedJournal(job, dir.stage.value, nodes, false)
    requires Committed in dir.stage.value.temps ==> p == 4
    ensures SplitAt(job, dir, nodes, Prefix(p)) <==> SealedAt(job, dir, nodes, p, false, false)
  {
    hide SealedJournal;
    assert forall m :: m in Prefix(p) <==> Rank(m) < p;
    assert SealedAt(job, dir, nodes, p, false, false) ==> forall m :: m in nodes;
  }

  // ------------------------------------------------------------------------------------------
  // Facts about phases
  // ------------------------------------------------------------------------------------------

  /** What a rollback from prefix `p` has left after the first `i` members of the reversed order. */
  ghost function LeftAfter(p: nat, i: nat, broken: set<Member>): set<Member> {
    set m: Member | Rank(m) < p && (Rank(m) + i < 4 || m in broken)
  }

  /** Of those, the ones that have failed already. */
  ghost function Stuck(p: nat, i: nat, broken: set<Member>): set<Member> {
    set m: Member | Rank(m) < p && Rank(m) + i >= 4 && m in broken
  }

  lemma LeftBounds(p: nat, broken: set<Member>)
    ensures LeftAfter(p, 0, broken) == Prefix(p) && Stuck(p, 0, broken) == {}
    ensures LeftAfter(p, 4, broken) == Prefix(p) * broken == Stuck(p, 4, broken)
  {
    assert forall m :: Rank(m) < 4;
  }

  lemma LeftStep(p: nat, i: nat, broken: set<Member>, m: Member)
    requires Rank(m) + i == 3
    ensures var left := LeftAfter(p, i, broken);
      if m in left && m in broken
      then LeftAfter(p, i + 1, broken) == left && Stuck(p, i + 1, broken) == Stuck(p, i, broken) + {m}
      else LeftAfter(p, i + 1, broken) == left - {m} && Stuck(p, i + 1, broken) == Stuck(p, i, broken)
  {
    assert forall x :: Rank(x) == Rank(m) ==> x == m;
  }

  const SIDECARS: set<Member> := {Sha256, MediaLock, Manifest}

  /** What a rollback from prefix `p` whose moves fail for `broken` leaves in the destination keeps "an image implies
      its sidecars" unless the image was promoted, its move fails and a sidecar's succeeds. */
  lemma ImageLastIff(job: Job, dir: Directory, nodes: map<Member, Node>, p: nat, broken: set<Member>)
    requires SplitAt(job, dir, nodes, Prefix(p) * broken)
    ensures (Image in dir.finals ==> SIDECARS <= dir.finals.Keys)
        <==> !(p >= 4 && Image in broken && exists m | m in SIDECARS :: m !in broken)
  {
    assert Rank(Image) == 3 && forall m | m in SIDECARS :: Rank(m) < 3;
    if p >= 4 && Image in broken {
      assert Image in dir.finals;
      forall m | m in SIDECARS ensures m in dir.finals <==> m in broken {
        assert m in Prefix(p);
      }
    }
  }

  /** A rollback from prefix `p` has come to the `i`-th of the reversed order. */
  ghost predicate RolledBack(job: Job, dir0: Directory, dir: Directory, nodes: map<Member, Node>, p: nat, i: nat,
                             broken: set<Member>)
  {
    dir.tomb.None? && SplitAt(job, dir, nodes, LeftAfter(p, i, broken)) && SameControls(dir0, dir)
  }

  lemma ReversedRank(i: nat)
    requires i < 4
    ensures Rank(PROMOTION_ORDER[3 - i]) + i == 3
  {
  }

  lemma SealsOfNodes(nodes: map<Member, Node>)
    requires forall m :: m in nodes
    ensures forall m :: SealOf(Seals(nodes), m) == nodes[m].seal
  {
  }

  lemma SameControlsTrans(a: Directory, b: Directory, c: Directory)
    requires SameControls(a, b) && SameControls(b, c)
    ensures SameControls(a, c)
  {
  }

  lemma StillSealed(job: Job, dir0: Directory, dir: Directory, nodes: map<Member, Node>,
                    p: nat, i: nat, broken: set<Member>)
    returns (q: nat)
    requires SealedAt(job, dir0, nodes, p, false, false) && SameControls(dir0, dir) && i <= 4
    requires SplitAt(job, dir, nodes, LeftAfter(p, i, broken)) && Control.Committed !in dir.stage.value.temps
    ensures broken == {} ==> SealedAt(job, dir, nodes, q, false, false) && (i == 4 ==> q == 0)
  {
    q := if p + i < 4 then p else 4 - i;
    if broken == {} {
      LeftIsPrefix(p, i, q);
      JournalCarried(job, dir0, dir, nodes, p);
      hide SealedAt, SplitAt, SealedJournal, LeftAfter, Prefix;
      SplitIsSealed(job, dir, nodes, q);
    }
  }

  lemma LeftIsPrefix(p: nat, i: nat, q: nat)
    requires i <= 4 && q == if p + i < 4 then p else 4 - i
    ensures LeftAfter(p, i, {}) == Prefix(q)
  {
    assert forall m: Member :: Rank(m) < 4;
  }

  lemma JournalCarried(job: Job, dir0: Directory, dir: Directory, nodes: map<Member, Node>, p: nat)
    requires SealedAt(job, dir0, nodes, p, false, false) && SameControls(dir0, dir)
    ensures dir.stage.Some? && SealedJournal(job, dir.stage.value, nodes, false) && p <= 4
  {
    assert dir.stage.value.controls == dir0.stage.value.controls && dir.stage.value.temps == dir0.stage.value.temps;
    hide BundleOk, AllMeasured, ReadyBytes, Placed;
  }

  function WithoutControl(s: Stage, c: Control): Stage { s.(controls := s.controls - {c}) }

  function ControlCount(ph: Phase): nat {
    match ph
    case Loose(k, _) => k
    case Sealed(_, _, committed) => if committed then 4 else 3
    case _ => 0
  }

  /** Whether the destination holds the whole bundle in this phase, when that is determined. */
  function Complete(ph: Phase): bool {
    match ph
    case Sealed(p, _, _) => p == 4
    case Idle(c) => c
    case Loose(_, c) => c
    case Reserved(c) => c
    case Captured(c) => c
    case TombOnly(c) => c
  }

  /** The states in which a cleanup is started, with the seals it is given. */
  ghost predicate CleanupCase(nodes: map<Member, Node>, ph: Phase, expected: Option<seq<FileSeal>>) {
    || (ph.Loose? && expected == None)
    || (ph.Sealed? && !ph.doubled && (ph.p == 0 || ph.p == 4) && (forall m :: m in nodes)
        && expected == Some(Seals(nodes)))
  }

  lemma PhaseControls(job: Job, dir: Directory, nodes: map<Member, Node>, ph: Phase)
    requires At(job, dir, nodes, ph) && (ph.Loose? || ph.Sealed?)
    ensures dir.stage.Some? && ControlsAre(job, dir.stage.value, ControlCount(ph))
  {
  }

  lemma DroppingTempKeepsPhase(job: Job, dir: Directory, nodes: map<Member, Node>, ph: Phase, c: Control)
    requires At(job, dir, nodes, ph) && (ph.Loose? || ph.Sealed?)
    ensures dir.stage.Some? && At(job, dir.(stage := Some(WithoutTemp(dir.stage.value, c))), nodes, ph)
  {
    DroppingTempKeepsControls(job, dir.stage.value, c, ControlCount(ph));
    hide ControlTexts, TempsAre, BundleOk, AllMeasured, Placed, ReadyBytes;
  }

  /** Removing COMMITTED and READY from a stage without temporaries. */
  lemma UnsealSteps(job: Job, dir: Directory, nodes: map<Member, Node>, ph: Phase)
    requires At(job, dir, nodes, ph) && dir.stage.Some? && dir.stage.value.temps == map[]
    requires ph.Loose? || (ph.Sealed? && !ph.doubled && (ph.p == 0 || ph.p == 4))
    ensures var s := dir.stage.value;
      && (Control.Committed in s.controls ==> s.controls[Control.Committed] == job.committed)
      && var s1 := WithoutControl(s, Control.Committed);
         var s2 := WithoutControl(s1, Ready);
         && At(job, dir.(stage := Some(s1)), nodes, if ph.Sealed? then ph.(committed := false) else ph)
         && At(job, dir.(stage := Some(s2)), nodes, if ph.Sealed? then Loose(2, ph.p == 4) else ph)
         && (ph.Sealed? ==> Ready in s.controls && s.controls[Ready] == ReadyBytes(job.binding, Seals(nodes)))
  {
    var s := dir.stage.value;
    var s1 := WithoutControl(s, Control.Committed);
    var s2 := WithoutControl(s1, Ready);
    PhaseControls(job, dir, nodes, ph);
    FewerControls(job, s, ControlCount(ph));
    if ph.Sealed? {
      WholeOrNothing(job, dir, nodes, ph.p, ph.committed);
    }
    hide ControlTexts, TempsAre, BundleOk, AllMeasured, Placed, ReadyBytes;
    if ph.Sealed? {
      assert SealedAt(job, dir.(stage := Some(s1)), nodes, ph.p, false, false);
      assert LooseAt(job, dir.(stage := Some(s2)), 2, ph.p == 4);
    } else {
      assert s1 == s && s2 == s;
    }
  }

  lemma RemovalSteps(job: Job, dir: Directory, k: nat, complete: bool)
    requires LooseAt(job, dir, k, complete)
    requires var s := dir.stage.value; s.temps == map[] && s.members == map[] && !s.workspace
    ensures var s := dir.stage.value;
      && (Request in s.controls ==> s.controls[Request] == job.request)
      && (Owner in s.controls ==> s.controls[Owner] == job.owner)
      && var s1 := WithoutControl(s, Request);
         var s2 := WithoutControl(s1, Owner);
         && (Owner in s1.controls ==> s1.controls[Owner] == job.owner)
         && LooseAt(job, dir.(stage := Some(s1)), if k == 2 then 1 else k, complete)
         && LooseAt(job, dir.(stage := Some(s2)), 0, complete) && s2 == EMPTY_STAGE
  {
    var s := dir.stage.value;
    var s2 := WithoutControl(WithoutControl(s, Request), Owner);
    assert forall c :: c !in s2.controls by {
      forall c ensures c !in s2.controls {
        match c { case Owner => case Request => case Ready => case Committed => }
      }
    }
    assert s2.controls == map[];
  }

  lemma EmptyIsLoose(job: Job, dir: Directory, complete: bool)
    requires dir.stage == Some(EMPTY_STAGE) && dir.tomb.None? && FinalsAre(job, dir, complete)
    ensures forall nodes :: At(job, dir, nodes, Loose(0, complete))
  {
    assert LooseAt(job, dir, 0, complete);
  }

  /** Before a cleanup, every staged member is the one that READY records. */
  lemma StagedIdentity(job: Job, dir: Directory, nodes: map<Member, Node>, ph: Phase,
                       expected: Option<seq<FileSeal>>)
    requires At(job, dir, nodes, ph) && CleanupCase(nodes, ph, expected)
    ensures dir.stage.Some? && (expected.Some? ==> |expected.value| == 4)
    ensures expected.Some? ==> forall m :: m in dir.stage.value.members ==>
      SameIdentity(dir.stage.value.members[m].seal, SealOf(expected.value, m))
  {
    hide SealedJournal, ReadyBytes;
  }

  lemma WholeOrNothing(job: Job, dir: Directory, nodes: map<Member, Node>, p: nat, committed: bool)
    requires SealedAt(job, dir, nodes, p, false, committed) && (p == 0 || p == 4)
    ensures FinalsAre(job, dir, p == 4) && (p == 4 ==> dir.stage.value.members == map[] && dir.finals == nodes)
  {
  }

  lemma FewerControls(job: Job, s: Stage, k: nat)
    requires ControlsAre(job, s, k) && s.temps == map[] && k <= 4
    ensures k <= 2 ==> s.controls - {Control.Committed} == s.controls && s.controls - {Ready} == s.controls
    ensures var s1 := WithoutControl(s, Control.Committed); var s2 := WithoutControl(s1, Ready);
      && (k >= 3 ==>
            ControlsAre(job, s1, 3) && ControlsAre(job, s2, 2) && Ready in s1.controls
            && s1.controls[Ready] == s.controls[Ready])
      && Ready !in s2.controls && (k <= 2 ==> s1 == s && s2 == s)
  {
    assert ControlRank(Ready) == 2 && ControlRank(Control.Committed) == 3;
  }

  /** The stage exists on both sides with the same controls and temporaries. */
  ghost predicate SameControls(before: Directory, after: Directory) {
    && before.stage.Some? && after.stage.Some? && after.stage.value.controls == before.stage.value.controls
    && after.stage.value.temps == before.stage.value.temps
    && after.stage.value.workspace == before.stage.value.workspace
  }

  /** The checks of `validate_bundle_at` on one member. */
  predicate MemberOk(job: Job, n: Node, m: Member) {
    n.seal.nlink == 1 && Owned(job.binding, job.euid, n.seal) && (m != Image ==> n.seal.len <= MAX_CONTROL)
  }

  lemma AllMembers(job: Job, nodes: map<Member, Node>)
    requires forall j | 0 <= j < 4 :: MEMBERS[j] in nodes && MemberOk(job, nodes[MEMBERS[j]], MEMBERS[j])
    ensures forall m :: m in nodes && MemberOk(job, nodes[m], m)
  {
    forall m ensures m in nodes && MemberOk(job, nodes[m], m) {
      assert MEMBERS[IndexOf(m)] == m;
    }
  }

  /** With all four promoted and none doubled the destination is the sealed bundle. */
  lemma WholeBundle(job: Job, dir: Directory, nodes: map<Member, Node>)
    requires SealedAt(job, dir, nodes, 4, false, false)
    ensures dir.finals == nodes && BundleOk(job, nodes)
  {
  }

  function WithTemp(s: Stage, c: Control, text: string, linked: bool): Stage {
    s.(temps := map[c := TempFile(text, linked)])
  }

  function WithoutTemp(s: Stage, c: Control): Stage { s.(temps := s.temps - {c}) }

  function WithControl(s: Stage, c: Control, text: string): Stage {
    s.(controls := s.controls[c := text], temps := map[])
  }

  /** `after` is a moment in the writing of control `c` over `before`: nothing else has changed. */
  ghost predicate Writing(job: Job, before: Directory, after: Directory, c: Control,
                          text: string, k: nat)
    requires before.stage.Some?
  {
    && after.stage.Some? && after.finals == before.finals && after.tomb == before.tomb
    && var s, t := before.stage.value, after.stage.value;
       && t.members == s.members && t.workspace == s.workspace && (forall x :: x in t.temps ==> x == c)
       && ((t.controls == s.controls && ControlsAre(job, t, k))
           || (t.controls == s.controls[c := text] && ControlsAre(job, t, k + 1)))
  }

  predicate OwnText(job: Job, c: Control, text: string) {
    match c
    case Owner => text == job.owner
    case Request => text == job.request
    case Ready => true
    case Committed => text == job.committed
  }

  lemma TextsGrow(job: Job, controls: map<Control, string>, c: Control, text: string, k: nat)
    requires ControlTexts(job, controls, k) && ControlRank(c) == k && OwnText(job, c, text)
    ensures c !in controls && ControlTexts(job, controls[c := text], k + 1)
  {
    assert forall d :: ControlRank(d) == k ==> d == c;
  }

  lemma OneTemp(job: Job, controls: map<Control, string>, c: Control, text: string, k: nat)
    requires ControlRank(c) == k
    ensures TempsAre(job, map[c := TempFile(text, false)], controls, k)
    ensures !job.noreplace ==> TempsAre(job, map[c := TempFile(text, true)], controls[c := text], k + 1)
    ensures TempsAre(job, map[], controls, k)
  {
  }

  lemma WritingBefore(job: Job, dir: Directory, c: Control, text: string, t: string, k: nat)
    requires dir.stage.Some? && ControlsAre(job, dir.stage.value, k) && ControlRank(c) == k
    ensures Writing(job, dir, dir.(stage := Some(WithTemp(dir.stage.value, c, t, false))), c, text, k)
  {
    OneTemp(job, dir.stage.value.controls, c, t, k);
    hide ControlTexts, TempsAre;
  }

  lemma WritingAfter(job: Job, dir: Directory, c: Control, text: string, k: nat)
    requires dir.stage.Some? && ControlsAre(job, dir.stage.value, k) && ControlRank(c) == k && OwnText(job, c, text)
    ensures c !in dir.stage.value.controls
    ensures Writing(job, dir, dir.(stage := Some(WithControl(dir.stage.value, c, text))), c, text, k)
  {
    TextsGrow(job, dir.stage.value.controls, c, text, k);
    assert TempsAre(job, map[], dir.stage.value.controls[c := text], k + 1);
    hide ControlTexts, TempsAre, OwnText;
  }

  /** Between link and unlink of a control, where there is no renameat2. */
  lemma WritingLinked(job: Job, dir: Directory, c: Control, text: string, k: nat)
    requires dir.stage.Some? && ControlsAre(job, dir.stage.value, k) && ControlRank(c) == k && OwnText(job, c, text)
    requires !job.noreplace
    ensures var s := dir.stage.value;
      Writing(job, dir, dir.(stage := Some(WithTemp(s.(controls := s.controls[c := text]), c, text, true))), c, text, k)
  {
    TextsGrow(job, dir.stage.value.controls, c, text, k);
    OneTemp(job, dir.stage.value.controls, c, text, k);
    hide ControlTexts, TempsAre, OwnText;
  }

  lemma DroppingTempKeepsControls(job: Job, s: Stage, c: Control, k: nat)
    requires ControlsAre(job, s, k)
    ensures ControlsAre(job, WithoutTemp(s, c), k)
  {
  }

  lemma MembersListed(nodes: map<Member, Node>)
    ensures nodes == map[] <==> forall j | 0 <= j < 4 :: MEMBERS[j] !in nodes
    ensures (forall m :: m in nodes) <==> forall j | 0 <= j < 4 :: MEMBERS[j] in nodes
  {
    assert MEMBERS[0] == Image && MEMBERS[1] == Sha256 && MEMBERS[2] == MediaLock && MEMBERS[3] == Manifest;
    if forall j | 0 <= j < 4 :: MEMBERS[j] !in nodes {
      forall m ensures m !in nodes {
        match m { case Image => case Sha256 => case MediaLock => case Manifest => }
      }
    }
    if forall j | 0 <= j < 4 :: MEMBERS[j] in nodes {
      forall m ensures m in nodes {
        match m { case Image => case Sha256 => case MediaLock => case Manifest => }
      }
    }
  }

  lemma OwnTexts(job: Job, s: Stage, k: nat)
    requires ControlsAre(job, s, k)
    ensures Owner in s.controls <==> k > 0
    ensures Request in s.controls <==> k > 1
    ensures Ready in s.controls <==> k > 2
    ensures Control.Committed in s.controls <==> k > 3
    ensures Owner in s.controls ==> s.controls[Owner] == job.owner
    ensures Request in s.controls ==> s.controls[Request] == job.request
  {
    assert ControlRank(Owner) == 0 && ControlRank(Request) == 1 && ControlRank(Ready) == 2;
    assert ControlRank(Control.Committed) == 3;
  }

  /** READY exists exactly in a sealed phase, and parses back to the seals of the bundle. */
  lemma ReadyOf(job: Job, dir: Directory, nodes: map<Member, Node>, ph: Phase)
    requires ValidJob(job) && At(job, dir, nodes, ph) && (ph.Loose? || ph.Sealed?)
    ensures dir.stage.Some? && (Ready in dir.stage.value.controls <==> ph.Sealed?)
    ensures ph.Sealed? ==> forall m :: m in nodes
    ensures ph.Sealed? ==> ParseReady(dir.stage.value.controls[Ready], job.binding, job.euid) == Some(Seals(nodes))
  {
    PhaseControls(job, dir, nodes, ph);
    OwnTexts(job, dir.stage.value, ControlCount(ph));
    if ph.Sealed? {
      ReadySeals(job, nodes);
    }
  }

  /** Nothing but the whole bundle, or nothing at all. */
  ghost predicate Settled(job: Job, dir: Directory, found: bool) {
    dir.stage.None? && dir.tomb.None? && if found then BundleOk(job, dir.finals) else dir.finals == map[]
  }

  /** A sealed journal with members still to promote has no temporary but one linked to READY. */
  lemma NoTempsLeft(job: Job, dir: Directory, nodes: map<Member, Node>, ph: Phase)
    requires At(job, dir, nodes, ph) && ph.Sealed? && ph.p < 4 && Ready !in dir.stage.value.temps
    ensures dir.stage.value.temps == map[] && !ph.committed
  {
    assert ControlRank(Owner) == 0 && ControlRank(Request) == 1 && ControlRank(Ready) == 2;
  }

  /** While COMMITTED is being written the journal stays sealed. */
  lemma CommittedPhase(job: Job, before: Directory, after: Directory, nodes: map<Member, Node>)
    requires At(job, before, nodes, Sealed(4, false, false))
    requires Writing(job, before, after, Control.Committed, job.committed, 3)
    ensures At(job, after, nodes, Sealed(4, false, Control.Committed in after.stage.value.controls))
  {
    OwnTexts(job, after.stage.value, if Control.Committed in after.stage.value.controls then 4 else 3);
  }

  /** In the invariant, a doubled image is the one phase that recovery refuses. */
  lemma DoubledPhase(job: Job, dir: Directory, nodes: map<Member, Node>, ph: Phase)
    requires At(job, dir, nodes, ph)
    ensures ImageDoubled(dir) <==> ph.Sealed? && ph.p == 4 && ph.doubled
  {
    if ph.Loose? {
      OwnTexts(job, dir.stage.value, ph.k);
    }
  }

  /** When the destination is whole it is a valid bundle, unless the image is doubled. */
  lemma RecognizedPhase(job: Job, dir: Directory, nodes: map<Member, Node>, ph: Phase)
    requires At(job, dir, nodes, ph) && (ph.Idle? || ph.Loose? || ph.Sealed?)
    ensures (forall m :: m in dir.finals) <==> Complete(ph)
    ensures Complete(ph) ==> (BundleOk(job, dir.finals) <==> !(ph.Sealed? && ph.doubled))
    ensures !Complete(ph) && !ph.Sealed? ==> dir.finals == map[]
  {
    if ph.Sealed? && ph.p == 4 {
      assert Rank(Image) == 3;
      if !ph.doubled {
        WholeOrNothing(job, dir, nodes, 4, ph.committed);
      }
    }
    if !Complete(ph) {
      assert Rank(Image) == 3 && Image !in dir.finals;
    }
  }

  lemma StageIsInv(job: Job, dir: Directory, k: nat)
    requires dir.tomb.None? && (if dir.stage.None? then dir.finals == map[] else LooseAt(job, dir, k, false))
    ensures Inv(job, dir)
  {
    var nodes: map<Member, Node> := map[];
    assert At(job, dir, nodes, if dir.stage.None? then Idle(false) else Loose(k, false));
  }

  /** OWNER or REQUEST being written in a stage with no members. */
  lemma LooseWriting(job: Job, before: Directory, after: Directory, c: Control, text: string, k: nat) returns (k': nat)
    requires LooseAt(job, before, k, false) && before.stage.value.members == map[] && !before.stage.value.workspace
    requires ControlRank(c) == k < 2 && Writing(job, before, after, c, text, k)
    ensures LooseAt(job, after, k', false)
    ensures after.stage.value.controls == before.stage.value.controls[c := text] ==> k' == k + 1
  {
    k' := if c in after.stage.value.controls then k + 1 else k;
  }

  lemma SealingIsLoose(job: Job, dir: Directory, nodes: map<Member, Node>)
    requires LooseAt(job, dir, 2, false) && dir.stage.value.temps == map[] && dir.stage.value.members == nodes
    ensures ControlsAre(job, dir.stage.value, 2) && OwnText(job, Ready, "")
  {
  }

  /** READY being written over a validated stage: still loose, or sealed with nothing promoted. */
  lemma SealingPhase(job: Job, before: Directory, after: Directory, nodes: map<Member, Node>) returns (ph: Phase)
    requires before.tomb.None? && LooseAt(job, before, 2, false) && before.stage.value.members == nodes
    requires BundleOk(job, nodes) && AllMeasured(nodes)
    requires Writing(job, before, after, Ready, ReadyBytes(job.binding, Seals(nodes)), 2)
    ensures At(job, after, nodes, ph)
    ensures after.stage.value.controls == before.stage.value.controls[Ready := ReadyBytes(job.binding, Seals(nodes))]
        ==>
      ph == Sealed(0, false, false)
  {
    OwnTexts(job, before.stage.value, 2);
    hide ReadyBytes, BundleOk;
    if Ready in after.stage.value.controls {
      ph := Sealed(0, false, false);
      assert BundleOk(job, nodes);
    } else {
      ph := Loose(2, false);
    }
  }
}
