/** Installation of licence bundles into directories named by their hash, by a process that may be killed before any
    system call that changes the tree. */
module LicenceInstall {
  import opened Durability
  import opened LicenceTree
  import opened Options
  import opened LicenceSteps

  datatype Reason =
    | NotRegular | TempDiverges | FinalDiverges | NotAPair | NotConverged | FileGone | WrongMode
    | NotADirectoryThere | ForeignDirectory | Unrecognised | WrongInventory | NoRenameNoreplace

  type Result = Outcome<Reason>

  class Installer {
    var media: Media
    var life: Life
    var next: nat
    const noreplace: bool

    constructor (noreplace: bool)
      ensures media == Media(map[], map[]) && life == Forever && this.noreplace == noreplace
    {
      this.noreplace := noreplace;
      media := Media(map[], map[]);
      life := Forever;
      next := 0;
    }

    /** The kill, if it is due, comes before the effect. */
    method Do(m: Media) returns (o: Result)
      modifies this`media, this`life
      ensures !o.Died? && media == (if o.Done? then m else old(media))
      ensures old(life) == Forever ==> life == Forever && o.Done?
      ensures if o.Done? then Made(old(life), life, 1) else old(life) == life == Calls(0)
    {
      if life == Calls(0) {
        return Killed;
      }
      life := life.Spent();
      media := m;
      return Done;
    }

    // ----------------------------------------------------------------------------------------
    // One file
    // ----------------------------------------------------------------------------------------

    /** A system call on the files of `e`. */
    method PutFiles(b: Bundle, e: Entry, t: Tree, ghost before: Media) returns (o: Result)
      requires HasReceipt(e) && EntryWork(b, e, before, media)
      requires OnlyFilesOf(media.At(Staging, b.hash), t, e) && ResidueOf(t, e).Some?
      modifies this`media, this`life
      ensures old(life) == Forever ==> life == Forever && o.Done?
      ensures !o.Died? && EntryWork(b, e, before, media)
      ensures if o.Done? then Made(old(life), life, 1) else old(life) == life == Calls(0) && media == old(media)
      ensures o.Done? ==> media.At(Staging, b.hash) == t
    {
      EntryWorkStep(b, e, before, media, t);
      hide EntryWork, OnlyFilesOf, ResidueOf, TempPath;
      o := Do(media.With(Staging, b.hash, t));
    }

    /** `inspect_publication_residue`. */
    method InspectResidue(h: string, e: Entry) returns (o: Result, residue: Residue)
      requires media.Has(Staging, h) && HasReceipt(e)
      ensures !o.Killed? && (o.Done? <==> ResidueOf(media.At(Staging, h), e).Some?)
      ensures o.Done? ==> ResidueOf(media.At(Staging, h), e) == Some(residue)
    {
      var t := media.At(Staging, h);
      residue := Empty;
      hide TempPath;
      if e.path in t.dirs || TempPath(e) in t.dirs {
        return Died(NotRegular), residue;
      }
      var final, temp := Lookup(t, e.path), Lookup(t, TempPath(e));
      if final.None? && temp.None? {
        return Done, Empty;
      } else if final.None? {
        ObservedIsEnough(temp.value.content, e.content);
        if temp.value.nlink != 1 || !(Observed(temp.value.content, |e.content|) <= e.content) {
          return Died(TempDiverges), residue;
        }
        return Done, Partial;
      } else if temp.None? {
        ObservedIsEnough(final.value.content, e.content);
        if final.value.nlink != 1 || Observed(final.value.content, |e.content|) != e.content {
          return Died(FinalDiverges), residue;
        }
        return Done, Final;
      } else {
        ObservedIsEnough(temp.value.content, e.content);
        ObservedIsEnough(final.value.content, e.content);
        if final.value.ino != temp.value.ino || final.value.nlink != 2 || temp.value.nlink != 2
           || Observed(final.value.content, |e.content|) != e.content
           || Observed(temp.value.content, |e.content|) != e.content {
          return Died(NotAPair), residue;
        }
        return Done, LinkedPair;
      }
    }

    /** `reconcile_publication_residue`: an interrupted publication is undone, or finished when the name exists. */
    method Reconcile(b: Bundle, e: Entry) returns (o: Result, done: bool)
      requires HasReceipt(e) && media.Has(Staging, b.hash)
      modifies this`media, this`life
      ensures old(life) == Forever ==> life == Forever && !o.Killed?
      ensures ResidueOf(old(media).At(Staging, b.hash), e).None? ==> o.Died? && media == old(media)
      ensures ResidueOf(old(media).At(Staging, b.hash), e).Some? ==> !o.Died? && EntryWork(b, e, old(media), media)
      ensures o.Done? ==> ResidueOf(media.At(Staging, b.hash), e) == Some(if done then Final else Empty)
      ensures ResidueOf(old(media).At(Staging, b.hash), e) == Some(Empty) ==>
                o.Done? && !done && life == old(life) && media == old(media)
    {
      ghost var before := media;
      var residue;
      done := false;
      o, residue := InspectResidue(b.hash, e);
      if o.IsFailure() {
        return;
      }
      EntryWorkStart(b, e, media);
      if residue == Empty || residue == Final {
        return Done, residue == Final;
      }
      var t := media.At(Staging, b.hash);
      var u := WithoutTemp(t, e);
      DropTemp(t, e);
      hide EntryWork, ResidueOf, OnlyFilesOf, TempPath;
      o := PutFiles(b, e, u, before);
      if o.IsFailure() {
        return;
      }
      o, residue := InspectResidue(b.hash, e);
      if o.IsFailure() {
        return;
      }
      if residue != Empty && residue != Final {
        return Died(NotConverged), false;
      }
      done := residue == Final;
    }

    /** The temporary: created, written in any number of pieces, given its mode. */
    method CreateTemp(b: Bundle, e: Entry, ghost before: Media) returns (o: Result)
      requires HasReceipt(e) && EntryWork(b, e, before, media)
      requires ResidueOf(media.At(Staging, b.hash), e) == Some(Empty)
      modifies this
      ensures old(life) == Forever ==> life == Forever && o.Done?
      ensures !o.Died? && EntryWork(b, e, before, media)
      ensures o.Done? ==> var t := media.At(Staging, b.hash);
        ResidueOf(t, e) == Some(Partial) && t.files[TempPath(e)].content == e.content && t.files[TempPath(e)].right
      ensures o.Done? ==> Made(old(life), life, |e.content| + 2) && TempPath(e) in media.At(Staging, b.hash).files
      ensures o.Killed? ==> old(life).Calls? && old(life).left < |e.content| + 2
                            && (1 <= old(life).left ==> TempPath(e) in media.At(Staging, b.hash).files)
    {
      var t := media.At(Staging, b.hash);
      var ino := next;
      next := next + 1;
      TempResidue(t, e, Leaf(ino, 1, "", false));
      hide EntryWork, ResidueOf, OnlyFilesOf, TempPath;
      :- PutFiles(b, e, WithTemp(t, e, Leaf(ino, 1, "", false)), before);
      for i := 0 to |e.content|
        invariant old(life) == Forever ==> life == Forever
        invariant EntryWork(b, e, before, media) && Made(old(life), life, i + 1)
        invariant media.At(Staging, b.hash) == WithTemp(t, e, Leaf(ino, 1, e.content[..i], false))
      {
        assert e.content[..i + 1] <= e.content;
        Rewritten(t, e, Leaf(ino, 1, e.content[..i], false), Leaf(ino, 1, e.content[..i + 1], false));
        :- PutFiles(b, e, WithTemp(t, e, Leaf(ino, 1, e.content[..i + 1], false)), before);
      }
      assert e.content[..|e.content|] == e.content;
      Rewritten(t, e, Leaf(ino, 1, e.content, false), Leaf(ino, 1, e.content, true));
      o := PutFiles(b, e, WithTemp(t, e, Leaf(ino, 1, e.content, true)), before);
    }

    /** The temporary gets its final name: a rename, or link and unlink where there is no renameat2. No other process
        creates names here, so neither finds the final name taken. */
    method MoveTemp(b: Bundle, e: Entry, ghost before: Media) returns (o: Result)
      requires HasReceipt(e) && EntryWork(b, e, before, media)
      requires var t := media.At(Staging, b.hash);
        ResidueOf(t, e) == Some(Partial) && t.files[TempPath(e)].content == e.content && t.files[TempPath(e)].right
      modifies this`media, this`life
      ensures old(life) == Forever ==> life == Forever && o.Done?
      ensures !o.Died? && EntryWork(b, e, before, media)
      ensures o.Done? ==> ResidueOf(media.At(Staging, b.hash), e) == Some(Final)
      ensures o.Done? ==> media.At(Staging, b.hash).files[e.path].right
      ensures o.Done? ==> Made(old(life), life, if noreplace then 1 else 2)
      ensures o.Killed? ==> old(life).Calls? && old(life).left < if noreplace then 1 else 2
      ensures o.Killed? && old(life) == Calls(0) ==> media == old(media)
    {
      var t := media.At(Staging, b.hash);
      MoveSteps(t, e);
      hide EntryWork, ResidueOf, OnlyFilesOf, TempPath;
      if noreplace {
        o := PutFiles(b, e, Renamed(t, e), before);
      } else {
        :- PutFiles(b, e, Linked(t, e), before);
        o := PutFiles(b, e, WithoutTemp(Linked(t, e), e), before);
      }
    }

    /** `read_existing_stable` with one link, and the comparison of what it read. */
    method CompareExisting(place: Place, h: string, e: Entry) returns (o: Result, found: bool)
      requires media.Has(place, h) && e.Regular? && e.path != ROOT
      ensures var t := media.At(place, h);
        && !o.Killed? && (found <==> e.path in t.files && o.Done?)
        && (o.Done? <==> e.path !in t.dirs && (e.path in t.files ==> Matches(t.files[e.path], e)))
    {
      var t := media.At(place, h);
      if e.path in t.dirs {
        return Died(NotRegular), false;
      }
      if e.path !in t.files {
        return Done, false;
      }
      var f := t.files[e.path];
      ObservedIsEnough(f.content, e.content);
      if f.nlink != 1 || Observed(f.content, |e.content|) != e.content {
        return Died(FinalDiverges), false;
      }
      return Done, true;
    }

    /** `verify_existing` with repair of the mode. */
    method VerifyExisting(place: Place, h: string, e: Entry) returns (o: Result, found: bool)
      requires media.Has(place, h) && e.Regular? && e.path != ROOT
      modifies this`media, this`life
      ensures old(life) == Forever ==> life == Forever && !o.Killed?
      ensures var t := old(media).At(place, h);
        && (found <==> e.path in t.files && o.Done?)
        && (o.Died? ==> e.path in t.dirs || (e.path in t.files && !Matches(t.files[e.path], e)))
        && (o.Done? ==> e.path !in t.dirs && (e.path in t.files ==> Matches(t.files[e.path], e)))
        && media == if found then old(media).With(place, h, WithRightMode(t, e)) else old(media)
      ensures var t := old(media).At(place, h);
        e.path in t.files && t.files[e.path].right ==> life == old(life) && !o.Killed?
    {
      var t := media.At(place, h);
      o, found := CompareExisting(place, h, e);
      if !found {
        return;
      }
      if t.files[e.path].right {
        assert WithRightMode(t, e) == t;
        assert media.With(place, h, t) == media;
        return;
      }
      o := Do(media.With(place, h, WithRightMode(t, e)));
      found := o.Done?;
    }

    /** `publish_file_with`: dies without a change if what is there is no residue of `e`, and otherwise publishes it.
        From nothing it takes exactly the calls it should, and the temporary is there from the first of them to the
        move. */
    method PublishFile(b: Bundle, e: Entry) returns (o: Result)
      requires HasReceipt(e) && media.Has(Staging, b.hash)
      modifies this
      ensures old(life) == Forever ==> life == Forever && !o.Killed?
      ensures ResidueOf(old(media).At(Staging, b.hash), e).None? ==> o.Died? && media == old(media)
      ensures ResidueOf(old(media).At(Staging, b.hash), e).Some? ==> !o.Died? && EntryWork(b, e, old(media), media)
      ensures o.Done? ==> Published(media.At(Staging, b.hash), e)
      ensures ResidueOf(old(media).At(Staging, b.hash), e) == Some(Empty) ==>
                if o.Done? then Made(old(life), life, PublishCost(e, noreplace))
                else CutShort(old(life), e, media.At(Staging, b.hash), noreplace)
    {
      ghost var before := media;
      hide EntryWork, ResidueOf, Published, OnlyFilesOf, TempPath;
      var done;
      o, done := Reconcile(b, e);
      if o.IsFailure() {
        return;
      }
      if !done {
        :- CreateTemp(b, e, before);
        :- MoveTemp(b, e, before);
      }
      o := FinishFile(b, e, before);
    }

    /** The closing `verify_existing` of a publication. */
    method FinishFile(b: Bundle, e: Entry, ghost before: Media) returns (o: Result)
      requires HasReceipt(e) && EntryWork(b, e, before, media)
      requires ResidueOf(media.At(Staging, b.hash), e) == Some(Final)
      modifies this`media, this`life
      ensures old(life) == Forever ==> life == Forever && o.Done?
      ensures !o.Died? && EntryWork(b, e, before, media)
      ensures o.Done? ==> Published(media.At(Staging, b.hash), e)
      ensures old(media).At(Staging, b.hash).files[e.path].right ==> o.Done? && life == old(life)
    {
      var t := media.At(Staging, b.hash);
      ghost var m := media;
      RightModeStep(t, e);
      EntryWorkStep(b, e, before, m, WithRightMode(t, e));
      hide EntryWork, ResidueOf, Published, OnlyFilesOf, TempPath;
      var found;
      o, found := VerifyExisting(Staging, b.hash, e);
      if o.Done? && !found {
        return Died(FileGone);
      }
    }

    // ----------------------------------------------------------------------------------------
    // Directories
    // ----------------------------------------------------------------------------------------

    /** A system call that creates directory `p` of the staging, or gives it its mode. */
    method PutDir(b: Bundle, p: Path, right: bool, ghost before: Media) returns (o: Result)
      requires DirWork(b, before, media) && p in DirPaths(b) + {ROOT}
      requires var t := media.At(Staging, b.hash); if right then p in t.dirs && !t.dirs[p] else p !in t.dirs
      modifies this`media, this`life
      ensures old(life) == Forever ==> life == Forever && o.Done?
      ensures !o.Died? && DirWork(b, before, media) && DirWork(b, old(media), media)
      ensures DirCalls(b, old(media), media, old(life), life, o.Killed?)
      ensures o.Done? ==> var t := media.At(Staging, b.hash); p in t.dirs && t.dirs[p] == right
    {
      var t := media.At(Staging, b.hash);
      DirWorkStart(b, media);
      DirWorkStep(b, before, media, p, right);
      DirWorkStep(b, media, media, p, right);
      if right {
        ProgressRight(t, p);
      } else {
        ProgressNew(t, p);
      }
      hide DirWork, Progress;
      o := Do(media.With(Staging, b.hash, t.(dirs := t.dirs[p := right])));
    }

    /** `open_or_create_dir`. */
    method OpenOrCreateDir(b: Bundle, p: Path, ghost before: Media) returns (o: Result)
      requires DirWork(b, before, media) && p in DirPaths(b)
      requires p != ROOT && Parent(p) in media.At(Staging, b.hash).dirs
      modifies this`media, this`life
      ensures old(life) == Forever ==> life == Forever && !o.Killed?
      ensures DirWork(b, before, media) && DirWork(b, old(media), media)
      ensures DirCalls(b, old(media), media, old(life), life, o.Killed?)
      ensures o.Died? ==> p in old(media).At(Staging, b.hash).files
      ensures o.Done? ==> p in media.At(Staging, b.hash).dirs
      ensures p in old(media).At(Staging, b.hash).dirs ==> o.Done? && media == old(media) && life == old(life)
    {
      ghost var m0, life0 := media, life;
      DirWorkReady(b, before, media);
      DirWorkStart(b, media);
      DirCallsStart(b, media, life);
      if p in media.At(Staging, b.hash).dirs {
        return Done;
      }
      if p in media.At(Staging, b.hash).files {
        return Died(NotADirectoryThere);
      }
      hide WellFormed, DirWork, DirCalls;
      :- PutDir(b, p, false, before);
      ghost var m1, life1 := media, life;
      o := PutDir(b, p, true, before);
      DirWorkTrans(b, m0, m1, media);
      DirCallsTrans(b, m0, m1, media, life0, life1, life, o.Killed?);
    }

    /** `open_chain`: every directory on the way to `p`, created when it is missing. */
    method OpenChain(b: Bundle, p: Path) returns (o: Result)
      requires Ready(b, media) && p in DirPaths(b) + {ROOT}
      modifies this`media, this`life
      ensures old(life) == Forever ==> life == Forever && !o.Killed?
      ensures DirWork(b, old(media), media) && DirCalls(b, old(media), media, old(life), life, o.Killed?)
      ensures o.Died? ==> !FilesApart(b, old(media).At(Staging, b.hash))
      ensures o.Done? ==> p in media.At(Staging, b.hash).dirs
      ensures !Unfinished(b, old(media).At(Staging, b.hash)) ==> o.Done? && media == old(media) && life == old(life)
    {
      ghost var m0, life0 := media, life;
      DirWorkStart(b, media);
      DirCallsStart(b, media, life);
      DirWorkReady(b, m0, media);
      assert p[..0] == ROOT && p[..|p|] == p;
      hide DirWork, DirCalls, Unfinished;
      for k := 0 to |p|
        invariant old(life) == Forever ==> life == Forever
        invariant media.Has(Staging, b.hash) && DirWork(b, m0, media) && DirCalls(b, m0, media, life0, life, false)
        invariant p[..k] in media.At(Staging, b.hash).dirs
        invariant !Unfinished(b, m0.At(Staging, b.hash)) ==> media == m0 && life == life0
      {
        DirWorkReady(b, m0, media);
        AncestorsListed(b, p, k + 1);
        assert Parent(p[..k + 1]) == p[..k];
        FinishedHas(b, m0.At(Staging, b.hash), p[..k + 1]);
        ghost var m1, life1 := media, life;
        o := OpenOrCreateDir(b, p[..k + 1], m0);
        DirWorkReady(b, m0, media);
        DirCallsTrans(b, m0, m1, media, life0, life1, life, o.Killed?);
        if o.IsFailure() {
          return;
        }
      }
      return Done;
    }

    // ----------------------------------------------------------------------------------------
    // Checks of a whole tree
    // ----------------------------------------------------------------------------------------

    /** The entries that one file of the staging may belong to, and the residue of the only one. */
    method PreflightFile(b: Bundle, p: Path) returns (o: Result)
      requires media.Has(Staging, b.hash) && p in media.At(Staging, b.hash).files
      ensures !o.Killed? && (o.Done? <==> FileAccepted(b, media.At(Staging, b.hash), p))
    {
      var found: seq<Entry> := [];
      for i := 0 to |b.entries|
        invariant found == Candidates(b.entries[..i], p)
      {
        assert b.entries[..i + 1][..i] == b.entries[..i];
        if Names(b.entries[i], p) {
          found := found + [b.entries[i]];
        }
      }
      assert b.entries[..|b.entries|] == b.entries;
      CandidatesAre(b.entries, p);
      if |found| != 1 {
        return Died(Unrecognised);
      }
      assert found[0] in found;
      var residue;
      o, residue := InspectResidue(b.hash, found[0]);
    }

    /** `preflight_staging`. */
    method PreflightStaging(b: Bundle) returns (o: Result)
      requires media.Has(Staging, b.hash)
      ensures !o.Killed? && (o.Done? <==> Accepts(b, media.At(Staging, b.hash)))
    {
      var t := media.At(Staging, b.hash);
      if !(t.dirs.Keys - {ROOT} <= DirPaths(b)) {
        return Died(ForeignDirectory);
      }
      var rest := t.files.Keys;
      while rest != {}
        invariant rest <= t.files.Keys
        invariant forall p :: p in t.files && p !in rest ==> FileAccepted(b, t, p)
      {
        var p :| p in rest;
        o := PreflightFile(b, p);
        if o.IsFailure() {
          return;
        }
        rest := rest - {p};
      }
      return Done;
    }

    /** `preflight_generation`: the exact inventory and every content, before anything is changed. */
    method PreflightGeneration(place: Place, b: Bundle) returns (o: Result)
      requires WellFormed(b) && media.Has(place, b.hash)
      ensures !o.Killed? && (o.Done? <==> Whole(b, media.At(place, b.hash)))
    {
      var t := media.At(place, b.hash);
      if t.dirs.Keys - {ROOT} != DirPaths(b) || ROOT !in t.dirs || t.files.Keys != FilePaths(b) {
        NoRootListed(b);
        return Died(WrongInventory);
      }
      for i := 0 to |b.entries|
        invariant forall e :: e in b.entries[..i] && e.Regular? ==> e.path in t.files && Matches(t.files[e.path], e)
      {
        var e := b.entries[i];
        assert e in b.entries;
        if e.Regular? {
          assert e.path in FilePaths(b) && IsFile(b, e);
          FileNotADirectory(b, e);
          var found;
          o, found := CompareExisting(place, b.hash, e);
          if o.IsFailure() {
            return;
          }
          if !found {
            return Died(FileGone);
          }
        }
      }
      assert b.entries[..|b.entries|] == b.entries;
      return Done;
    }

    /** `ensure_directory_mode`. */
    method EnsureDirectoryMode(place: Place, h: string, p: Path) returns (o: Result)
      requires media.Has(place, h) && p in media.At(place, h).dirs
      modifies this`media, this`life
      ensures old(life) == Forever ==> life == Forever && o.Done?
      ensures !o.Died?
      ensures var t := old(media).At(place, h);
        media == if o.Done? then old(media).With(place, h, t.(dirs := t.dirs[p := true])) else old(media)
      ensures if old(media).At(place, h).dirs[p] then o.Done? && life == old(life)
              else if o.Done? then Made(old(life), life, 1) else old(life) == life == Calls(0)
    {
      var t := media.At(place, h);
      if t.dirs[p] {
        assert t.dirs[p := true] == t.dirs;
        assert media.With(place, h, t) == media;
        return Done;
      }
      o := Do(media.With(place, h, t.(dirs := t.dirs[p := true])));
    }

    /** `verify_final`. */
    method VerifyFinal(place: Place, h: string, e: Entry) returns (o: Result)
      requires media.Has(place, h) && e.Regular?
      ensures var t := media.At(place, h);
        !o.Killed? && (o.Done? <==> e.path in t.files && Matches(t.files[e.path], e) && t.files[e.path].right)
    {
      var t := media.At(place, h);
      if e.path !in t.files {
        return Died(FileGone);
      }
      var f := t.files[e.path];
      ObservedIsEnough(f.content, e.content);
      if f.nlink != 1 || !f.right {
        return Died(WrongMode);
      }
      if Observed(f.content, |e.content|) != e.content {
        return Died(FinalDiverges);
      }
      return Done;
    }

    /** The modes of the directories, the root first and then by depth. */
    method RepairDirectories(place: Place, b: Bundle, ghost before: Media) returns (o: Result)
      requires WellFormed(b) && ModeWork(before, media, place, b.hash) && Whole(b, media.At(place, b.hash))
      modifies this`media, this`life
      ensures old(life) == Forever ==> life == Forever && o.Done?
      ensures !o.Died? && ModeWork(before, media, place, b.hash)
      ensures o.Done? ==> RightDirModes(media.At(place, b.hash))
    {
      ghost var all := DirPaths(b) + {ROOT};
      WholeDirs(b, media.At(place, b.hash));
      hide *;
      var dirs := ByDepth(b.entries, 0);
      o := RepairDirectory(place, b.hash, ROOT, before);
      if !o.Done? {
        return;
      }
      RootRight(dirs, media.At(place, b.hash));
      for i := 0 to |dirs|
        invariant old(life) == Forever ==> life == Forever
        invariant ModeWork(before, media, place, b.hash) && media.Has(place, b.hash)
        invariant media.At(place, b.hash).dirs.Keys == all && DirsRight(dirs[..i], media.At(place, b.hash))
      {
        ListedAt(b, i);
        DirsRightStep(dirs, i, media.At(place, b.hash));
        o := RepairDirectory(place, b.hash, dirs[i].path, before);
        if !o.Done? {
          return;
        }
      }
      AllDirsRight(b, dirs, media.At(place, b.hash));
      return Done;
    }

    /** `ensure_directory_mode` in a tree of which only modes change. */
    method RepairDirectory(place: Place, h: string, p: Path, ghost before: Media) returns (o: Result)
      requires ModeWork(before, media, place, h) && media.Has(place, h) && p in media.At(place, h).dirs
      modifies this`media, this`life
      ensures old(life) == Forever ==> life == Forever && o.Done?
      ensures !o.Died? && ModeWork(before, media, place, h) && media.Has(place, h)
      ensures var t := old(media).At(place, h); o.Done? ==> media.At(place, h) == t.(dirs := t.dirs[p := true])
      ensures media.At(place, h).dirs.Keys == old(media).At(place, h).dirs.Keys
    {
      ModeWorkDir(before, media, place, h, p);
      hide ModeWork;
      o := EnsureDirectoryMode(place, h, p);
    }

    /** One file: its mode repaired, then read back. */
    method RepairFile(place: Place, h: string, e: Entry) returns (o: Result)
      requires media.Has(place, h) && e.Regular? && e.path != ROOT
      requires var t := media.At(place, h); e.path !in t.dirs && e.path in t.files && Matches(t.files[e.path], e)
      modifies this`media, this`life
      ensures old(life) == Forever ==> life == Forever && o.Done?
      ensures !o.Died?
      ensures media
           == if o.Done? then old(media).With(place, h, WithRightMode(old(media).At(place, h), e)) else old(media)
    {
      var found;
      o, found := VerifyExisting(place, h, e);
      if o.IsFailure() {
        return;
      }
      if !found {
        return Died(FileGone);
      }
      o := VerifyFinal(place, h, e);
    }

    /** The modes of the files. */
    method RepairFiles(place: Place, b: Bundle, ghost before: Media) returns (o: Result)
      requires WellFormed(b) && ModeWork(before, media, place, b.hash) && Whole(b, before.At(place, b.hash))
      modifies this`media, this`life
      ensures old(life) == Forever ==> life == Forever && o.Done?
      ensures !o.Died? && ModeWork(before, media, place, b.hash)
      ensures o.Done? ==> forall p | p in media.At(place, b.hash).files :: media.At(place, b.hash).files[p].right
      ensures media.Has(place, b.hash) && media.At(place, b.hash).dirs == old(media).At(place, b.hash).dirs
    {
      ghost var dirs := media.At(place, b.hash).dirs;
      assert media.Has(place, b.hash);
      hide ModeWork, Whole, WellFormed;
      for i := 0 to |b.entries|
        invariant old(life) == Forever ==> life == Forever
        invariant ModeWork(before, media, place, b.hash)
        invariant media.Has(place, b.hash) && media.At(place, b.hash).dirs == dirs
        invariant FilesRight(b.entries[..i], media.At(place, b.hash))
      {
        var e := b.entries[i];
        if e.Regular? {
          StillWhole(b, before, media, place);
          WholeFile(b, media.At(place, b.hash), e);
          ModeWorkFile(before, media, place, b.hash, e);
          FilesRightStep(b.entries, i, media.At(place, b.hash));
          o := RepairFile(place, b.hash, e);
          if o.IsFailure() {
            return;
          }
        } else {
          FilesRightSkip(b.entries, i, media.At(place, b.hash));
        }
      }
      assert b.entries[..|b.entries|] == b.entries;
      StillWhole(b, before, media, place);
      AllFilesRight(b, media.At(place, b.hash));
      return Done;
    }

    /** `verify_generation`: refuse anything but the exact bundle, then repair the modes. */
    method VerifyGeneration(place: Place, b: Bundle) returns (o: Result)
      requires WellFormed(b) && media.Has(place, b.hash)
      modifies this`media, this`life
      ensures old(life) == Forever ==> life == Forever && !o.Killed?
      ensures ModeWork(old(media), media, place, b.hash)
      ensures if Whole(b, old(media).At(place, b.hash)) then !o.Died? else o.Died? && media == old(media)
      ensures o.Done? ==> IsGeneration(b, media.At(place, b.hash))
    {
      ghost var before := media;
      ModeWorkStart(media, place, b.hash);
      :- PreflightGeneration(place, b);
      hide ModeWork, Whole, WellFormed;
      o := RepairDirectories(place, b, before);
      if o.IsFailure() {
        return;
      }
      o := RepairFiles(place, b, before);
      if o.IsFailure() {
        return;
      }
      StillWhole(b, before, media, place);
    }

    // ----------------------------------------------------------------------------------------
    // Installation
    // ----------------------------------------------------------------------------------------

    /** The directories of the bundle, by depth. */
    method MakeDirectories(b: Bundle) returns (o: Result)
      requires Ready(b, media) && media.At(Staging, b.hash).dirs[ROOT]
      modifies this`media, this`life
      ensures old(life) == Forever ==> life == Forever && !o.Killed?
      ensures DirWork(b, old(media), media) && DirCalls(b, old(media), media, old(life), life, o.Killed?)
      ensures o.Died? ==> !FilesApart(b, old(media).At(Staging, b.hash))
      ensures o.Done? ==> !Unfinished(b, media.At(Staging, b.hash))
    {
      ghost var m0, life0 := media, life;
      DirWorkStart(b, media);
      DirCallsStart(b, media, life);
      DirWorkReady(b, m0, media);
      var dirs := ByDepth(b.entries, 0);
      ByDepthAre(b.entries, 0);
      assert forall e | e in dirs :: e.path in DirPaths(b) && e.path != ROOT;
      hide DirWork, DirCalls, Unfinished, ByDepth, WellFormed, FilesApart;
      for i := 0 to |dirs|
        invariant old(life) == Forever ==> life == Forever
        invariant media.Has(Staging, b.hash) && DirWork(b, m0, media) && DirCalls(b, m0, media, life0, life, false)
        invariant DirsRight(dirs[..i], media.At(Staging, b.hash))
      {
        ghost var m1, life1 := media, life;
        assert dirs[i] in dirs;
        DirWorkReady(b, m0, media);
        o := MakeDirectory(b, dirs[i].path);
        DirWorkTrans(b, m0, m1, media);
        DirCallsTrans(b, m0, m1, media, life0, life1, life, o.Killed?);
        SameFilesApart(b, m0, m1);
        if o.IsFailure() {
          return;
        }
        DirWorkReady(b, m0, media);
        DirsRightStay(b, dirs, i, m1, media);
      }
      assert dirs[..|dirs|] == dirs;
      AllDirsFinished(b, dirs, media.At(Staging, b.hash));
      return Done;
    }

    /** One directory, below the chain of its ancestors. */
    method MakeDirectory(b: Bundle, p: Path) returns (o: Result)
      requires Ready(b, media) && p in DirPaths(b) && p != ROOT
      modifies this`media, this`life
      ensures old(life) == Forever ==> life == Forever && !o.Killed?
      ensures DirWork(b, old(media), media) && DirCalls(b, old(media), media, old(life), life, o.Killed?)
      ensures o.Died? ==> !FilesApart(b, old(media).At(Staging, b.hash))
      ensures o.Done? ==> p in media.At(Staging, b.hash).dirs && media.At(Staging, b.hash).dirs[p]
    {
      ghost var m0, life0 := media, life;
      DirWorkStart(b, m0);
      DirWorkReady(b, m0, m0);
      AncestorsListed(b, p, |p| - 1);
      hide DirWork, DirCalls, WellFormed;
      o := OpenChain(b, Parent(p));
      DirWorkReady(b, m0, media);
      if o.IsFailure() {
        return;
      }
      ghost var m1, life1 := media, life;
      o := OpenOrCreateDir(b, p, m0);
      DirCallsTrans(b, m0, m1, media, life0, life1, life, o.Killed?);
      DirWorkReady(b, m0, media);
      if o.IsFailure() {
        return;
      }
      ghost var m2, life2 := media, life;
      DirMode(b, m0, media, p);
      o := EnsureDirectoryMode(Staging, b.hash, p);
      DirModeCalls(b, m2, media, p, life2, life, o.Killed?);
      DirCallsTrans(b, m0, m2, media, life0, life2, life, o.Killed?);
    }

    /** Every regular entry, in order. */
    method PublishFiles(b: Bundle) returns (o: Result)
      requires Ready(b, media) && !Unfinished(b, media.At(Staging, b.hash))
      modifies this
      ensures old(life) == Forever ==> life == Forever && !o.Killed?
      ensures Steady(b, old(media)) ==> !o.Died?
      ensures New(b, old(media).At(Staging, b.hash)) ==> !o.Died?
      ensures RunLeft(b, old(media), media, old(life), o.Killed?, noreplace)
      ensures o.Done? ==> RunAt(b, |b.entries|, old(media), media, old(life), life, noreplace)
    {
      ghost var m0, life0 := media, life;
      RunStart(b, media, life, noreplace);
      hide *;
      for i := 0 to |b.entries|
        invariant old(life) == Forever ==> life == Forever
        invariant RunAt(b, i, m0, media, life0, life, noreplace)
      {
        RunEntry(b, i, m0, media, life0, life, noreplace);
        if b.entries[i].Regular? {
          o := PublishNext(b, i, m0, life0);
          if !o.Done? {
            return;
          }
        } else {
          RunSkip(b, i, m0, media, life0, life, noreplace);
        }
      }
      RunEnd(b, m0, media, life0, life, noreplace);
      return Done;
    }

    /** Entry number `i` of the run over the files. */
    method PublishNext(b: Bundle, i: nat, ghost m0: Media, ghost life0: Life) returns (o: Result)
      requires i < |b.entries| && HasReceipt(b.entries[i]) && RunAt(b, i, m0, media, life0, life, noreplace)
      modifies this
      ensures old(life) == Forever ==> life == Forever && !o.Killed?
      ensures Steady(b, m0) || New(b, m0.At(Staging, b.hash)) ==> !o.Died?
      ensures o.Done? ==> RunAt(b, i + 1, m0, media, life0, life, noreplace)
      ensures !o.Done? ==> RunLeft(b, m0, media, life0, o.Killed?, noreplace)
    {
      ghost var m1, life1 := media, life;
      assert IsFile(b, b.entries[i]);
      FilesRunNext(b, i, m0, m1);
      hide WellFormed, Unfinished, FilesRun, Steady, TempPath, New, OnlyTree, EntryWork, ResidueOf, Published,
        LeavesTemp, CutShort, Ready, Cost, PublishCost, Made;
      o := PublishEntry(b, b.entries[i]);
      EntrySteps(b, i, m0, m1, media, o.Done?);
      SameDirsFinished(b, m1.At(Staging, b.hash), media.At(Staging, b.hash));
      EntryCalls(b, i, m0, media, life0, life1, life, o.Done?, noreplace);
    }

    /** One regular entry, below the chain of its ancestors, which is there. */
    method PublishEntry(b: Bundle, e: Entry) returns (o: Result)
      requires Ready(b, media) && !Unfinished(b, media.At(Staging, b.hash)) && IsFile(b, e)
      modifies this
      ensures old(life) == Forever ==> life == Forever && !o.Killed?
      ensures ResidueOf(old(media).At(Staging, b.hash), e).None? ==> o.Died? && media == old(media)
      ensures ResidueOf(old(media).At(Staging, b.hash), e).Some? ==> !o.Died? && EntryWork(b, e, old(media), media)
      ensures o.Done? ==> Published(media.At(Staging, b.hash), e)
      ensures ResidueOf(old(media).At(Staging, b.hash), e) == Some(Empty) ==>
                if o.Done? then Made(old(life), life, PublishCost(e, noreplace))
                else CutShort(old(life), e, media.At(Staging, b.hash), noreplace)
    {
      EntryPaths(b, e);
      hide WellFormed, DirWork, DirCalls, EntryWork, Unfinished, ResidueOf, TempPath;
      o := OpenChain(b, Parent(e.path));
      if o.IsFailure() {
        return;
      }
      o := PublishFile(b, e);
    }

    /** `materialize_generation`. Whatever it finds, what it finishes is exactly the bundle, and the bundle is in order.
        A clean bundle never fails. A bundle in order does not fail the first time; killed right after the temporary of
        file `j` was created, it leaves it there. */
    method MaterializeGeneration(b: Bundle) returns (o: Result)
      requires Ready(b, media)
      modifies this
      ensures old(life) == Forever ==> life == Forever && !o.Killed?
      ensures Ready(b, media) && OnlyTree(old(media), media, Staging, b.hash)
      ensures Steady(b, old(media)) ==> !o.Died? && Steady(b, media)
      ensures o.Done? ==> IsGeneration(b, media.At(Staging, b.hash)) && InOrder(b)
      ensures InOrder(b) && old(media).At(Staging, b.hash) == NEW_STAGING ==> !o.Died?
      ensures InOrder(b) && old(media).At(Staging, b.hash) == NEW_STAGING ==>
                LeavesTemp(b, LifeAfter(old(life), AllProgress(b) - 1), media.At(Staging, b.hash), o.Killed?, noreplace)
    {
      ghost var m0, life0 := media, life;
      PreflightFits(b, m0);
      o := PreflightStaging(b);
      if o.IsFailure() {
        return;
      }
      hide WellFormed, DirWork, DirCalls, Accepts, Whole, IsGeneration, ModeWork, Steady, InOrder, Unfinished,
        FilesApart, NEW_STAGING, TempPath, New, LeavesTemp, OnlyTree, FilesRun, RunAt, RunLeft;
      o := StageDirectories(b);
      if o.IsFailure() {
        return;
      }
      ghost var m1, life1 := media, life;
      o := PublishFiles(b);
      RunParts(b, m1, media, life1, life, o.Done?, o.Killed?, noreplace);
      OnlyTreeTrans(m0, m1, media, Staging, b.hash);
      if o.IsFailure() {
        return;
      }
      ghost var m2 := media;
      FilesDone(b, m1, m2);
      o := VerifyGeneration(Staging, b);
      ModesOnly(b, m2, media);
      OnlyTreeTrans(m0, m2, media, Staging, b.hash);
    }

    /** The directories of the staging, its root first. */
    method StageDirectories(b: Bundle) returns (o: Result)
      requires Ready(b, media)
      modifies this`media, this`life
      ensures old(life) == Forever ==> life == Forever && !o.Killed?
      ensures Ready(b, media) && OnlyTree(old(media), media, Staging, b.hash)
      ensures o.Died? ==> !FilesApart(b, old(media).At(Staging, b.hash))
      ensures o.Done? ==> !Unfinished(b, media.At(Staging, b.hash))
      ensures Steady(b, old(media)) ==> Steady(b, media)
      ensures InOrder(b) && old(media).At(Staging, b.hash) == NEW_STAGING && o.Done? ==>
                New(b, media.At(Staging, b.hash)) && life == LifeAfter(old(life), AllProgress(b) - 1)
      ensures old(media).At(Staging, b.hash) == NEW_STAGING && o.Killed? ==>
                LeavesTemp(b, LifeAfter(old(life), AllProgress(b) - 1), media.At(Staging, b.hash), true, noreplace)
    {
      ghost var m0, life0 := media, life;
      DirWorkStart(b, m0);
      DirWorkReady(b, m0, m0);
      DirMode(b, m0, media, ROOT);
      hide WellFormed, DirWork, DirCalls, Steady, InOrder, Unfinished, FilesApart, NEW_STAGING, TempPath, LeavesTemp,
        OnlyTree;
      o := EnsureDirectoryMode(Staging, b.hash, ROOT);
      DirModeCalls(b, m0, media, ROOT, life0, life, o.Killed?);
      DirWorkReady(b, m0, media);
      ghost var m1, life1 := media, life;
      if o.Done? {
        o := MakeDirectories(b);
        DirWorkTrans(b, m0, m1, media);
        DirCallsTrans(b, m0, m1, media, life0, life1, life, o.Killed?);
        SameFilesApart(b, m0, m1);
      }
      DirWorkReady(b, m0, media);
      if Steady(b, m0) {
        SteadyDirs(b, m0, media);
      }
      if m0.At(Staging, b.hash) == NEW_STAGING {
        DirectoriesDone(b, m0, media, life0, life, o.Killed?);
      }
      DeadBefore(b, media.At(Staging, b.hash), noreplace);
    }

    /** The first verification of a run, before anything is changed. */
    method PreflightNamespace(b: Bundle) returns (o: Result)
      requires WellFormed(b)
      ensures !o.Killed?
      ensures o.Done? ==> (b.hash in media.generations ==> Whole(b, media.generations[b.hash]))
      ensures o.Done? ==> (b.hash in media.stagings ==> Accepts(b, media.stagings[b.hash]))
      ensures o.Died? ==> || (b.hash in media.generations && !Whole(b, media.generations[b.hash]))
                          || (b.hash in media.stagings && !Accepts(b, media.stagings[b.hash]))
    {
      if b.hash in media.generations {
        :- PreflightGeneration(Generation, b);
      }
      if b.hash in media.stagings {
        :- PreflightStaging(b);
      }
      return Done;
    }

    /** `install_inner_with_trust`, below the fixed directories. */
    method Install(b: Bundle, ghost known: string -> Bundle) returns (o: Result)
      requires WellFormed(b) && known(b.hash) == b && Inv(media, known)
      modifies this
      ensures old(life) == Forever ==> life == Forever && !o.Killed?
      ensures Inv(media, known) && Elsewhere(old(media), media, b.hash)
      ensures b.hash in old(media).generations ==> media == old(media) && !o.Died?
      ensures o.Done? ==> b.hash in media.generations
      ensures !noreplace ==> media.generations == old(media).generations
      ensures Clean(b) && o.Died? ==> !noreplace && o.reason == NoRenameNoreplace
      ensures InOrder(b) && Untouched(b, old(media)) && o.Died? ==> !noreplace && o.reason == NoRenameNoreplace
      ensures InOrder(b) && Untouched(b, old(media)) ==> FirstCut(b, old(life), media, noreplace)
      ensures InOrder(b) && Jammed(b, old(media)) ==> o.Died? && media == old(media)
    {
      ghost var m0, life0 := media, life;
      InvOf(b, media, known);
      JammedRefused(b, media);
      DeadAtOnce(b, m0, noreplace);
      o := PreflightNamespace(b);
      if o.IsFailure() {
        return;
      }
      hide StagingOk, WellFormed, Clean, InOrder, Accepts, Whole, IsGeneration, ModeWork, Inv, TempPath, NEW_STAGING,
        Blocked, FirstCut, LeavesTemp, OnlyTree, Steady, StagedOk, Elsewhere, Jammed, AllProgress, LifeAfter;
      if b.hash in media.generations {
        o := VerifyGeneration(Generation, b);
        NothingToRepair(m0, media, Generation, b.hash);
        return;
      }
      if b.hash !in media.stagings {
        NewStaging(b, media, known);
        o := Do(media.With(Staging, b.hash, NEW_STAGING));
        if o.IsFailure() {
          return;
        }
      }
      ghost var m1, life1 := media, life;
      InvOf(b, media, known);
      o := MaterializeGeneration(b);
      StagingWork(b, m1, media, known);
      ElsewhereTrans(m0, m1, media, b.hash);
      if InOrder(b) && Untouched(b, m0) {
        FirstCutLeaves(b, life0, life1, media, o.Killed?, noreplace);
      }
      if o.IsFailure() {
        return;
      }
      o := PublishGeneration(b, m0, known);
      if InOrder(b) && Untouched(b, m0) {
        NeverCut(b, life0, media, noreplace);
      }
    }

    /** The last look at the staging, the rename that publishes it, and the first look at the generation. */
    method PublishGeneration(b: Bundle, ghost before: Media, ghost known: string -> Bundle) returns (o: Result)
      requires WellFormed(b) && InOrder(b) && known(b.hash) == b && Inv(media, known)
      requires Elsewhere(before, media, b.hash)
      requires b.hash !in media.generations && media.Has(Staging, b.hash) && IsGeneration(b, media.At(Staging, b.hash))
      modifies this`media, this`life
      ensures old(life) == Forever ==> life == Forever && !o.Killed?
      ensures Inv(media, known) && Elsewhere(before, media, b.hash)
      ensures o.Died? ==> !noreplace && o.reason == NoRenameNoreplace
      ensures o.Done? ==> b.hash in media.generations
      ensures !noreplace ==> media.generations == old(media).generations
    {
      ghost var m0 := media;
      o := VerifyGeneration(Staging, b);
      NothingToRepair(m0, media, Staging, b.hash);
      if o.IsFailure() {
        return;
      }
      if !noreplace {
        return Died(NoRenameNoreplace);
      }
      PublishedInv(b, media, known);
      hide StagingOk, WellFormed, Clean, InOrder, Whole, IsGeneration, ModeWork, Inv;
      o := Do(Moved(media, b.hash));
      if o.IsFailure() {
        return;
      }
      ghost var m1 := media;
      o := VerifyGeneration(Generation, b);
      NothingToRepair(m1, media, Generation, b.hash);
    }
  }

  // ------------------------------------------------------------------------------------------
  // Any number of installations
  // ------------------------------------------------------------------------------------------

  /** An installation of `b` that is killed after `calls` system calls. */
  datatype Event = Event(b: Bundle, calls: nat)

  /** A bundle as it is read, known by its hash. */
  ghost predicate Genuine(b: Bundle, known: string -> Bundle) { WellFormed(b) && known(b.hash) == b }

  /** The history begins with a first installation of `b`, killed right after the temporary of a file was created under
      a name that is also the name of an entry. */
  ghost predicate BeginsCut(events: seq<Event>, b: Bundle, noreplace: bool) {
    events != [] && exists j: nat ::
      j < |b.entries| && ReceiptTaken(b, j) && events[0] == Event(b, KillAt(b, j, noreplace))
  }

  /** After any installations of any bundles, each killed anywhere, one uninterrupted installation of `b`. With
      renameat2 it always succeeds if `b` is clean, and then the directory named by the hash of `b` holds exactly `b`. A
      bundle that is not in order is never published. One that is in order but not clean is installed the first time,
      and never after a kill while a temporary stands at the name of another entry. A generation that was there
      already does not change, and no other bundle's does either. */
  method InstallAfterAnything(noreplace: bool, events: seq<Event>, b: Bundle, ghost known: string -> Bundle)
    returns (d: Installer, o: Result, before: Media)
    requires Genuine(b, known) && forall e | e in events :: Genuine(e.b, known)
    ensures Inv(before, known) && Inv(d.media, known) && Elsewhere(before, d.media, b.hash)
    ensures o.Done? ==> b.hash in d.media.generations && IsGeneration(b, d.media.generations[b.hash])
    ensures o.Done? ==> b.hash !in d.media.stagings && noreplace && InOrder(b)
    ensures b.hash in before.generations ==> d.media == before
    ensures !o.Killed? && (Clean(b) && noreplace ==> o.Done?)
    ensures events == [] ==> (o.Done? <==> noreplace && InOrder(b))
    ensures BeginsCut(events, b, noreplace) ==> o.Died?
  {
    d := new Installer(noreplace);
    ghost var cut := InOrder(b) && BeginsCut(events, b, noreplace);
    CleanIsInOrder(b);
    hide WellFormed, Clean, InOrder, ReceiptTaken, IsGeneration, KillAt, FirstCut;
    for i := 0 to |events|
      invariant d.noreplace == noreplace && Inv(d.media, known) && (!noreplace ==> d.media.generations == map[])
      invariant i == 0 ==> d.media == Media(map[], map[])
      invariant cut && i > 0 ==> Jammed(b, d.media)
    {
      assert events[i] in events;
      ghost var m0 := d.media;
      d.life := Calls(events[i].calls);
      var _ := d.Install(events[i].b, known);
      StillCut(events, i, b, m0, d.media, cut, noreplace);
    }
    d.life := Forever;
    before := d.media;
    o := d.Install(b, known);
    InvOf(b, d.media, known);
  }

  lemma StillCut(events: seq<Event>, i: nat, b: Bundle, m0: Media, m: Media, cut: bool, noreplace: bool)
    requires i < |events| && Elsewhere(m0, m, events[i].b.hash)
    requires events[i].b.hash == b.hash ==> events[i].b == b
    requires cut ==> BeginsCut(events, b, noreplace)
    requires cut && i == 0 && events[0].b == b ==> FirstCut(b, Calls(events[0].calls), m, noreplace)
    requires cut && i > 0 ==> Jammed(b, m0) && (events[i].b == b ==> m == m0)
    ensures cut ==> Jammed(b, m)
  {
    hide ReceiptTaken, Jammed, Elsewhere, KillAt;
    if cut {
      if i == 0 {
        var j: nat :| j < |b.entries| && ReceiptTaken(b, j) && events[0] == Event(b, KillAt(b, j, noreplace));
        CutJams(b, j, Calls(events[0].calls), m, noreplace);
      } else if events[i].b != b {
        StillJammed(b, m0, m, events[i].b.hash);
      }
    }
  }

  lemma CutJams(b: Bundle, j: nat, life: Life, m: Media, noreplace: bool)
    requires j < |b.entries| && ReceiptTaken(b, j) && FirstCut(b, life, m, noreplace)
    requires life == Calls(KillAt(b, j, noreplace))
    ensures Jammed(b, m)
  {
    hide KillAt, TempPath, Jammed;
    TempJams(b, m, j);
  }

  /** The other half: for every bundle that is not clean there is a history after which an uninterrupted installation
      dies. So all histories converge if and only if the bundle is clean. */
  method UncleanCanFail(noreplace: bool, b: Bundle, ghost known: string -> Bundle)
    returns (events: seq<Event>, d: Installer, o: Result)
    requires Genuine(b, known) && !Clean(b)
    ensures |events| <= 1 && (forall e | e in events :: e.b == b) && o.Died?
  {
    events := [];
    CleanIffNoneTaken(b);
    hide Clean, WellFormed, InOrder, KillAt;
    if InOrder(b) {
      var j: nat :| j < |b.entries| && ReceiptTaken(b, j);
      events := [Event(b, KillAt(b, j, noreplace))];
    }
    var before;
    d, o, before := InstallAfterAnything(noreplace, events, b, known);
  }

  /** A package with a file `.a` and a file named as the receipt of `.a`: the first installation succeeds; killed after
      five system calls, it never does again. */
  method ReceiptNameExample(ghost known: string -> Bundle) returns (b: Bundle, first: Result, again: Result)
    requires forall h :: known(h) == ExampleBundle()
    ensures b == ExampleBundle() && WellFormed(b) && first.Done? && again.Died?
  {
    b := ExampleBundle();
    ExampleFacts();
    hide WellFormed, InOrder, ReceiptTaken, KillAt, ExampleBundle;
    var d, before;
    d, first, before := InstallAfterAnything(true, [], b, known);
    var history := [Event(b, 5)];
    assert BeginsCut(history, b, true);
    d, again, before := InstallAfterAnything(true, history, b, known);
  }

  function ExampleBundle(): Bundle {
    var pkg := Plain("pkg");
    Bundle("", [Entry.Directory([pkg]), Regular([pkg, Plain(".a")], "x"),
                Regular([pkg, Receipt(Plain(".a"), "x")], "y")])
  }

  lemma ExampleFacts()
    ensures var b := ExampleBundle();
      WellFormed(b) && InOrder(b) && |b.entries| == 3 && ReceiptTaken(b, 1) && KillAt(b, 1, true) == 5
  {
    ExampleOrder();
    ExampleNames();
    ExampleParents();
    ExampleCost();
    hide InArchiveOrder, InOrder, ReceiptTaken, KillAt, ExampleBundle, DirPaths, DistinctPaths;
  }

  lemma ExampleParents()
    ensures var b := ExampleBundle();
      DistinctPaths(b.entries)
      && forall e | e in b.entries :: e.path != ROOT && (Parent(e.path) == ROOT || Parent(e.path) in DirPaths(b))
  {
    var b := ExampleBundle();
    assert b.entries[0] in b.entries;
    assert Parent(b.entries[1].path) == Parent(b.entries[2].path) == b.entries[0].path;
    assert Parent(b.entries[0].path) == ROOT;
  }

  lemma ExampleOrder()
    ensures InArchiveOrder(ExampleBundle().entries)
  {
    var pkg, a, r := Plain("pkg"), Plain(".a"), Receipt(Plain(".a"), "x");
    var start := Letters("pkg") + [Letter('/')];
    hide CanPrecede, Letters;
    TwoNames(pkg, a);
    TwoNames(pkg, r);
    hide Spelled;
    assert Spelled([pkg, a]) == start + SpelledName(a) && Spelled([pkg, r]) == start + SpelledName(r);
    SharedStart(start, SpelledName(a), SpelledName(r));
    SharedStart(Letters("pkg"), [], [Letter('/')] + SpelledName(a));
    SharedStart(Letters("pkg"), [], [Letter('/')] + SpelledName(r));
    assert Letters("pkg") + [] == Letters("pkg");
    assert start + SpelledName(a) == Letters("pkg") + ([Letter('/')] + SpelledName(a));
    assert start + SpelledName(r) == Letters("pkg") + ([Letter('/')] + SpelledName(r));
    assert CanPrecede([], [Letter('/')] + SpelledName(a)) && CanPrecede([], [Letter('/')] + SpelledName(r)) by {
      NothingFirst([Letter('/')] + SpelledName(a));
      NothingFirst([Letter('/')] + SpelledName(r));
    }
    LetterBeforeReceipt();
  }

  lemma TwoNames(p: Name, q: Name)
    ensures Spelled([p, q]) == SpelledName(p) + [Letter('/')] + SpelledName(q) && Spelled([p]) == SpelledName(p)
  {
    hide SpelledName;
    assert [p, q][1..] == [q];
  }

  lemma NothingFirst(a: seq<Sign>)
    requires a != []
    ensures CanPrecede([], a)
  {
  }

  lemma LetterBeforeReceipt()
    ensures CanPrecede(SpelledName(Plain(".a")), SpelledName(Receipt(Plain(".a"), "x")))
  {
    var a, r := SpelledName(Plain(".a")), SpelledName(Receipt(Plain(".a"), "x"));
    assert a[0] == r[0] == Letter('.') && a[1] == Letter('a') && r[1] == Letter('m');
    assert a[1..][0] == Letter('a') && r[1..][0] == Letter('m');
  }

  lemma ExampleNames()
    ensures InOrder(ExampleBundle()) && ReceiptTaken(ExampleBundle(), 1)
  {
  }

  lemma ExampleCost()
    ensures |ExampleBundle().entries| == 3 && KillAt(ExampleBundle(), 1, true) == 5
  {
    var b := ExampleBundle();
    assert DirPaths(b) == {b.entries[0].path};
    assert b.entries[..1] == [b.entries[0]];
  }
}
