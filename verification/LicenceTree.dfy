/** The tree in which a bundle of licences is staged, and what a crash can leave of it.

    A regular file is first written under its receipt, a name derived from the hash of its final name and content.
    The hash is taken to be injective, so a receipt is a constructor; any other name is `Plain`. */
module LicenceTree {
  import opened Options

  datatype Name = Plain(text: string) | Receipt(of: Name, content: string)
  type Path = seq<Name>

  /** A regular file as its metadata and content; `right` says that its mode is the published one. */
  datatype Leaf = Leaf(ino: nat, nlink: nat, content: string, right: bool)

  /** `dirs` maps each directory, the root included, to whether its mode is the published one. */
  datatype Tree = Tree(dirs: map<Path, bool>, files: map<Path, Leaf>)

  datatype Entry = Directory(path: Path) | Regular(path: Path, content: string)
  datatype Bundle = Bundle(hash: string, entries: seq<Entry>)

  const ROOT: Path := []

  function Parent(p: Path): Path
    requires p != ROOT
  {
    p[..|p| - 1]
  }

  function FileName(p: Path): Name
    requires p != ROOT
  {
    p[|p| - 1]
  }

  /** Where the temporary of an entry is. */
  function TempPath(e: Entry): Path
    requires e.Regular? && e.path != ROOT
  {
    Parent(e.path) + [Receipt(FileName(e.path), e.content)]
  }

  predicate HasReceipt(e: Entry) { e.Regular? && e.path != ROOT }

  predicate IsFile(b: Bundle, e: Entry) { e in b.entries && HasReceipt(e) }

  function DirPaths(b: Bundle): set<Path> { set e | e in b.entries && e.Directory? :: e.path }

  function FilesIn(entries: seq<Entry>): set<Path> { set e | e in entries && e.Regular? :: e.path }

  function FilePaths(b: Bundle): set<Path> { FilesIn(b.entries) }

  ghost predicate DistinctPaths(entries: seq<Entry>) {
    forall i, j :: 0 <= i < j < |entries| ==> entries[i].path != entries[j].path
  }

  /** A character of a spelled name, or the digest in a receipt: hexadecimal digits that are not known. */
  datatype Sign = Letter(c: char) | Digest(of: Name, content: string)

  function Letters(s: string): seq<Sign> { seq(|s|, i requires 0 <= i < |s| => Letter(s[i])) }

  /** A name as `temporary_receipt_name` spells it. */
  function SpelledName(n: Name): seq<Sign> {
    match n
    case Plain(text) => Letters(text)
    case Receipt(of, content) => Letters(".minipax-license-") + [Digest(of, content)] + Letters(".tmp")
  }

  function Spelled(p: Path): seq<Sign> {
    if p == [] then [] else if |p| == 1 then SpelledName(p[0]) else SpelledName(p[0]) + [Letter('/')] + Spelled(p[1..])
  }

  /** The first text can stand before the second in strict byte order; a digest can stand on either side of anything. */
  predicate CanPrecede(a: seq<Sign>, b: seq<Sign>) {
    if a == [] || b == [] then a == [] && b != []
    else if a[0] == b[0] then CanPrecede(a[1..], b[1..])
    else a[0].Letter? && b[0].Letter? ==> a[0].c < b[0].c
  }

  ghost predicate InArchiveOrder(entries: seq<Entry>) {
    forall i, j :: 0 <= i < j < |entries| ==> CanPrecede(Spelled(entries[i].path), Spelled(entries[j].path))
  }

  lemma {:induction false} SharedStart(p: seq<Sign>, a: seq<Sign>, b: seq<Sign>)
    ensures CanPrecede(p + a, p + b) == CanPrecede(a, b)
  {
    if p == [] {
      assert p + a == a && p + b == b;
    } else {
      assert (p + a)[1..] == p[1..] + a && (p + b)[1..] == p[1..] + b;
      SharedStart(p[1..], a, b);
    }
  }

  /** What reading a bundle guarantees: paths in strict order, and directories for what the entries need. */
  ghost predicate WellFormed(b: Bundle) {
    && (forall e | e in b.entries :: e.path != ROOT && (Parent(e.path) == ROOT || Parent(e.path) in DirPaths(b)))
    && DistinctPaths(b.entries) && InArchiveOrder(b.entries)
  }

  /** No entry is named as the receipt of a file beside it. */
  ghost predicate Clean(b: Bundle) {
    forall e, f | e in b.entries && IsFile(b, f) :: e.path != TempPath(f)
  }

  /** An entry named as the receipt of a file beside it is a file too, and comes later in the archive. */
  predicate InOrder(b: Bundle) {
    forall i, j | 0 <= i < |b.entries| && 0 <= j < |b.entries| && HasReceipt(b.entries[j])
                  && b.entries[i].path == TempPath(b.entries[j]) :: b.entries[i].Regular? && j < i
  }

  /** Some entry is named as the receipt of file number `j`. */
  predicate ReceiptTaken(b: Bundle, j: nat) {
    j < |b.entries| && HasReceipt(b.entries[j]) && exists e | e in b.entries :: e.path == TempPath(b.entries[j])
  }

  lemma CleanIsInOrder(b: Bundle)
    ensures Clean(b) ==> InOrder(b)
  {
    hide TempPath;
  }

  lemma CleanIffNoneTaken(b: Bundle)
    ensures Clean(b) <==> forall j: nat :: !ReceiptTaken(b, j)
  {
    hide TempPath;
    if !Clean(b) {
      var e, f :| e in b.entries && IsFile(b, f) && e.path == TempPath(f);
      var j :| 0 <= j < |b.entries| && b.entries[j] == f;
      assert ReceiptTaken(b, j);
    }
  }

  // ------------------------------------------------------------------------------------------
  // Residues
  // ------------------------------------------------------------------------------------------

  datatype Residue = Empty | Partial | Final | LinkedPair

  /** What may be left of the publication of `content`, or `None` when it is not a residue at all. */
  function Classify(final: Option<Leaf>, temp: Option<Leaf>, content: string): Option<Residue> {
    match (final, temp)
    case (None, None) => Some(Empty)
    case (None, Some(t)) => if t.nlink == 1 && t.content <= content then Some(Partial) else None
    case (Some(f), None) => if f.nlink == 1 && f.content == content then Some(Final) else None
    case (Some(f), Some(t)) =>
      if f.ino == t.ino && f.nlink == 2 && t.nlink == 2 && f.content == content && t.content == content
      then Some(LinkedPair) else None
  }

  function Lookup(t: Tree, p: Path): Option<Leaf> { if p in t.files then Some(t.files[p]) else None }

  function ResidueOf(t: Tree, e: Entry): Option<Residue>
    requires e.Regular? && e.path != ROOT
  {
    if e.path in t.dirs || TempPath(e) in t.dirs then None
    else Classify(Lookup(t, e.path), Lookup(t, TempPath(e)), e.content)
  }

  /** Whether the file `p` can be the final or the temporary of `e`. */
  predicate Names(e: Entry, p: Path) { e.Regular? && e.path != ROOT && (p == e.path || p == TempPath(e)) }

  /** The entries that a file of the staging may belong to. */
  function Candidates(entries: seq<Entry>, p: Path): seq<Entry> {
    if entries == [] then [] else
      var rest := Candidates(entries[..|entries| - 1], p);
      if Names(entries[|entries| - 1], p) then rest + [entries[|entries| - 1]] else rest
  }

  /** The check of `preflight_staging` on one file. */
  predicate FileAccepted(b: Bundle, t: Tree, p: Path) {
    var c := Candidates(b.entries, p); |c| == 1 && Names(c[0], p) && ResidueOf(t, c[0]).Some?
  }

  /** The check of `preflight_staging`. */
  predicate Accepts(b: Bundle, t: Tree) {
    && t.dirs.Keys - {ROOT} <= DirPaths(b)
    && forall p | p in t.files :: FileAccepted(b, t, p)
  }

  /** Every file is the final or the temporary of an entry. */
  ghost predicate Accounted(b: Bundle, p: Path) {
    exists e :: IsFile(b, e) && (p == e.path || p == TempPath(e))
  }

  /** The invariant of a staging directory. */
  ghost predicate StagingOk(b: Bundle, t: Tree) {
    && ROOT in t.dirs && t.dirs.Keys <= DirPaths(b) + {ROOT}
    && (forall p :: p in t.files ==> Accounted(b, p))
    && (forall e :: IsFile(b, e) ==> ResidueOf(t, e).Some?)
  }

  predicate Published(t: Tree, e: Entry)
    requires e.Regular? && e.path != ROOT
  {
    TempPath(e) !in t.files && Lookup(t, e.path).Some? && var f := t.files[e.path];
    f.nlink == 1 && f.content == e.content && f.right
  }

  /** Exactly the entries of the bundle, whatever their modes. */
  ghost predicate Whole(b: Bundle, t: Tree) {
    && t.dirs.Keys == DirPaths(b) + {ROOT} && t.files.Keys == FilePaths(b)
    && forall e | IsFile(b, e) && e.path in t.files ::
         t.files[e.path].nlink == 1 && t.files[e.path].content == e.content
  }

  ghost predicate RightDirModes(t: Tree) { forall p | p in t.dirs :: t.dirs[p] }

  ghost predicate RightModes(t: Tree) { RightDirModes(t) && (forall p | p in t.files :: t.files[p].right) }

  /** The published generation of a bundle. */
  ghost predicate IsGeneration(b: Bundle, t: Tree) { Whole(b, t) && RightModes(t) }

  // ------------------------------------------------------------------------------------------
  // Steps on one entry
  // ------------------------------------------------------------------------------------------

  /** `after` differs from `before` at most in the files of entry `e`. */
  ghost predicate OnlyFilesOf(before: Tree, after: Tree, e: Entry)
    requires e.Regular? && e.path != ROOT
  {
    && after.dirs == before.dirs
    && forall p :: p != e.path && p != TempPath(e) ==> Lookup(after, p) == Lookup(before, p)
  }

  lemma TempParts(e: Entry)
    requires e.Regular? && e.path != ROOT
    ensures TempPath(e) != ROOT && Parent(TempPath(e)) == Parent(e.path)
    ensures FileName(TempPath(e)) == Receipt(FileName(e.path), e.content)
    ensures e.path == Parent(e.path) + [FileName(e.path)]
  {
  }

  /** A receipt determines the file it belongs to. */
  lemma ReceiptsInjective(e: Entry, f: Entry)
    requires e.Regular? && e.path != ROOT && f.Regular? && f.path != ROOT
    ensures TempPath(e) == TempPath(f) ==> e == f
  {
    TempParts(e);
    TempParts(f);
  }

  /** Entries of a clean bundle share no name, neither final nor temporary. */
  lemma NamesApart(b: Bundle, e: Entry, f: Entry)
    requires WellFormed(b) && Clean(b) && IsFile(b, e) && IsFile(b, f)
    ensures e != f ==> e.path != f.path && TempPath(e) != TempPath(f)
    ensures e.path != TempPath(f) && TempPath(e) != f.path
  {
    ReceiptsInjective(e, f);
    EntriesByPath(b, e, f);
    hide TempPath, WellFormed;
  }

  lemma OnlyFilesTrans(t: Tree, u: Tree, v: Tree, e: Entry)
    requires e.Regular? && e.path != ROOT && OnlyFilesOf(t, u, e) && OnlyFilesOf(u, v, e)
    ensures OnlyFilesOf(t, v, e)
  {
    hide TempPath;
  }

  function WithTemp(t: Tree, e: Entry, leaf: Leaf): Tree
    requires e.Regular? && e.path != ROOT
  {
    t.(files := t.files[TempPath(e) := leaf])
  }

  /** unlinkat of the temporary: the other name, if there is one, has a link less. */
  function WithoutTemp(t: Tree, e: Entry): Tree
    requires e.Regular? && e.path != ROOT
  {
    var rest := t.files - {TempPath(e)};
    t.(files := if e.path in rest then rest[e.path := rest[e.path].(nlink := 1)] else rest)
  }

  function Renamed(t: Tree, e: Entry): Tree
    requires e.Regular? && e.path != ROOT && TempPath(e) in t.files
  {
    t.(files := (t.files - {TempPath(e)})[e.path := t.files[TempPath(e)]])
  }

  /** linkat of the temporary: one inode, two names. */
  function Linked(t: Tree, e: Entry): Tree
    requires e.Regular? && e.path != ROOT && TempPath(e) in t.files
  {
    var both := t.files[TempPath(e)].(nlink := 2);
    t.(files := t.files[TempPath(e) := both][e.path := both])
  }

  function WithRightMode(t: Tree, e: Entry): Tree
    requires e.path in t.files
  {
    t.(files := t.files[e.path := t.files[e.path].(right := true)])
  }

  /** The published file of `e`, whatever its mode. */
  predicate Matches(f: Leaf, e: Entry)
    requires e.Regular?
  {
    f.nlink == 1 && f.content == e.content
  }

  /** Undoing a partial publication leaves nothing; undoing a linked pair leaves the final name. */
  lemma DropTemp(t: Tree, e: Entry)
    requires e.Regular? && e.path != ROOT && (ResidueOf(t, e) == Some(Partial) || ResidueOf(t, e) == Some(LinkedPair))
    ensures OnlyFilesOf(t, WithoutTemp(t, e), e)
    ensures ResidueOf(WithoutTemp(t, e), e) == Some(if ResidueOf(t, e) == Some(Partial) then Empty else Final)
  {
    NotItsReceipt(e);
    hide TempPath;
  }

  /** Any prefix of the content in the temporary is a partial publication. */
  lemma TempResidue(t: Tree, e: Entry, leaf: Leaf)
    requires e.Regular? && e.path != ROOT && ResidueOf(t, e) == Some(Empty) && leaf.nlink == 1
    requires leaf.content <= e.content
    ensures OnlyFilesOf(t, WithTemp(t, e, leaf), e) && ResidueOf(WithTemp(t, e, leaf), e) == Some(Partial)
    ensures WithTemp(t, e, leaf).files[TempPath(e)] == leaf
  {
    NotItsReceipt(e);
    hide TempPath;
  }

  lemma Rewritten(t: Tree, e: Entry, before: Leaf, after: Leaf)
    requires e.Regular? && e.path != ROOT && ResidueOf(t, e) == Some(Empty) && after.nlink == 1
    requires after.content <= e.content
    ensures OnlyFilesOf(WithTemp(t, e, before), WithTemp(t, e, after), e)
    ensures ResidueOf(WithTemp(t, e, after), e) == Some(Partial) && WithTemp(t, e, after).files[TempPath(e)] == after
  {
    TempResidue(t, e, after);
    hide TempPath;
  }

  /** The moves of a complete temporary: after a rename, or after link and unlink, the file is final. */
  lemma MoveSteps(t: Tree, e: Entry)
    requires e.Regular? && e.path != ROOT && ResidueOf(t, e) == Some(Partial)
    requires t.files[TempPath(e)].content == e.content
    ensures OnlyFilesOf(t, Renamed(t, e), e) && ResidueOf(Renamed(t, e), e) == Some(Final)
    ensures OnlyFilesOf(t, Linked(t, e), e) && ResidueOf(Linked(t, e), e) == Some(LinkedPair)
    ensures var u := Linked(t, e);
      OnlyFilesOf(u, WithoutTemp(u, e), e) && ResidueOf(WithoutTemp(u, e), e) == Some(Final)
  {
    NotItsReceipt(e);
    hide TempPath;
  }

  lemma RightModeStep(t: Tree, e: Entry)
    requires e.Regular? && e.path != ROOT && ResidueOf(t, e) == Some(Final)
    ensures e.path in t.files && e.path !in t.dirs && Matches(t.files[e.path], e)
    ensures OnlyFilesOf(t, WithRightMode(t, e), e) && ResidueOf(WithRightMode(t, e), e) == Some(Final)
    ensures Published(WithRightMode(t, e), e)
  {
    NotItsReceipt(e);
    hide TempPath;
  }

  lemma EntriesByPath(b: Bundle, e: Entry, f: Entry)
    requires WellFormed(b) && e in b.entries && f in b.entries
    ensures e.path == f.path ==> e == f
  {
    var i :| 0 <= i < |b.entries| && b.entries[i] == e;
    var j :| 0 <= j < |b.entries| && b.entries[j] == f;
    if i < j {
      assert b.entries[i].path != b.entries[j].path;
    } else if j < i {
      assert b.entries[j].path != b.entries[i].path;
    }
  }

  /** A clean bundle puts no directory where a file of it goes. */
  lemma NotADirectory(b: Bundle, e: Entry, dirs: set<Path>)
    requires WellFormed(b) && Clean(b) && IsFile(b, e) && dirs <= DirPaths(b) + {ROOT}
    ensures e.path !in dirs && TempPath(e) !in dirs
  {
    TempParts(e);
    hide TempPath, WellFormed;
    forall d | d in b.entries && d.Directory? ensures d.path != e.path && d.path != TempPath(e) {
      EntriesByPath(b, d, e);
    }
  }

  /** Work on one entry of a clean bundle leaves the others alone, and the invariant holds if it leaves a residue. */
  lemma EntryStep(b: Bundle, before: Tree, after: Tree, e: Entry)
    requires WellFormed(b) && Clean(b) && IsFile(b, e) && StagingOk(b, before) && OnlyFilesOf(before, after, e)
    requires ResidueOf(after, e).Some?
    ensures StagingOk(b, after)
    ensures forall f :: IsFile(b, f) && f != e ==> ResidueOf(after, f) == ResidueOf(before, f)
    ensures forall f :: IsFile(b, f) && f != e ==> Published(after, f) == Published(before, f)
  {
    forall f | IsFile(b, f) && f != e
      ensures ResidueOf(after, f) == ResidueOf(before, f) && Published(after, f) == Published(before, f)
    {
      NamesApart(b, e, f);
      OtherEntry(before, after, e, f);
    }
    hide TempPath, ResidueOf, WellFormed, Clean, Published;
    forall p | p in after.files ensures Accounted(b, p) {
      if p != e.path && p != TempPath(e) {
        assert Lookup(after, p) == Lookup(before, p);
      }
    }
  }

  lemma OtherEntry(before: Tree, after: Tree, e: Entry, f: Entry)
    requires e.Regular? && e.path != ROOT && f.Regular? && f.path != ROOT && OnlyFilesOf(before, after, e)
    requires e.path != f.path && TempPath(e) != TempPath(f) && e.path != TempPath(f) && TempPath(e) != f.path
    ensures ResidueOf(after, f) == ResidueOf(before, f) && Published(after, f) == Published(before, f)
  {
    hide TempPath;
    assert Lookup(after, f.path) == Lookup(before, f.path) && Lookup(after, TempPath(f)) == Lookup(before, TempPath(f));
  }

  lemma DirStep(b: Bundle, before: Tree, after: Tree)
    requires WellFormed(b) && Clean(b) && StagingOk(b, before) && after.files == before.files
    requires before.dirs.Keys <= after.dirs.Keys <= DirPaths(b) + {ROOT}
    ensures StagingOk(b, after)
    ensures forall e :: IsFile(b, e) ==> Published(after, e) == Published(before, e)
  {
    forall e | IsFile(b, e) ensures ResidueOf(after, e) == ResidueOf(before, e) {
      NotADirectory(b, e, after.dirs.Keys);
    }
  }

  /** Once every entry is published and every directory is there, the staging is whole. */
  lemma AllPublished(b: Bundle, t: Tree)
    requires WellFormed(b) && StagingOk(b, t)
    requires forall e :: IsFile(b, e) ==> Published(t, e)
    requires DirPaths(b) <= t.dirs.Keys
    ensures Whole(b, t) && forall p | p in t.files :: t.files[p].right
  {
    forall p | p in t.files ensures p in FilePaths(b) && t.files[p].right {
      var e :| IsFile(b, e) && (p == e.path || p == TempPath(e));
      assert Published(t, e);
    }
    forall p | p in FilePaths(b) ensures p in t.files {
      var e :| e in b.entries && e.Regular? && e.path == p;
      assert IsFile(b, e) && Published(t, e);
    }
  }

  /** A whole tree of a clean bundle is a staging in which everything is final. */
  lemma WholeIsStaging(b: Bundle, t: Tree)
    requires WellFormed(b) && Clean(b) && Whole(b, t)
    ensures StagingOk(b, t)
  {
    forall p | p in t.files ensures Accounted(b, p) {
      var e :| e in b.entries && e.Regular? && e.path == p;
      assert IsFile(b, e);
    }
    forall e | IsFile(b, e) ensures ResidueOf(t, e) == Some(Final) {
      assert TempPath(e) !in FilePaths(b);
      NotADirectory(b, e, t.dirs.Keys);
      assert e.path in FilePaths(b);
      assert e.path in t.files;
    }
  }

  // ------------------------------------------------------------------------------------------
  // What the preflight of a staging accepts
  // ------------------------------------------------------------------------------------------

  lemma {:induction false} CandidatesAre(entries: seq<Entry>, p: Path)
    ensures forall e :: e in Candidates(entries, p) <==> e in entries && Names(e, p)
    decreases |entries|
  {
    if entries != [] {
      var init := entries[..|entries| - 1];
      CandidatesAre(init, p);
      assert entries == init + [entries[|entries| - 1]];
    }
  }

  lemma {:induction false} CandidatesDistinct(entries: seq<Entry>, p: Path)
    requires DistinctPaths(entries)
    ensures DistinctPaths(Candidates(entries, p))
    decreases |entries|
  {
    if entries != [] {
      var init := entries[..|entries| - 1];
      CandidatesDistinct(init, p);
      CandidatesAre(init, p);
      var c := Candidates(init, p);
      assert forall i | 0 <= i < |c| :: c[i] in c;
      forall e | e in c ensures e.path != entries[|entries| - 1].path {
        var i :| 0 <= i < |init| && init[i] == e;
      }
    }
  }

  /** One candidate: exactly one entry fits. */
  lemma OneCandidate(b: Bundle, p: Path, e: Entry)
    requires WellFormed(b) && e in b.entries && Names(e, p)
    requires forall f :: f in b.entries && Names(f, p) ==> f == e
    ensures Candidates(b.entries, p) == [e]
  {
    CandidatesAre(b.entries, p);
    CandidatesDistinct(b.entries, p);
    var c := Candidates(b.entries, p);
    assert e in c;
    assert forall i | 0 <= i < |c| :: c[i] in c;
    assert c[0] == e && c[|c| - 1] == e;
  }

  /** For a clean bundle the preflight accepts exactly the residues of a publication. */
  lemma PreflightAcceptsResidues(b: Bundle, t: Tree)
    requires WellFormed(b) && Clean(b) && ROOT in t.dirs
    ensures Accepts(b, t) <==> StagingOk(b, t)
  {
    hide ResidueOf, WellFormed, Clean, Candidates, TempPath;
    if StagingOk(b, t) {
      forall p | p in t.files ensures FileAccepted(b, t, p) {
        UniqueOwner(b, p);
      }
    }
    if Accepts(b, t) {
      forall p | p in t.files ensures Accounted(b, p) {
        assert FileAccepted(b, t, p);
        CandidateIsOwner(b, p);
      }
      forall e | IsFile(b, e) ensures ResidueOf(t, e).Some? {
        AcceptedEntry(b, t, e);
      }
    }
  }

  lemma CandidateIsOwner(b: Bundle, p: Path)
    requires |Candidates(b.entries, p)| == 1 && Names(Candidates(b.entries, p)[0], p)
    ensures Accounted(b, p)
  {
    CandidatesAre(b.entries, p);
    assert IsFile(b, Candidates(b.entries, p)[0]);
  }

  lemma OnlyCandidate(b: Bundle, e: Entry, p: Path)
    requires e in b.entries && Names(e, p) && |Candidates(b.entries, p)| == 1
    ensures Candidates(b.entries, p)[0] == e
  {
    CandidatesAre(b.entries, p);
  }

  lemma AcceptedEntry(b: Bundle, t: Tree, e: Entry)
    requires WellFormed(b) && Clean(b) && Accepts(b, t) && IsFile(b, e)
    ensures ResidueOf(t, e).Some?
  {
    NotADirectory(b, e, t.dirs.Keys);
    hide TempPath, WellFormed, Clean, Candidates, ResidueOf;
    if e.path in t.files {
      assert FileAccepted(b, t, e.path);
      OnlyCandidate(b, e, e.path);
    } else if TempPath(e) in t.files {
      assert FileAccepted(b, t, TempPath(e));
      OnlyCandidate(b, e, TempPath(e));
    } else {
      NothingLeft(t, e);
    }
  }

  lemma NothingLeft(t: Tree, e: Entry)
    requires e.Regular? && e.path != ROOT && e.path !in t.dirs && TempPath(e) !in t.dirs
    requires e.path !in t.files && TempPath(e) !in t.files
    ensures ResidueOf(t, e) == Some(Empty)
  {
  }

  lemma UniqueOwner(b: Bundle, p: Path)
    requires WellFormed(b) && Clean(b) && Accounted(b, p)
    ensures var c := Candidates(b.entries, p); |c| == 1 && IsFile(b, c[0]) && Names(c[0], p)
  {
    var e :| IsFile(b, e) && (p == e.path || p == TempPath(e));
    hide TempPath, WellFormed;
    forall f | f in b.entries && Names(f, p) ensures f == e {
      NamesApart(b, e, f);
    }
    assert Names(e, p);
    OneCandidate(b, p, e);
  }

  /** A file stands where the receipt of file `j` goes, and an entry has that name too. */
  predicate Blocked(b: Bundle, t: Tree, j: nat) { ReceiptTaken(b, j) && TempPath(b.entries[j]) in t.files }

  /** Such a file belongs to two entries, or to none: the preflight refuses the tree, whatever else is in it. */
  lemma BlockedRefused(b: Bundle, t: Tree, j: nat)
    requires InOrder(b) && Blocked(b, t, j)
    ensures !Accepts(b, t)
  {
    var f := b.entries[j];
    var e :| e in b.entries && e.path == TempPath(f);
    TakerIsFile(b, j, e);
    NotItsReceipt(f);
    TwoCandidates(b, e, f);
    hide *;
    TwoRefused(b, t, e.path);
  }

  lemma TakerIsFile(b: Bundle, j: nat, e: Entry)
    requires InOrder(b) && ReceiptTaken(b, j) && e in b.entries && e.path == TempPath(b.entries[j])
    ensures e.Regular? && e.path != ROOT
  {
    TempParts(b.entries[j]);
    hide TempPath;
    var i :| 0 <= i < |b.entries| && b.entries[i] == e;
  }

  lemma TwoCandidates(b: Bundle, e: Entry, f: Entry)
    requires e in b.entries && e.Regular? && e.path != ROOT && IsFile(b, f) && e.path == TempPath(f) && e != f
    ensures |Candidates(b.entries, e.path)| != 1
  {
    hide TempPath;
    CandidatesAre(b.entries, e.path);
    assert Names(e, e.path) && Names(f, e.path);
  }

  lemma TwoRefused(b: Bundle, t: Tree, p: Path)
    requires p in t.files && |Candidates(b.entries, p)| != 1
    ensures !Accepts(b, t)
  {
    hide Candidates, ResidueOf;
    assert !FileAccepted(b, t, p);
  }

  /** A file is never its own receipt. */
  lemma NotItsReceipt(f: Entry)
    requires f.Regular? && f.path != ROOT
    ensures f.path != TempPath(f)
  {
    TempParts(f);
    assert Receipt(FileName(f.path), f.content) != FileName(f.path);
  }

  // ------------------------------------------------------------------------------------------
  // A first publication, entry by entry
  // ------------------------------------------------------------------------------------------

  /** The files of these entries and no others, each as published. */
  ghost predicate Exactly(entries: seq<Entry>, t: Tree) {
    && t.files.Keys == FilesIn(entries)
    && forall e | e in entries && e.Regular? && e.path in t.files ::
         Matches(t.files[e.path], e) && t.files[e.path].right
  }

  lemma PathsBefore(b: Bundle, i: nat)
    requires WellFormed(b) && i < |b.entries|
    ensures forall e | e in b.entries[..i] :: e in b.entries && e.path != b.entries[i].path
    ensures b.entries[..i + 1] == b.entries[..i] + [b.entries[i]]
  {
    forall e | e in b.entries[..i] ensures e in b.entries && e.path != b.entries[i].path {
      var k :| 0 <= k < i && b.entries[k] == e;
    }
  }

  /** In a bundle in order nothing is in the way of the next file. */
  lemma NextIsFree(b: Bundle, i: nat, t: Tree)
    requires WellFormed(b) && InOrder(b) && i < |b.entries| && IsFile(b, b.entries[i])
    requires Exactly(b.entries[..i], t) && t.dirs.Keys <= DirPaths(b) + {ROOT}
    ensures ResidueOf(t, b.entries[i]) == Some(Empty)
  {
    NoDirectoryInTheWay(b, i);
    NoFileInTheWay(b, i);
    hide TempPath, WellFormed, InOrder, ResidueOf;
    NothingLeft(t, b.entries[i]);
  }

  lemma NoDirectoryInTheWay(b: Bundle, i: nat)
    requires WellFormed(b) && InOrder(b) && i < |b.entries| && IsFile(b, b.entries[i])
    ensures var e := b.entries[i]; e.path !in DirPaths(b) + {ROOT} && TempPath(e) !in DirPaths(b) + {ROOT}
  {
    var e := b.entries[i];
    TempParts(e);
    hide TempPath, WellFormed;
    forall d | d in b.entries && d.Directory? ensures d.path != e.path && d.path != TempPath(e) {
      var k :| 0 <= k < |b.entries| && b.entries[k] == d;
      EntriesByPath(b, d, e);
    }
  }

  lemma NoFileInTheWay(b: Bundle, i: nat)
    requires WellFormed(b) && InOrder(b) && i < |b.entries| && IsFile(b, b.entries[i])
    ensures var e := b.entries[i]; e.path !in FilesIn(b.entries[..i]) && TempPath(e) !in FilesIn(b.entries[..i])
  {
    var e := b.entries[i];
    PathsBefore(b, i);
    hide TempPath, WellFormed;
    forall d | d in b.entries[..i] ensures d.path != TempPath(e) {
      var k :| 0 <= k < i && b.entries[k] == d;
    }
  }

  lemma NextPublished(b: Bundle, i: nat, t: Tree, u: Tree)
    requires WellFormed(b) && InOrder(b) && i < |b.entries| && IsFile(b, b.entries[i])
    requires Exactly(b.entries[..i], t) && OnlyFilesOf(t, u, b.entries[i]) && Published(u, b.entries[i])
    requires ResidueOf(t, b.entries[i]) == Some(Empty)
    ensures Exactly(b.entries[..i + 1], u)
  {
    var e := b.entries[i];
    PathsBefore(b, i);
    NotItsReceipt(e);
    hide TempPath, WellFormed, InOrder;
    assert TempPath(e) !in t.files && TempPath(e) !in u.files;
    forall p ensures p in u.files <==> p in FilesIn(b.entries[..i + 1]) {
      assert p != e.path && p != TempPath(e) ==> Lookup(u, p) == Lookup(t, p);
    }
    forall d | d in b.entries[..i + 1] && d.Regular? && d != e && d.path in u.files
      ensures Matches(u.files[d.path], d) && u.files[d.path].right
    {
      assert d.path in FilesIn(b.entries[..i]);
      assert Lookup(u, d.path) == Lookup(t, d.path);
    }
  }

  lemma NextSkipped(b: Bundle, i: nat, t: Tree)
    requires WellFormed(b) && i < |b.entries| && b.entries[i].Directory? && Exactly(b.entries[..i], t)
    ensures Exactly(b.entries[..i + 1], t)
  {
    PathsBefore(b, i);
    hide WellFormed;
  }

  lemma ExactlyIsWhole(b: Bundle, t: Tree)
    requires Exactly(b.entries, t) && t.dirs.Keys == DirPaths(b) + {ROOT}
    ensures Whole(b, t)
  {
  }

  // ------------------------------------------------------------------------------------------
  // What a publication that went through says of the bundle
  // ------------------------------------------------------------------------------------------

  /** Of the first `i` entries, the receipts that are there are names of entries published after their files. */
  ghost predicate ReceiptsGone(b: Bundle, i: nat, t: Tree)
    requires i <= |b.entries|
  {
    forall j | 0 <= j < i && HasReceipt(b.entries[j]) && TempPath(b.entries[j]) in t.files ::
      exists k | j < k < i :: b.entries[k].path == TempPath(b.entries[j])
  }

  lemma ReceiptsStayGone(b: Bundle, i: nat, t: Tree, u: Tree)
    requires i < |b.entries| && IsFile(b, b.entries[i]) && ReceiptsGone(b, i, t)
    requires OnlyFilesOf(t, u, b.entries[i]) && TempPath(b.entries[i]) !in u.files
    ensures ReceiptsGone(b, i + 1, u)
  {
    hide TempPath;
    forall j | 0 <= j < i + 1 && HasReceipt(b.entries[j]) && TempPath(b.entries[j]) in u.files
      ensures exists k | j < k < i + 1 :: b.entries[k].path == TempPath(b.entries[j])
    {
      var p := TempPath(b.entries[j]);
      if p == b.entries[i].path {
        assert j < i;
        assert b.entries[i].path == p;
      } else {
        assert Lookup(u, p) == Lookup(t, p);
        var k :| j < k < i && b.entries[k].path == p;
        assert b.entries[k].path == p;
      }
    }
  }

  lemma PublishedInOrder(b: Bundle, t: Tree)
    requires WellFormed(b) && ReceiptsGone(b, |b.entries|, t) && Whole(b, t)
    requires forall e | IsFile(b, e) :: TempPath(e) !in DirPaths(b)
    ensures InOrder(b)
  {
    hide TempPath, WellFormed;
    forall i, j | 0 <= i < |b.entries| && 0 <= j < |b.entries| && HasReceipt(b.entries[j])
                  && b.entries[i].path == TempPath(b.entries[j])
      ensures b.entries[i].Regular? && j < i
    {
      assert b.entries[i] in b.entries;
      assert b.entries[i].Regular?;
      assert TempPath(b.entries[j]) in FilePaths(b);
      var k :| j < k < |b.entries| && b.entries[k].path == TempPath(b.entries[j]);
      SamePlace(b, i, k);
    }
  }

  lemma SamePlace(b: Bundle, i: nat, k: nat)
    requires WellFormed(b) && i < |b.entries| && k < |b.entries| && b.entries[i].path == b.entries[k].path
    ensures i == k
  {
  }
}
