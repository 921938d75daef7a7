/** `command_lock`, the verification of a LIVE_LOCK against the other documents, and that the one accepts what the other
    renders and nothing else. */
module LiveLockVerify {
  import opened LiveLock
  import opened Options
  import opened OrderedText

  // ------------------------------------------------------------------------------------------
  // Characters and lengths of what is rendered
  // ------------------------------------------------------------------------------------------

  predicate TextClean(s: string) { forall c | c in s :: c == '\n' || Printable(c) }

  lemma CleanIs(s: string)
    ensures Clean(s) <==> TextClean(s) && Free(s, '\n')
  {
  }

  lemma {:induction false} TerminatedClean(pieces: seq<string>, c: char)
    requires c == '\n' || Printable(c)
    ensures TextClean(Terminated(pieces, c)) <==> forall s | s in pieces :: TextClean(s)
  {
    if pieces != [] {
      TerminatedClean(pieces[1..], c);
      assert forall s :: s in pieces <==> s == pieces[0] || s in pieces[1..];
      TextConcat(pieces[0] + [c], Terminated(pieces[1..], c));
      TextConcat(pieces[0], [c]);
    }
  }

  lemma TextConcat(s: string, t: string)
    ensures TextClean(s + t) <==> TextClean(s) && TextClean(t)
  {
    assert forall c :: c in s + t <==> c in s || c in t;
  }

  lemma {:induction false} TerminatedFree(pieces: seq<string>, c: char, d: char)
    requires c != d && AllFree(pieces, d)
    ensures Free(Terminated(pieces, c), d)
  {
    if pieces != [] {
      assert forall s | s in pieces[1..] :: s in pieces;
      TerminatedFree(pieces[1..], c, d);
      assert Free(pieces[0], d) && Free([c], d);
      FreeConcat(pieces[0], [c], d);
      FreeConcat(pieces[0] + [c], Terminated(pieces[1..], c), d);
    }
  }

  lemma JoinedFine(fields: seq<string>)
    requires fields != [] && AllFree(fields, '\n')
    ensures Free(Joined(fields, '|'), '\n')
    ensures TextClean(Joined(fields, '|')) <==> forall s | s in fields :: TextClean(s)
  {
    hide Joined, TextClean;
    JoinedTerminated(fields, '|');
    TerminatedFree(fields, '|', '\n');
    TerminatedClean(fields, '|');
    TextConcat(Joined(fields, '|'), ['|']);
    assert TextClean(['|']) by { BarClean(); }
  }

  lemma BarClean()
    ensures TextClean(['|'])
  {
  }

  lemma PayloadLiterals()
    ensures Clean("boot-efi") && Clean("live-efi") && Clean("material") && Clean("runtime") && Clean("payload")
    ensures Clean("built-from-source")
  {
  }

  lemma MoreLiterals()
    ensures Clean("generated:linux-efi-stub") && Clean("embed-proof:")
  {
  }

  lemma LicenseFree(license: string, evidence: string)
    requires LiteralOk(license, evidence)
    ensures Free(license, '\n') && IsSha(evidence)
  {
  }

  lemma PayloadFieldsFine(i: LockInfo)
    requires IsSha(i.embed) && IsSha(i.payloadSha) && LiteralOk(i.license, i.evidence)
    ensures AllFree(PayloadFields(i), '\n')
    ensures (forall s | s in PayloadFields(i) :: TextClean(s)) <==> Clean(i.license)
  {
    LicenseFree(i.license, i.evidence);
    ShaClean(i.embed);
    ShaClean(i.payloadSha);
    ShaClean(i.evidence);
    CleanConcat("embed-proof:", i.embed);
    PayloadLiterals();
    MoreLiterals();
    hide LiteralOk, IsSha, Clean, TextClean, Free;
    var f := PayloadFields(i);
    forall k | 0 <= k < 11 ensures Free(f[k], '\n') && (TextClean(f[k]) <==> k == 8 ==> Clean(i.license)) {
      CleanIs(f[k]);
    }
    assert TextClean(f[8]) <==> Clean(i.license) by { CleanIs(i.license); }
    assert f[8] in f;
  }

  lemma PayloadTextFine(d: Documents, license: string, evidence: string)
    requires Parsed(d) && LiteralOk(license, evidence)
    ensures Free(PayloadText(d, license, evidence), '\n') && 0 < |PayloadText(d, license, evidence)| < |license| + 400
    ensures TextClean(PayloadText(d, license, evidence)) <==> Clean(license)
  {
    ShasOf(d);
    LicenseFree(license, evidence);
    PayloadLength(d, license, evidence);
    hide PayloadText, Joined, PayloadFields, Clean, TextClean, LiteralOk, IsSha, Parsed;
    var i := InfoFor(d, license, evidence);
    PayloadIsJoined(d, license, evidence);
    PayloadFieldsFine(i);
    JoinedFine(PayloadFields(i));
  }

  lemma ShasOf(d: Documents)
    requires Parsed(d)
    ensures IsSha(d.embedSha) && IsSha(d.efiSha)
  {
  }

  lemma PayloadLength(d: Documents, license: string, evidence: string)
    requires |d.embedSha| == |evidence| == |d.efiSha| == 64
    ensures 0 < |PayloadText(d, license, evidence)| < |license| + 400
  {
  }

  // ------------------------------------------------------------------------------------------
  // What is rendered is a document
  // ------------------------------------------------------------------------------------------

  lemma LinesAre(d: Documents, license: string, evidence: string)
    ensures var lines, v := LockLines(d, license, evidence), Values(InfoFor(d, license, evidence));
      |lines| == 21 && |v| == |FIELDS| == 18 && lines[0] == HEADER && lines[19] == PAYLOAD_SCHEMA
      && lines[20] == KeyLine(PAYLOAD, PayloadText(d, license, evidence))
      && forall k | 0 <= k < 18 :: lines[1 + k] == KeyLine(FIELDS[k], v[k])
  {
    hide KeyValue, PayloadText, Eligible;
  }

  predicate LineFine(line: string) { Clean(line) && 0 < |line| < 160 }

  lemma KeyLineFine(f: Field, v: string)
    requires KeyFine(f.key) && ValueFine(f, v)
    ensures LineFine(KeyLine(f, v)) && ValueOk(f, v)
  {
    CleanIs(v);
    assert Clean("=");
    CleanConcat(f.key, "=");
    CleanConcat(f.key + "=", v);
  }

  /** Every line but the last is printable and short. */
  lemma LinesFine(d: Documents, license: string, evidence: string, i: LockInfo)
    requires LockOk(i) && i.(license := license, evidence := evidence) == InfoFor(d, license, evidence)
    ensures forall k | 0 <= k < 20 :: LineFine(LockLines(d, license, evidence)[k])
    ensures FieldsAt(LockLines(d, license, evidence), 1, FIELDS, Values(InfoFor(d, license, evidence)))
  {
    LinesAre(d, license, evidence);
    ValuesFine(i);
    KeysFine();
    assert Values(i) == Values(InfoFor(d, license, evidence));
    hide LockLines, FIELDS, Values, KeyLine, KeyFine, ValueFine, ValueOk, LockOk, Clean;
    var lines := LockLines(d, license, evidence);
    forall k | 1 <= k < 19 ensures LineFine(lines[k]) && ValueOk(FIELDS[k - 1], Values(i)[k - 1]) {
      KeyLineFine(FIELDS[k - 1], Values(i)[k - 1]);
    }
    forall k | 0 <= k < 18 ensures ValueOk(FIELDS[k], Values(i)[k]) {
      KeyLineFine(FIELDS[k], Values(i)[k]);
    }
    FixedClean();
    SchemaClean();
    Constants();
  }

  /** A licence that would be accepted, to stand in for one that is too long. */
  lemma ShortLicense(d: Documents, license: string, evidence: string) returns (i: LockInfo)
    requires Parsed(d) && Composed(d) && LiteralOk(license, evidence)
    ensures LockOk(i) && i.(license := license, evidence := evidence) == InfoFor(d, license, evidence)
  {
    var info := InfoFor(d, license, evidence);
    i := info.(license := "A");
    assert LiteralOk("A", evidence);
    InfoForOk(d, "A", evidence);
    assert i == InfoFor(d, "A", evidence);
  }

  /** The pieces of a rendered lock are its lines, however long the licence. */
  lemma RenderedPieces(d: Documents, license: string, evidence: string)
    requires Parsed(d) && Composed(d) && LiteralOk(license, evidence)
    ensures AllFree(LockLines(d, license, evidence), '\n') && |LockLines(d, license, evidence)| == 21
    ensures forall k | 0 <= k < 20 :: LineFine(LockLines(d, license, evidence)[k])
    ensures var r := Rendered(d, license, evidence); r != "" && r[|r| - 1] == '\n'
    ensures Pieces(Rendered(d, license, evidence), '\n') == LockLines(d, license, evidence)
  {
    var lines := LockLines(d, license, evidence);
    var i := ShortLicense(d, license, evidence);
    LinesAre(d, license, evidence);
    LinesFine(d, license, evidence, i);
    LastFree(d, license, evidence);
    hide LockLines, PayloadText, Parsed, Composed, LiteralOk, Terminated, FIELDS, PAYLOAD, Values, InfoFor, Clean,
      KeyLine;
    forall s | s in lines ensures Free(s, '\n') {
      var k :| 0 <= k < |lines| && lines[k] == s;
      if k < 20 {
        CleanIs(s);
      }
    }
    TerminatedEnd(lines, '\n');
    PiecesUnique(lines, Pieces(Lines(lines), '\n'), '\n');
  }

  lemma LastFree(d: Documents, license: string, evidence: string)
    requires Parsed(d) && LiteralOk(license, evidence)
    ensures |license| < LICENSE_LIMIT ==> ValueOk(PAYLOAD, PayloadText(d, license, evidence))
    ensures Free(KeyLine(PAYLOAD, PayloadText(d, license, evidence)), '\n')
    ensures |KeyLine(PAYLOAD, PayloadText(d, license, evidence))| < |license| + 410
    ensures TextClean(KeyLine(PAYLOAD, PayloadText(d, license, evidence))) <==> Clean(license)
  {
    PayloadTextFine(d, license, evidence);
    hide PayloadText, Parsed, LiteralOk;
    var p := PayloadText(d, license, evidence);
    assert Clean("PAYLOAD" + "=");
    CleanIs("PAYLOAD" + "=");
    FreeConcat("PAYLOAD" + "=", p, '\n');
    TextConcat("PAYLOAD" + "=", p);
  }

  lemma RenderedLength(d: Documents, license: string, evidence: string)
    requires Parsed(d) && Composed(d) && LiteralOk(license, evidence)
    ensures 0 < |Rendered(d, license, evidence)| < |license| + 4096
  {
    var lines := LockLines(d, license, evidence);
    RenderedPieces(d, license, evidence);
    LinesAre(d, license, evidence);
    LastFree(d, license, evidence);
    hide *;
    hide LockLines, LineFine, Rendered;
    LengthOf(lines);
    RenderedLines(d, license, evidence);
  }

  lemma RenderedLines(d: Documents, license: string, evidence: string)
    ensures Rendered(d, license, evidence) == Lines(LockLines(d, license, evidence))
  {
    hide LockLines, Lines;
  }

  lemma LengthOf(lines: seq<string>)
    requires |lines| == 21 && forall k | 0 <= k < 20 :: LineFine(lines[k])
    ensures |Lines(lines)| <= 20 * 160 + |lines[20]| + 1
  {
    hide Clean, Terminated;
    assert lines == lines[..20] + [lines[20]];
    TerminatedSplit(lines[..20], [lines[20]], '\n');
    TerminatedLength(lines[..20], '\n', 160);
    TerminatedOne(lines[20], '\n');
  }

  lemma CleanOf(lines: seq<string>)
    requires |lines| == 21 && forall k | 0 <= k < 20 :: LineFine(lines[k])
    ensures TextClean(Lines(lines)) <==> TextClean(lines[20])
  {
    hide Clean, Terminated, TextClean;
    TerminatedClean(lines, '\n');
    forall k | 0 <= k < 20 ensures TextClean(lines[k]) {
      CleanIs(lines[k]);
    }
    assert forall s | s in lines :: TextClean(s) || s == lines[20];
    assert lines[20] in lines;
  }

  /** The buffer of `command_lock` is large enough, and its output is printable exactly if the licence is. */
  lemma RenderedFine(d: Documents, license: string, evidence: string)
    requires Parsed(d) && Composed(d) && LiteralOk(license, evidence)
    ensures 0 < |Rendered(d, license, evidence)| < |license| + 4096
    ensures TextClean(Rendered(d, license, evidence)) <==> Clean(license)
  {
    RenderedLength(d, license, evidence);
    RenderedPieces(d, license, evidence);
    LinesAre(d, license, evidence);
    LastFree(d, license, evidence);
    hide *;
    CleanOf(LockLines(d, license, evidence));
    RenderedLines(d, license, evidence);
  }

  lemma TerminatedOne(s: string, c: char)
    ensures Terminated([s], c) == s + [c]
  {
    assert Terminated([s][1..], c) == "";
  }

  lemma RenderedCanonical(d: Documents, license: string, evidence: string)
    requires Parsed(d) && Composed(d) && LiteralOk(license, evidence) && |license| < LICENSE_LIMIT
    ensures Canonical(Rendered(d, license, evidence)) <==> Clean(license)
  {
    RenderedFine(d, license, evidence);
    RenderedPieces(d, license, evidence);
    hide Rendered, Parsed, Composed, LiteralOk, Clean, LineFine, LockLines, Pieces, AllFree;
  }

  /** A rendered lock with a licence of the right kind is a lock that says what it was rendered from. */
  lemma RenderedIsLock(d: Documents, license: string, evidence: string)
    requires Parsed(d) && Composed(d) && LiteralOk(license, evidence) && |license| < LICENSE_LIMIT
    requires Canonical(Rendered(d, license, evidence))
    ensures IsLock(Rendered(d, license, evidence), InfoFor(d, license, evidence))
  {
    var i := InfoFor(d, license, evidence);
    InfoForOk(d, license, evidence);
    RenderedPieces(d, license, evidence);
    LinesAre(d, license, evidence);
    LinesFine(d, license, evidence, i);
    LastFree(d, license, evidence);
    PayloadIsJoined(d, license, evidence);
    hide Rendered, Parsed, Composed, LiteralOk, LockLines, Pieces, AllFree, FIELDS, PAYLOAD, LockOk, FieldsAt, ValueOk,
      KeyLine, Values, PayloadText, Joined, LineFine, Canonical, HEADER, PAYLOAD_SCHEMA, InfoFor, TextClean, Clean;
  }

  // ------------------------------------------------------------------------------------------
  // One text for one content
  // ------------------------------------------------------------------------------------------

  lemma LockUnique(text: string, i: LockInfo, j: LockInfo)
    requires IsLock(text, i) && IsLock(text, j)
    ensures i == j
  {
    hide Document, Joined, Values, PayloadFields, LockOk;
    DocumentUnique(Pieces(text, '\n'), Values(i), Joined(PayloadFields(i), '|'), Values(j),
                   Joined(PayloadFields(j), '|'));
    EfiIsSha(i);
    EfiIsSha(j);
    PayloadFieldList(i);
    PayloadFieldList(j);
    JoinedUnique(PayloadFields(i), PayloadFields(j), '|');
    ValuesInfo(i);
    ValuesInfo(j);
  }

  /** A lock is determined by what it says. */
  lemma LockTextUnique(s: string, t: string, i: LockInfo)
    requires IsLock(s, i) && IsLock(t, i)
    ensures s == t
  {
    hide LockOk, Values, KeyLine, Joined, PayloadFields, FIELDS, HEADER, PAYLOAD_SCHEMA, PAYLOAD, ValueOk;
    var a, b := Pieces(s, '\n'), Pieces(t, '\n');
    forall k | 0 <= k < 21 ensures a[k] == b[k] {
      if 1 <= k < 19 {
        FieldAt(a, 1, FIELDS, Values(i), k - 1);
        FieldAt(b, 1, FIELDS, Values(i), k - 1);
      }
    }
    assert a == b;
  }

  // ------------------------------------------------------------------------------------------
  // The commands
  // ------------------------------------------------------------------------------------------

  /** `command_lock` */
  method CommandLock(d: Documents, license: string, evidence: string) returns (lock: Option<string>)
    requires Parsed(d)
    ensures lock.Some? <==> LiteralOk(license, evidence) && Composed(d)
    ensures lock.Some? ==> lock.value == Rendered(d, license, evidence)
  {
    hide Parsed, LiteralOk, Rendered;
    if !LiteralOk(license, evidence) {
      return None;
    }
    if d.components.mode != d.runner.mode || d.components.epoch != d.runner.epoch
      || d.components.runnerProof != d.runnerSha || d.embed.efi != d.efiSha || d.embed.components != d.componentsSha {
      return None;
    }
    if d.self != d.runner.helperBinary {
      return None;
    }
    var text := Rendered(d, license, evidence);
    RenderedFine(d, license, evidence);
    if |text| >= |license| + 4096 {
      return None;
    }
    return Some(text);
  }

  /** The comparison of a lock with the other documents. */
  predicate Compared(d: Documents, i: LockInfo) {
    && d.components.mode == d.runner.mode && d.components.mode == i.mode
    && d.components.epoch == d.runner.epoch && d.components.epoch == i.epoch
    && d.components.runnerProof == d.runnerSha
    && i.efi == d.efiSha && i.components == d.componentsSha && i.runner == d.runnerSha && i.embed == d.embedSha
    && i.entries == d.components.entries && i.contract == d.components.contract
    && i.blob == d.embed.blob && i.cpio == d.embed.cpio && d.embed.blob == d.embed.cpio
    && i.embedded == d.embed.components && d.embed.components == d.componentsSha && d.embed.efi == d.efiSha
    && i.helper == d.self && i.helper == d.runner.helperBinary && i.snapshot == d.runner.snapshot
    && i.builderLock == d.runner.builderLock && i.builderRoot == d.runner.builderRoot
  }

  lemma ComparedIs(d: Documents, i: LockInfo)
    requires Parsed(d) && LockOk(i)
    ensures Compared(d, i) <==> Composed(d) && i == InfoFor(d, i.license, i.evidence)
    ensures Compared(d, i) && d.components.mode == "release" ==>
              d.components.complete == "yes" && d.runner.authenticated == "yes" && i.eligible == "yes"
    ensures Compared(d, i) && d.components.mode == "development" ==>
              d.components.complete == "no" && d.runner.authenticated == "no" && i.eligible == "no"
  {
    hide IsSha, IsDecimal, LiteralOk, EMPTY_SHA, Hashes;
  }

  /** The text is, byte for byte, what `command_lock` renders from these documents for this licence and evidence. */
  ghost predicate RenderedFrom(d: Documents, license: string, evidence: string, text: string) {
    && Composed(d) && LiteralOk(license, evidence) && |license| < LICENSE_LIMIT && Clean(license)
    && text == Rendered(d, license, evidence)
  }

  /** `validate_publication_documents` on a lock: it accepts exactly what `command_lock` renders from the same
      documents, for a printable licence below the limit. */
  method Verify(d: Documents, text: string) returns (ok: bool)
    requires Parsed(d)
    ensures ok <==> exists license, evidence :: RenderedFrom(d, license, evidence, text)
  {
    hide Parsed, Canonical, IsLock, RenderedFrom, LockOk, Composed;
    if !Canonical(text) {
      NotRendered(d, text);
      return false;
    }
    var lock := ParseLock(text);
    if lock.None? {
      NotRendered(d, text);
      return false;
    }
    var i := lock.value;
    IsLockOk(text, i);
    ComparedIs(d, i);
    if !Compared(d, i) {
      Different(d, text, i);
      return false;
    }
    if d.components.mode == "release"
      && (d.components.complete != "yes" || d.runner.authenticated != "yes" || i.eligible != "yes") {
      return false;
    }
    if d.components.mode == "development"
      && (d.components.complete != "no" || d.runner.authenticated != "no" || i.eligible != "no") {
      return false;
    }
    LockIsRendered(d, text, i);
    return true;
  }

  lemma IsLockOk(text: string, i: LockInfo)
    requires IsLock(text, i)
    ensures LockOk(i) && Canonical(text) && LiteralOk(i.license, i.evidence) && |i.license| < LICENSE_LIMIT
  {
    hide Document;
  }

  /** What is rendered is canonical and is the lock that says so. */
  lemma RenderedSays(d: Documents, license: string, evidence: string, text: string)
    requires Parsed(d) && RenderedFrom(d, license, evidence, text)
    ensures Canonical(text) && IsLock(text, InfoFor(d, license, evidence)) && Composed(d)
  {
    hide Canonical, IsLock, Rendered, Parsed, Composed, LiteralOk, Clean, InfoFor;
    RenderedCanonical(d, license, evidence);
    RenderedIsLock(d, license, evidence);
  }

  lemma NotRendered(d: Documents, text: string)
    requires Parsed(d) && (!Canonical(text) || forall i :: !IsLock(text, i))
    ensures forall license, evidence :: !RenderedFrom(d, license, evidence, text)
  {
    hide *;
    forall license, evidence ensures !RenderedFrom(d, license, evidence, text) {
      if RenderedFrom(d, license, evidence, text) {
        RenderedSays(d, license, evidence, text);
      }
    }
  }

  lemma Different(d: Documents, text: string, i: LockInfo)
    requires Parsed(d) && IsLock(text, i) && !(Composed(d) && i == InfoFor(d, i.license, i.evidence))
    ensures forall license, evidence :: !RenderedFrom(d, license, evidence, text)
  {
    hide IsLock, Parsed, RenderedFrom, Composed, LockOk;
    forall license, evidence ensures !RenderedFrom(d, license, evidence, text) {
      if RenderedFrom(d, license, evidence, text) {
        RenderedSays(d, license, evidence, text);
        LockUnique(text, i, InfoFor(d, license, evidence));
      }
    }
  }

  lemma LockIsRendered(d: Documents, text: string, i: LockInfo)
    requires Parsed(d) && IsLock(text, i) && Composed(d) && i == InfoFor(d, i.license, i.evidence)
    ensures RenderedFrom(d, i.license, i.evidence, text)
  {
    hide IsLock, Parsed, Composed, LockOk, Canonical, Rendered, LiteralOk, Clean, InfoFor;
    IsLockOk(text, i);
    LicenceFromText(d, text, i);
    RenderedCanonical(d, i.license, i.evidence);
    RenderedIsLock(d, i.license, i.evidence);
    LockTextUnique(text, Rendered(d, i.license, i.evidence), i);
  }

  /** A canonical text has a printable licence. */
  lemma LicenceFromText(d: Documents, text: string, i: LockInfo)
    requires Parsed(d) && IsLock(text, i) && Composed(d) && i == InfoFor(d, i.license, i.evidence)
    ensures Clean(i.license)
  {
    hide *;
    IsLockOk(text, i);
    CanonicalClean(text);
    CanonicalPieces(text);
    IsLockPayload(text, i);
    ShasOf(d);
  }

  lemma CanonicalClean(text: string)
    requires Canonical(text)
    ensures TextClean(text)
  {
  }

  lemma IsLockPayload(text: string, i: LockInfo)
    requires IsLock(text, i) && TextClean(text)
    ensures Clean(i.license)
  {
    hide LockOk, Values, PayloadFields, HEADER, PAYLOAD_SCHEMA, FIELDS, Joined, FieldsAt, TextClean, Clean, AllFree,
      LiteralOk;
    var lines := Pieces(text, '\n');
    TerminatedClean(lines, '\n');
    assert lines[20] in lines;
    var payload := Joined(PayloadFields(i), '|');
    assert lines[20] == "PAYLOAD" + "=" + payload;
    TextConcat("PAYLOAD" + "=", payload);
    IsLockOk(text, i);
    EfiIsSha(i);
    PayloadFieldsFine(i);
    JoinedFine(PayloadFields(i));
  }

  // ------------------------------------------------------------------------------------------
  // The laws
  // ------------------------------------------------------------------------------------------

  /** Two locks with the same text were rendered for the same licence and evidence from documents that agree in all that
      a lock mentions; so each such tuple has one accepted lock, and no lock stands for two. */
  lemma RenderedInjective(d: Documents, license: string, evidence: string, e: Documents, license': string,
                          evidence': string, text: string)
    requires Parsed(d) && Parsed(e)
    requires RenderedFrom(d, license, evidence, text) && RenderedFrom(e, license', evidence', text)
    ensures license == license' && evidence == evidence'
    ensures InfoFor(d, license, evidence) == InfoFor(e, license', evidence')
    ensures d.efiSha == e.efiSha && d.componentsSha == e.componentsSha && d.runnerSha == e.runnerSha
    ensures d.embedSha == e.embedSha
  {
    hide Parsed, RenderedFrom, IsLock, Canonical, Composed;
    RenderedSays(d, license, evidence, text);
    RenderedSays(e, license', evidence', text);
    LockUnique(text, InfoFor(d, license, evidence), InfoFor(e, license', evidence'));
  }

  /** `command_lock` accepts licences that verification then refuses; exactly those that are too long or not
      printable. */
  lemma RenderedVerifies(d: Documents, license: string, evidence: string)
    requires Parsed(d) && Composed(d) && LiteralOk(license, evidence)
    ensures var text := Rendered(d, license, evidence);
      (exists l, e :: RenderedFrom(d, l, e, text)) <==> |license| < LICENSE_LIMIT && Clean(license)
  {
    hide Parsed, Composed, LiteralOk, Rendered, Clean;
    var text := Rendered(d, license, evidence);
    if |license| < LICENSE_LIMIT && Clean(license) {
      assert RenderedFrom(d, license, evidence, text);
    }
    if l, e :| RenderedFrom(d, l, e, text) {
      SameLicense(d, license, evidence, l, e);
    }
  }

  /** One letter outside ASCII: the lock is rendered, and then refused. */
  lemma ForeignLetterRefused(d: Documents, evidence: string)
    requires Parsed(d) && Composed(d) && IsSha(evidence) && evidence != EMPTY_SHA
    ensures LiteralOk("\U{E9}", evidence)
    ensures !exists l, e :: RenderedFrom(d, l, e, Rendered(d, "\U{E9}", evidence))
  {
    assert "\U{E9}"[0] in "\U{E9}";
    hide Parsed, Composed, Rendered, RenderedFrom, IsSha, EMPTY_SHA;
    RenderedVerifies(d, "\U{E9}", evidence);
  }

  /** These licences are never rendered, and no lock for them, nor any lock for evidence of nothing, is verified. */
  lemma RefusedLiterals(d: Documents, license: string, evidence: string, text: string)
    requires license in {"", "-", "NOASSERTION", "NONE"} || '|' in license || '\n' in license || '\r' in license
             || '\t' in license || (license != "" && (license[0] <= ' ' || license[|license| - 1] <= ' '))
             || |evidence| != 64 || (exists c | c in evidence :: !('0' <= c <= '9' || 'a' <= c <= 'f'))
             || evidence == "e3b0c44298fc1c149afbf4c8996fb92427ae41e4649b934ca495991b7852b855"
    ensures !LiteralOk(license, evidence) && !RenderedFrom(d, license, evidence, text)
  {
    hide Composed, Rendered, Clean;
  }

  /** The licence and the evidence can be read off the text, however long. */
  lemma SameLicense(d: Documents, license: string, evidence: string, l: string, e: string)
    requires Parsed(d) && Composed(d) && LiteralOk(license, evidence) && LiteralOk(l, e)
    requires Rendered(d, license, evidence) == Rendered(d, l, e)
    ensures license == l && evidence == e
  {
    hide Parsed, Composed, LockLines, LiteralOk, PayloadText, Rendered, Pieces, LineFine;
    RenderedPieces(d, license, evidence);
    RenderedPieces(d, l, e);
    LinesAre(d, license, evidence);
    LinesAre(d, l, e);
    hide KeyLine, Values, FIELDS, HEADER, PAYLOAD_SCHEMA, AllFree;
    KeyLineInjective(PAYLOAD, PayloadText(d, license, evidence), PayloadText(d, l, e));
    hide InfoFor, Joined, PayloadFields;
    PayloadIsJoined(d, license, evidence);
    PayloadIsJoined(d, l, e);
    var i, j := InfoFor(d, license, evidence), InfoFor(d, l, e);
    ListFor(d, license, evidence);
    ListFor(d, l, e);
    JoinedUnique(PayloadFields(i), PayloadFields(j), '|');
  }

  lemma ListFor(d: Documents, license: string, evidence: string)
    requires Parsed(d) && Composed(d) && LiteralOk(license, evidence)
    ensures var f := PayloadFields(InfoFor(d, license, evidence));
      AllFree(f, '|') && f != [] && f[8] == license && f[9] == evidence
  {
    ShasOf(d);
    hide Parsed, Composed, LiteralOk, IsSha, Free;
    PayloadFieldList(InfoFor(d, license, evidence));
  }
}
