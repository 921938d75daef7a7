/** The LIVE_LOCK document: what `command_lock` renders and what `parse_lock_text` and `validate_publication_documents`
    accept. */
module LiveLock {
  import opened Options
  import opened OrderedText

  const HEADER := "LIVE_LOCK_FORMAT=1"
  const PAYLOAD_SCHEMA :=
    "PAYLOAD_SCHEMA=id|variant|" + "materiality|role|" + "artifact_kind|origin_kind|" + "source_id|provenance|license|"
    + "license_evidence_sha256|" + "payload_sha256"
  const EMPTY_SHA := "e3b0c44298fc1c149afbf4c8996fb92427ae41e4649b934ca495991b7852b855"
  const LICENSE_LIMIT: nat := 4096

  /** The fields between the header and the schema, with the sizes of their buffers. */
  const FIELDS: seq<Field> := [
    Field("VARIANT", 32), Field("BUILD_MODE", 16), Field("RELEASE_ELIGIBLE", 4), Field("AUTHORITY_KIND", 32),
    Field("BOOT_EFI_SHA256", 65), Field("COMPONENTS_SHA256", 65), Field("RUNNER_PROOF_SHA256", 65),
    Field("EMBED_PROOF_SHA256", 65), Field("ENTRIES_SHA256", 65), Field("BUILD_CONTRACT_SHA256", 65),
    Field("SOURCE_DATE_EPOCH", 32), Field("INITRAMFS_BLOB_SHA256", 65), Field("INITRAMFS_CPIO_SHA256", 65),
    Field("EMBEDDED_COMPONENTS_SHA256", 65), Field("LIVE_LOCK_HELPER_BINARY_SHA256", 65),
    Field("SOURCE_SNAPSHOT_SHA256", 65), Field("BUILDER_LOCK_SHA256", 65), Field("BUILDER_ROOTFS_TREE_SHA256", 65)]

  const PAYLOAD := Field("PAYLOAD", 8192)

  datatype LockInfo = LockInfo(
    mode: string, eligible: string, efi: string, components: string, runner: string, embed: string, entries: string,
    contract: string, epoch: string, blob: string, cpio: string, embedded: string, helper: string, snapshot: string,
    builderLock: string, builderRoot: string, license: string, evidence: string, payloadSha: string)

  // ------------------------------------------------------------------------------------------
  // Values
  // ------------------------------------------------------------------------------------------

  /** `valid_sha256` */
  predicate IsSha(s: string) { |s| == 64 && forall c | c in s :: '0' <= c <= '9' || 'a' <= c <= 'f' }

  /** `decimal_string` */
  predicate IsDecimal(s: string) {
    s != "" && (s[0] == '0' ==> |s| == 1) && forall c | c in s :: '0' <= c <= '9'
  }

  /** `canonical_material_license` */
  predicate MaterialLicense(s: string) {
    && s != "" && s != "-" && s != "NOASSERTION" && s != "NONE" && s[0] > ' ' && s[|s| - 1] > ' '
    && forall c | c in s :: c != '|' && c != '\r' && c != '\n' && c != '\t'
  }

  /** `validate_license_literal` */
  predicate LiteralOk(license: string, evidence: string) {
    MaterialLicense(license) && IsSha(evidence) && evidence != EMPTY_SHA
  }

  predicate ModeOk(mode: string, eligible: string) {
    (mode == "release" && eligible == "yes") || (mode == "development" && eligible == "no")
  }

  // ------------------------------------------------------------------------------------------
  // The text of a lock
  // ------------------------------------------------------------------------------------------

  function Values(i: LockInfo): (values: seq<string>)
    ensures |values| == 18
  {
    ["live-efi", i.mode, i.eligible, "live-lock", i.efi, i.components, i.runner, i.embed, i.entries, i.contract,
     i.epoch, i.blob, i.cpio, i.embedded, i.helper, i.snapshot, i.builderLock, i.builderRoot]
  }

  function PayloadFields(i: LockInfo): (fields: seq<string>)
    ensures |fields| == 11
  {
    ["boot-efi", "live-efi", "material", "runtime", "payload", "built-from-source", "generated:linux-efi-stub",
     "embed-proof:" + i.embed, i.license, i.evidence, i.payloadSha]
  }

  function Hashes(i: LockInfo): seq<string> {
    [i.efi, i.components, i.runner, i.embed, i.entries, i.contract, i.blob, i.cpio, i.embedded, i.helper, i.snapshot,
     i.builderLock, i.builderRoot]
  }

  predicate LockOk(i: LockInfo) {
    && ModeOk(i.mode, i.eligible) && IsDecimal(i.epoch) && |i.epoch| < 32 && (forall h | h in Hashes(i) :: IsSha(h))
    && (i.mode == "release" ==> i.contract != EMPTY_SHA) && i.blob == i.cpio
    && LiteralOk(i.license, i.evidence) && |i.license| < LICENSE_LIMIT && i.payloadSha == i.efi
  }

  /** The lines of a document with these values and this payload. */
  ghost predicate Document(lines: seq<string>, values: seq<string>, payload: string) {
    && |lines| == 21 && |values| == |FIELDS| == 18 && lines[0] == HEADER && FieldsAt(lines, 1, FIELDS, values)
    && lines[19] == PAYLOAD_SCHEMA && lines[20] == KeyLine(PAYLOAD, payload) && ValueOk(PAYLOAD, payload)
  }

  /** The text is a lock with this content. */
  ghost predicate IsLock(text: string, i: LockInfo) {
    && Canonical(text) && LockOk(i) && Document(Pieces(text, '\n'), Values(i), Joined(PayloadFields(i), '|'))
  }

  // ------------------------------------------------------------------------------------------
  // `parse_lock_text`
  // ------------------------------------------------------------------------------------------

  lemma Constants()
    ensures 0 < |HEADER| < LINE_LIMIT && 0 < |PAYLOAD_SCHEMA| < LINE_LIMIT && |FIELDS| == 18
  {
  }

  lemma CanonicalPieces(text: string)
    requires Canonical(text)
    ensures var lines := Pieces(text, '\n'); AllFree(lines, '\n') && Lines(lines) == text
  {
  }

  /** The document from its first line to its last. */
  method ReadDocument(text: string, ghost lines: seq<string>) returns (values: seq<string>, payload: Option<string>)
    requires AllFree(lines, '\n') && text == Lines(lines)
    ensures payload.Some? ==> Document(lines, values, payload.value)
    ensures payload.None? ==> forall vs, p :: !Document(lines, vs, p)
  {
    hide LineAfter, OrderedValue, Terminated, AllFree, KeyLine, ValueOk, FieldsAt, HEADER, PAYLOAD_SCHEMA, FIELDS,
      PAYLOAD;
    Constants();
    values := [];
    assert lines[0..] == lines;
    LineAfterIs(lines, LINE_LIMIT);
    var header := LineAfter(text, LINE_LIMIT);
    if header.None? || header.value.0 != HEADER {
      return values, None;
    }
    var read, next := ReadFields(header.value.1, FIELDS, lines, 1);
    if read.None? {
      return values, None;
    }
    values := read.value;
    FieldsFit(lines, values);
    RestFree(lines, 19);
    LineAfterIs(lines[19..], LINE_LIMIT);
    var schema := LineAfter(next, LINE_LIMIT);
    if schema.None? {
      return values, None;
    }
    assert lines[19..][0] == lines[19] && lines[19..][1..] == lines[20..];
    RestFree(lines, 20);
    OrderedValueIs(lines[20..], PAYLOAD);
    var last := OrderedValue(schema.value.1, PAYLOAD.key, PAYLOAD.capacity);
    if last.None? {
      LastLine(lines, PAYLOAD);
      return values, None;
    }
    assert lines[20..][0] == lines[20] && lines[20..][1..] == lines[21..];
    NoMoreLines(lines, 21);
    if last.value.1 != "" || schema.value.0 != PAYLOAD_SCHEMA {
      return values, None;
    }
    return values, Some(last.value.0);
  }

  lemma FieldsFit(lines: seq<string>, values: seq<string>)
    requires FieldsAt(lines, 1, FIELDS, values) && |values| == |FIELDS|
    ensures |lines| >= 19 && |values| == 18
  {
  }

  lemma LastLine(lines: seq<string>, f: Field)
    requires |lines| >= 20
    ensures lines[20..] == [] || lines[20..][0] == lines[20]
  {
  }

  lemma NoMoreLines(lines: seq<string>, at: nat)
    requires at <= |lines|
    ensures Lines(lines[at..]) == "" <==> |lines| == at
  {
    if |lines| > at {
      TerminatedEnd(lines[at..], '\n');
    }
  }

  // ------------------------------------------------------------------------------------------
  // The content
  // ------------------------------------------------------------------------------------------

  lemma KeyLineInjective(f: Field, v: string, w: string)
    requires KeyLine(f, v) == KeyLine(f, w)
    ensures v == w
  {
    var n := |f.key| + 1;
    assert KeyLine(f, v)[n..] == v && KeyLine(f, w)[n..] == w;
  }

  /** A document has one reading. */
  lemma DocumentUnique(lines: seq<string>, vs: seq<string>, p: string, ws: seq<string>, q: string)
    requires Document(lines, vs, p) && Document(lines, ws, q)
    ensures vs == ws && p == q
  {
    hide KeyLine, FIELDS, HEADER, PAYLOAD_SCHEMA, PAYLOAD, ValueOk;
    KeyLineInjective(PAYLOAD, p, q);
    forall k | 0 <= k < 18 ensures vs[k] == ws[k] {
      FieldAt(lines, 1, FIELDS, vs, k);
      FieldAt(lines, 1, FIELDS, ws, k);
      KeyLineInjective(FIELDS[k], vs[k], ws[k]);
    }
  }

  function HashValues(values: seq<string>): seq<string>
    requires |values| == 18
  {
    values[4..10] + values[11..]
  }

  /** The checks on the values. */
  predicate ValuesCheck(v: seq<string>)
    requires |v| == 18
  {
    && v[0] == "live-efi" && v[3] == "live-lock" && ModeOk(v[1], v[2]) && IsDecimal(v[10])
    && (forall h | h in HashValues(v) :: IsSha(h)) && (v[1] == "release" ==> v[9] != EMPTY_SHA) && v[11] == v[12]
  }

  predicate PayloadFixed(f: seq<string>, embed: string)
    requires |f| == 11
  {
    && f[0] == "boot-efi" && f[1] == "live-efi" && f[2] == "material" && f[3] == "runtime" && f[4] == "payload"
    && f[5] == "built-from-source" && f[6] == "generated:linux-efi-stub" && f[7] == "embed-proof:" + embed
  }

  /** The checks on the fields of the payload. */
  predicate PayloadCheck(v: seq<string>, f: seq<string>)
    requires |v| == 18 && |f| == 11
  {
    && PayloadFixed(f, v[7]) && |f[8]| < LICENSE_LIMIT && |f[9]| == 64 && |f[10]| == 64 && LiteralOk(f[8], f[9])
    && IsSha(f[10]) && f[10] == v[4]
  }

  function InfoOf(v: seq<string>, f: seq<string>): LockInfo
    requires |v| == 18 && |f| == 11
  {
    LockInfo(v[1], v[2], v[4], v[5], v[6], v[7], v[8], v[9], v[10], v[11], v[12], v[13], v[14], v[15], v[16], v[17],
             f[8], f[9], f[10])
  }

  lemma InfoValues(v: seq<string>, f: seq<string>)
    requires |v| == 18 && |f| == 11
    ensures v[0] == "live-efi" && v[3] == "live-lock" ==> Values(InfoOf(v, f)) == v
    ensures PayloadFixed(f, v[7]) ==> PayloadFields(InfoOf(v, f)) == f
    ensures Hashes(InfoOf(v, f)) == HashValues(v)
  {
  }

  lemma ValuesInfo(i: LockInfo)
    ensures |Values(i)| == 18 && |PayloadFields(i)| == 11 && InfoOf(Values(i), PayloadFields(i)) == i
    ensures PayloadFixed(PayloadFields(i), Values(i)[7])
    ensures Values(i)[0] == "live-efi" && Values(i)[3] == "live-lock"
    ensures Hashes(i) == HashValues(Values(i))
  {
  }

  lemma ShaFree(s: string)
    requires IsSha(s)
    ensures Free(s, '|') && Free(s, '\n') && s != ""
  {
  }

  lemma EfiIsSha(i: LockInfo)
    requires LockOk(i)
    ensures IsSha(i.embed) && IsSha(i.payloadSha) && LiteralOk(i.license, i.evidence)
  {
    assert i.embed in Hashes(i) && i.efi in Hashes(i);
  }

  lemma LicenseParts(license: string, evidence: string)
    requires LiteralOk(license, evidence)
    ensures Free(license, '|') && license != "" && IsSha(evidence)
  {
  }

  lemma PayloadFieldList(i: LockInfo)
    requires IsSha(i.embed) && IsSha(i.payloadSha) && LiteralOk(i.license, i.evidence)
    ensures FieldList(PayloadFields(i), 11, '|')
  {
    LicenseParts(i.license, i.evidence);
    ShaFree(i.embed);
    ShaFree(i.evidence);
    ShaFree(i.payloadSha);
    FreeConcat("embed-proof:", i.embed, '|');
    hide IsSha, LiteralOk;
    var f := PayloadFields(i);
    assert forall k | 0 <= k < 7 :: Free(f[k], '|') && f[k] != "";
    assert forall k | 0 <= k < 11 :: Free(f[k], '|') && f[k] != "";
  }

  lemma FreeConcat(s: string, t: string, c: char)
    requires Free(s, c) && Free(t, c)
    ensures Free(s + t, c)
  {
  }

  method AllShas(hashes: seq<string>) returns (ok: bool)
    ensures ok <==> forall h | h in hashes :: IsSha(h)
  {
    for k := 0 to |hashes|
      invariant forall j | 0 <= j < k :: IsSha(hashes[j])
    {
      if !IsSha(hashes[k]) {
        return false;
      }
    }
    return true;
  }

  /** Whatever lock the text is, this is what the document says and these are its fields. */
  lemma LockParts(text: string, values: seq<string>, payload: string, i: LockInfo)
    requires Canonical(text) && Document(Pieces(text, '\n'), values, payload) && IsLock(text, i)
    ensures values == Values(i) && payload == Joined(PayloadFields(i), '|') && FieldList(PayloadFields(i), 11, '|')
    ensures LockOk(i)
  {
    hide Document, LockOk, Values, PayloadFields, Joined, LiteralOk, IsSha;
    EfiIsSha(i);
    PayloadFieldList(i);
    DocumentUnique(Pieces(text, '\n'), values, payload, Values(i), Joined(PayloadFields(i), '|'));
  }

  /** The checks on the values, and those on the payload, together say that the content is that of a lock. */
  lemma ChecksAreLockOk(v: seq<string>, f: seq<string>)
    requires |v| == 18 && |f| == 11 && |v[10]| < 32
    ensures ValuesCheck(v) && PayloadCheck(v, f) ==>
              LockOk(InfoOf(v, f)) && Values(InfoOf(v, f)) == v && PayloadFields(InfoOf(v, f)) == f
  {
    hide ModeOk, IsDecimal, IsSha, LiteralOk, EMPTY_SHA, Hashes, HashValues, PayloadFixed, Values, PayloadFields;
    InfoValues(v, f);
  }

  lemma LockOkIsChecked(i: LockInfo)
    requires LockOk(i)
    ensures ValuesCheck(Values(i)) && PayloadCheck(Values(i), PayloadFields(i))
  {
    hide ModeOk, IsDecimal, EMPTY_SHA, HashValues, PayloadFixed;
    assert i.efi in Hashes(i);
    ValuesInfo(i);
  }

  lemma EpochFits(lines: seq<string>, values: seq<string>, payload: string)
    requires Document(lines, values, payload)
    ensures |values| == 18 && |values[10]| < 32
  {
    hide KeyLine, HEADER, PAYLOAD_SCHEMA;
    assert FIELDS[10].capacity == 32;
    FieldAt(lines, 1, FIELDS, values, 10);
  }

  /** No reading of the payload passes. */
  lemma Rejected(text: string, values: seq<string>, payload: string)
    requires Canonical(text) && Document(Pieces(text, '\n'), values, payload) && |values| == 18
    requires ValuesCheck(values)
         ==> forall fs | FieldList(fs, 11, '|') && Joined(fs, '|') == payload :: !PayloadCheck(values, fs)
    ensures forall i :: !IsLock(text, i)
  {
    hide *;
    forall i ensures !IsLock(text, i) {
      Unlocked(text, values, payload, i);
    }
  }

  lemma Unlocked(text: string, values: seq<string>, payload: string, i: LockInfo)
    requires Canonical(text) && Document(Pieces(text, '\n'), values, payload) && |values| == 18
    requires ValuesCheck(values)
         ==> forall fs | FieldList(fs, 11, '|') && Joined(fs, '|') == payload :: !PayloadCheck(values, fs)
    ensures !IsLock(text, i)
  {
    hide Document, LockOk, Joined, Canonical, Pieces, ValuesCheck, PayloadCheck, Values, PayloadFields;
    if IsLock(text, i) {
      LockParts(text, values, payload, i);
      LockOkIsChecked(i);
    }
  }

  lemma Locked(text: string, values: seq<string>, payload: string, fields: seq<string>)
    requires Canonical(text) && Document(Pieces(text, '\n'), values, payload) && |values| == 18 && |values[10]| < 32
    requires FieldList(fields, 11, '|') && Joined(fields, '|') == payload
    requires ValuesCheck(values) && PayloadCheck(values, fields)
    ensures IsLock(text, InfoOf(values, fields))
  {
    ChecksAreLockOk(values, fields);
    hide Document, LockOk, Joined, Canonical, Pieces, ValuesCheck, PayloadCheck, Values, PayloadFields, InfoOf;
  }

  /** One list of fields has this payload. */
  lemma OnlyFields(payload: string, fields: seq<string>)
    requires FieldList(fields, 11, '|') && Joined(fields, '|') == payload
    ensures forall fs | FieldList(fs, 11, '|') && Joined(fs, '|') == payload :: fs == fields
  {
    hide Joined, AllFree;
    forall fs | FieldList(fs, 11, '|') && Joined(fs, '|') == payload ensures fs == fields {
      JoinedUnique(fs, fields, '|');
    }
  }

  /** Accepts exactly the texts of locks, and returns what the lock says. */
  method ParseLock(text: string) returns (info: Option<LockInfo>)
    requires Canonical(text)
    ensures info.Some? ==> IsLock(text, info.value)
    ensures info.None? ==> forall i :: !IsLock(text, i)
  {
    hide Document, LockOk, Joined, InfoOf, HashValues, IsSha, LiteralOk, ModeOk, IsDecimal, EMPTY_SHA, AllFree,
      Terminated, IsLock;
    CanonicalPieces(text);
    ghost var lines := Pieces(text, '\n');
    var values, payload := ReadDocument(text, lines);
    if payload.None? {
      NotALock(text);
      return None;
    }
    EpochFits(lines, values, payload.value);
    if values[0] != "live-efi" || values[3] != "live-lock" || !ModeOk(values[1], values[2]) || !IsDecimal(values[10]) {
      Rejected(text, values, payload.value);
      return None;
    }
    var ok := AllShas(HashValues(values));
    if !ok || (values[1] == "release" && values[9] == EMPTY_SHA) || values[11] != values[12] {
      Rejected(text, values, payload.value);
      return None;
    }
    var fields := SplitFields(payload.value, 11, '|');
    if fields.None? {
      Rejected(text, values, payload.value);
      return None;
    }
    var f := fields.value;
    OnlyFields(payload.value, f);
    if !PayloadFixed(f, values[7]) || |f[8]| >= LICENSE_LIMIT || |f[9]| != 64 || |f[10]| != 64
      || !LiteralOk(f[8], f[9]) {
      Rejected(text, values, payload.value);
      return None;
    }
    if !IsSha(f[10]) || f[10] != values[4] {
      Rejected(text, values, payload.value);
      return None;
    }
    Locked(text, values, payload.value, f);
    return Some(InfoOf(values, f));
  }

  lemma NotALock(text: string)
    requires Canonical(text) && forall vs, p :: !Document(Pieces(text, '\n'), vs, p)
    ensures forall i :: !IsLock(text, i)
  {
    hide Document, LockOk, Values, PayloadFields, Joined, Canonical, Pieces;
  }

  // ------------------------------------------------------------------------------------------
  // `command_lock`
  // ------------------------------------------------------------------------------------------

  datatype Components = Components(mode: string, complete: string, epoch: string, runnerProof: string, entries: string,
                                   contract: string)
  datatype Runner = Runner(mode: string, authenticated: string, epoch: string, helperBinary: string, snapshot: string,
                           builderLock: string, builderRoot: string)
  datatype Embed = Embed(efi: string, blob: string, cpio: string, components: string)

  /** The other documents as they were read, the hashes of the files and that of the running helper. */
  datatype Documents = Documents(components: Components, runner: Runner, embed: Embed, efiSha: string,
                                 componentsSha: string, runnerSha: string, embedSha: string, self: string)

  /** What the parsers of the other documents let through, and what hashing yields. */
  predicate Parsed(d: Documents) {
    && ModeOk(d.components.mode, d.components.complete) && ModeOk(d.runner.mode, d.runner.authenticated)
    && IsDecimal(d.components.epoch) && |d.components.epoch| < 32
    && (d.components.mode == "release" ==> d.components.contract != EMPTY_SHA)
    && d.embed.blob == d.embed.cpio
    && forall h | h in [d.components.entries, d.components.contract, d.runner.helperBinary, d.runner.snapshot,
                        d.runner.builderLock, d.runner.builderRoot, d.embed.blob, d.efiSha, d.componentsSha,
                        d.runnerSha, d.embedSha, d.self] :: IsSha(h)
  }

  /** The documents belong together. */
  predicate Composed(d: Documents) {
    && d.components.mode == d.runner.mode && d.components.epoch == d.runner.epoch
    && d.components.runnerProof == d.runnerSha && d.embed.efi == d.efiSha && d.embed.components == d.componentsSha
    && d.self == d.runner.helperBinary
  }

  function Eligible(mode: string): string { if mode == "release" then "yes" else "no" }

  /** The lines of the format of `command_lock`. */
  function LockLines(d: Documents, license: string, evidence: string): seq<string> {
    ["LIVE_LOCK_FORMAT=1",
     KeyValue("VARIANT", "live-efi"),
     KeyValue("BUILD_MODE", d.components.mode),
     KeyValue("RELEASE_ELIGIBLE", Eligible(d.components.mode)),
     KeyValue("AUTHORITY_KIND", "live-lock"),
     KeyValue("BOOT_EFI_SHA256", d.efiSha),
     KeyValue("COMPONENTS_SHA256", d.componentsSha),
     KeyValue("RUNNER_PROOF_SHA256", d.runnerSha),
     KeyValue("EMBED_PROOF_SHA256", d.embedSha),
     KeyValue("ENTRIES_SHA256", d.components.entries),
     KeyValue("BUILD_CONTRACT_SHA256", d.components.contract),
     KeyValue("SOURCE_DATE_EPOCH", d.components.epoch),
     KeyValue("INITRAMFS_BLOB_SHA256", d.embed.blob),
     KeyValue("INITRAMFS_CPIO_SHA256", d.embed.cpio),
     KeyValue("EMBEDDED_COMPONENTS_SHA256", d.embed.components),
     KeyValue("LIVE_LOCK_HELPER_BINARY_SHA256", d.self),
     KeyValue("SOURCE_SNAPSHOT_SHA256", d.runner.snapshot),
     KeyValue("BUILDER_LOCK_SHA256", d.runner.builderLock),
     KeyValue("BUILDER_ROOTFS_TREE_SHA256", d.runner.builderRoot),
     PAYLOAD_SCHEMA,
     KeyValue("PAYLOAD", PayloadText(d, license, evidence))]
  }

  function PayloadText(d: Documents, license: string, evidence: string): string {
    "boot-efi" + "|" + "live-efi" + "|" + "material" + "|" + "runtime" + "|" + "payload" + "|"
    + "built-from-source" + "|" + "generated:linux-efi-stub" + "|" + ("embed-proof:" + d.embedSha) + "|"
    + license + "|" + evidence + "|" + d.efiSha
  }

  function Rendered(d: Documents, license: string, evidence: string): string { Lines(LockLines(d, license, evidence)) }

  /** What such a lock says. */
  function InfoFor(d: Documents, license: string, evidence: string): LockInfo {
    LockInfo(d.components.mode, Eligible(d.components.mode), d.efiSha, d.componentsSha, d.runnerSha, d.embedSha,
             d.components.entries, d.components.contract, d.components.epoch, d.embed.blob, d.embed.cpio,
             d.embed.components, d.self, d.runner.snapshot, d.runner.builderLock, d.runner.builderRoot, license,
             evidence, d.efiSha)
  }

  lemma InfoForOk(d: Documents, license: string, evidence: string)
    requires Parsed(d) && Composed(d) && LiteralOk(license, evidence)
    ensures LockOk(InfoFor(d, license, evidence)) <==> |license| < LICENSE_LIMIT
  {
    hide IsSha, IsDecimal, MaterialLicense, EMPTY_SHA, LiteralOk;
    assert forall h | h in Hashes(InfoFor(d, license, evidence)) :: IsSha(h);
  }

  lemma PayloadIsJoined(d: Documents, license: string, evidence: string)
    ensures PayloadText(d, license, evidence) == Joined(PayloadFields(InfoFor(d, license, evidence)), '|')
  {
    JoinedEleven("boot-efi", "live-efi", "material", "runtime", "payload", "built-from-source",
                 "generated:linux-efi-stub", "embed-proof:" + d.embedSha, license, evidence, d.efiSha);
  }

  lemma JoinedEleven(a: string, b: string, c: string, d: string, e: string, f: string, g: string, h: string, i: string,
                     j: string, k: string)
    ensures Joined([a, b, c, d, e, f, g, h, i, j, k], '|')
         == a + "|" + b + "|" + c + "|" + d + "|" + e + "|" + f + "|" + g + "|" + h + "|" + i + "|" + j + "|" + k
  {
    var s := [a, b, c, d, e, f, g, h, i, j, k];
    JoinedOne(s);
    hide Joined;
    JoinedMore(s, 1);
    JoinedMore(s, 2);
    JoinedMore(s, 3);
    JoinedMore(s, 4);
    JoinedMore(s, 5);
    JoinedMore(s, 6);
    JoinedMore(s, 7);
    JoinedMore(s, 8);
    JoinedMore(s, 9);
    JoinedMore(s, 10);
    assert s[..11] == s;
  }

  lemma JoinedMore(s: seq<string>, k: nat)
    requires 0 < k < |s|
    ensures Joined(s[..k + 1], '|') == Joined(s[..k], '|') + "|" + s[k]
  {
    assert s[..k + 1][..k] == s[..k];
    JoinedTerminated(s[..k], '|');
  }

  lemma JoinedOne(s: seq<string>)
    requires s != []
    ensures Joined(s[..1], '|') == s[0]
  {
    assert s[..1][..0] == [];
  }

  // ------------------------------------------------------------------------------------------
  // What is rendered is a lock
  // ------------------------------------------------------------------------------------------

  predicate Clean(s: string) { forall c | c in s :: Printable(c) }

  predicate KeyFine(key: string) { Clean(key) && |key| <= 32 }

  lemma IdentityKeysFine()
    ensures KeyFine("VARIANT") && KeyFine("BUILD_MODE") && KeyFine("RELEASE_ELIGIBLE") && KeyFine("AUTHORITY_KIND")
    ensures KeyFine("SOURCE_DATE_EPOCH") && KeyFine("PAYLOAD") && KeyFine("ENTRIES_SHA256")
  {
  }

  lemma DocumentKeysFine()
    ensures KeyFine("BOOT_EFI_SHA256") && KeyFine("COMPONENTS_SHA256") && KeyFine("RUNNER_PROOF_SHA256")
    ensures KeyFine("EMBED_PROOF_SHA256") && KeyFine("BUILD_CONTRACT_SHA256")
  {
  }

  lemma ImageKeysFine()
    ensures KeyFine("INITRAMFS_BLOB_SHA256") && KeyFine("INITRAMFS_CPIO_SHA256")
    ensures KeyFine("EMBEDDED_COMPONENTS_SHA256")
  {
  }

  lemma BuilderKeysFine()
    ensures KeyFine("SOURCE_SNAPSHOT_SHA256") && KeyFine("BUILDER_LOCK_SHA256") && KeyFine("BUILDER_ROOTFS_TREE_SHA256")
  {
  }

  lemma HelperKeyFine()
    ensures KeyFine("LIVE_LOCK_HELPER_BINARY_SHA256")
  {
  }

  lemma KeysFine()
    ensures forall k | 0 <= k < 18 :: KeyFine(FIELDS[k].key)
    ensures KeyFine(PAYLOAD.key)
  {
    hide KeyFine;
    IdentityKeysFine();
    DocumentKeysFine();
    ImageKeysFine();
    BuilderKeysFine();
    HelperKeyFine();
  }

  lemma CleanConcat(s: string, t: string)
    ensures Clean(s + t) <==> Clean(s) && Clean(t)
  {
    assert forall c :: c in s + t <==> c in s || c in t;
  }

  lemma SchemaClean()
    ensures Clean(PAYLOAD_SCHEMA) && |PAYLOAD_SCHEMA| < 160
  {
    SchemaParts();
    SchemaRest();
    hide Clean;
    CleanConcat("PAYLOAD_SCHEMA=id|variant|", "materiality|role|");
    CleanConcat("PAYLOAD_SCHEMA=id|variant|" + "materiality|role|", "artifact_kind|origin_kind|");
    CleanConcat("PAYLOAD_SCHEMA=id|variant|" + "materiality|role|" + "artifact_kind|origin_kind|",
                "source_id|provenance|license|");
    CleanConcat("PAYLOAD_SCHEMA=id|variant|" + "materiality|role|" + "artifact_kind|origin_kind|"
                + "source_id|provenance|license|", "license_evidence_sha256|");
    CleanConcat("PAYLOAD_SCHEMA=id|variant|" + "materiality|role|" + "artifact_kind|origin_kind|"
                + "source_id|provenance|license|" + "license_evidence_sha256|", "payload_sha256");
  }

  lemma SchemaParts()
    ensures Clean("PAYLOAD_SCHEMA=id|variant|") && Clean("materiality|role|") && Clean("artifact_kind|origin_kind|")
  {
  }

  lemma SchemaRest()
    ensures Clean("source_id|provenance|license|") && Clean("license_evidence_sha256|") && Clean("payload_sha256")
  {
  }

  lemma ShaClean(s: string)
    requires IsSha(s)
    ensures Clean(s) && |s| == 64
  {
  }

  lemma EpochClean(s: string)
    requires IsDecimal(s)
    ensures Clean(s) && s != ""
  {
  }

  lemma ModeClean(mode: string, eligible: string)
    requires ModeOk(mode, eligible)
    ensures Clean(mode) && Clean(eligible) && 0 < |mode| < 16 && 0 < |eligible| < 4
  {
  }

  lemma FixedClean()
    ensures Clean("live-efi") && Clean("live-lock") && Clean(HEADER)
  {
  }

  predicate ValueFine(f: Field, v: string) { Clean(v) && 0 < |v| < f.capacity <= 65 }

  lemma HashFine(i: LockInfo, k: nat)
    requires LockOk(i) && 4 <= k < 18 && k != 10
    ensures ValueFine(FIELDS[k], Values(i)[k])
  {
    Capacities();
    hide FIELDS;
    assert Values(i)[k] in Hashes(i) by { HashesAt(i); }
    hide Values, Hashes;
    ShaClean(Values(i)[k]);
  }

  lemma NamedFine(i: LockInfo, k: nat)
    requires LockOk(i) && (0 <= k < 4 || k == 10)
    ensures ValueFine(FIELDS[k], Values(i)[k])
  {
    FixedClean();
    ModeClean(i.mode, i.eligible);
    EpochClean(i.epoch);
    Capacities();
    hide FIELDS, Clean, LiteralOk, IsSha, ModeOk, Hashes;
  }

  /** The values are printable and fit their buffers. */
  lemma ValuesFine(i: LockInfo)
    requires LockOk(i)
    ensures forall k | 0 <= k < 18 :: ValueFine(FIELDS[k], Values(i)[k])
  {
    hide LockOk, ValueFine, Values, FIELDS;
    Constants();
    forall k | 0 <= k < 18 ensures ValueFine(FIELDS[k], Values(i)[k]) {
      if k < 4 || k == 10 {
        NamedFine(i, k);
      } else {
        HashFine(i, k);
      }
    }
  }

  lemma Capacities()
    ensures |FIELDS| == 18
    ensures FIELDS[0].capacity == FIELDS[3].capacity == FIELDS[10].capacity == 32
    ensures FIELDS[1].capacity == 16 && FIELDS[2].capacity == 4
    ensures forall k | 4 <= k < 18 && k != 10 :: FIELDS[k].capacity == 65
  {
  }

  lemma HashesAt(i: LockInfo)
    ensures forall k | 4 <= k < 18 && k != 10 :: Values(i)[k] in Hashes(i)
  {
  }
}
