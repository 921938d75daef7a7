/** Which of the two EFI images of the ESP started this session: the firmware's answer, or the version strings. */
module EfiVersion {
  import opened Bytes
  import opened EfiOption
  import opened Options
  import Text

  type Image = seq<Byte>

  /** `UTS_RELEASE` and `UTS_VERSION`. */
  type Version = (string, string)

  datatype Running = Current | Previous | Unknown

  const CURRENT_LOADER: string := "\\EFI\\BOOT\\BOOTX64.EFI"
  const PREVIOUS_LOADER: string := "\\EFI\\distropica\\anterior.efi"

  // ------------------------------------------------------------------------------------------
  // Version strings
  // ------------------------------------------------------------------------------------------

  /** ASCII white space; other code points do not occur in version strings. */
  predicate IsSpace(c: char) { c == ' ' || ('\t' <= c <= '\r') }

  function TrimStart(s: string): string { if s != "" && IsSpace(s[0]) then TrimStart(s[1..]) else s }

  function TrimEnd(s: string): string
    decreases |s|
  {
    if s != "" && IsSpace(s[|s| - 1]) then TrimEnd(s[..|s| - 1]) else s
  }

  function Trim(s: string): string { TrimEnd(TrimStart(s)) }

  function FirstWord(s: string): string { if s != "" && !IsSpace(s[0]) then [s[0]] + FirstWord(s[1..]) else "" }

  const KERNEL_PREFIX: string := "Linux version "

  /** `release_e_versao`. */
  function ReleaseAndVersion(text: string): Option<Version> {
    var trimmed := Trim(text);
    var body := if KERNEL_PREFIX <= trimmed then trimmed[|KERNEL_PREFIX|..] else trimmed;
    var release := FirstWord(TrimStart(body));
    var i := Text.Find(body, '#');
    if release == "" || i == |body| then None else Some((release, Trim(body[i..])))
  }

  function Ascii(bytes: seq<Byte>): Option<string> {
    if exists b | b in bytes :: b >= 128 then None
    else Some(seq(|bytes|, i requires 0 <= i < |bytes| => bytes[i] as char))
  }

  function FindZero(bytes: seq<Byte>): (i: nat)
    ensures i <= |bytes| && (i < |bytes| ==> bytes[i] == 0) && forall j | 0 <= j < i :: bytes[j] != 0
  {
    if bytes == [] || bytes[0] == 0 then 0 else 1 + FindZero(bytes[1..])
  }

  const HDRS: seq<Byte> := [0x48, 0x64, 0x72, 0x53]

  /** `versao_do_bzimage`: the string that the setup header of a bzImage points to. */
  function HeaderText(efi: Image): Option<string> {
    if |efi| < 0x206 || efi[0x202..0x206] != HDRS || |efi| < 0x210 then None
    else
      var start := FromLittleEndian(efi[0x20E..0x210]) + 0x200;
      if start > |efi| then None
      else
        var rest := efi[start..];
        var end := FindZero(rest);
        if end == |rest| then None else Ascii(rest[..end])
  }

  function HeaderVersion(efi: Image): Option<Version> {
    match HeaderText(efi)
    case None => None
    case Some(text) => ReleaseAndVersion(text)
  }

  // ------------------------------------------------------------------------------------------
  // The two witnesses
  // ------------------------------------------------------------------------------------------

  function Lower(s: string): string {
    seq(|s|, i requires 0 <= i < |s| => if 'A' <= s[i] <= 'Z' then s[i] + ('a' - 'A') else s[i])
  }

  /** The firmware's answer, when it is about this partition and one of the two paths. */
  function ByBootCurrent(current: Option<BootOption>, guid: Option<seq<Byte>>): Option<Running> {
    if current.None? || guid.None? || current.value.guid != guid then None
    else if current.value.file.None? then Some(Current)
    else
      var file := Lower(current.value.file.value);
      if file == Lower(PREVIOUS_LOADER) then Some(Previous)
      else if file == Lower(CURRENT_LOADER) then Some(Current)
      else None
  }

  function VersionOf(image: Option<Image>): Option<Version> {
    if image.None? then None else HeaderVersion(image.value)
  }

  /** The kernel's own version against the two headers. */
  function ByVersion(running: Option<Version>, current: Option<Version>, previous: Option<Version>): Running {
    if running.Some? && current.Some? && previous.Some? && running == previous && running != current then Previous
    else if running.Some? && current.Some? && running == current then Current
    else Unknown
  }

  /** `qual_rodando`. */
  function WhichRuns(current: Option<BootOption>, guid: Option<seq<Byte>>, procVersion: Option<string>,
                     atual: Option<Image>, anterior: Option<Image>): Running
  {
    var firmware := ByBootCurrent(current, guid);
    if firmware.Some? then firmware.value
    else
      var running := if procVersion.None? then None else ReleaseAndVersion(procVersion.value);
      ByVersion(running, VersionOf(atual), VersionOf(anterior))
  }

  /** The same letters, whatever the case of those of ASCII. */
  predicate SameButCase(a: string, b: string) {
    |a| == |b| && forall i | 0 <= i < |a| ::
      a[i] == b[i] || ('A' <= a[i] <= 'Z' && b[i] as int == a[i] as int + 32)
      || ('A' <= b[i] <= 'Z' && a[i] as int == b[i] as int + 32)
  }

  lemma LowerIs(a: string, b: string)
    ensures Lower(a) == Lower(b) <==> SameButCase(a, b)
  {
    if Lower(a) == Lower(b) {
      forall i | 0 <= i < |a|
        ensures a[i] == b[i] || ('A' <= a[i] <= 'Z' && b[i] as int == a[i] as int + 32)
                || ('A' <= b[i] <= 'Z' && a[i] as int == b[i] as int + 32)
      {
        assert |Lower(a)| == |a| && |Lower(b)| == |b| && Lower(a)[i] == Lower(b)[i];
      }
    }
  }

  /** The firmware answers only for this partition: the reserve or the current image by its path, whatever the case,
      the current one when there is no path, and nothing for any other path. */
  lemma FirmwareAnswers(option: BootOption, guid: seq<Byte>)
    ensures var running := ByBootCurrent(Some(option), Some(guid));
      && (option.guid != Some(guid) ==> running.None?)
      && (option.guid == Some(guid) ==>
            && (running == Some(Previous) <==>
                  option.file.Some? && SameButCase(option.file.value, "\\EFI\\distropica\\anterior.efi"))
            && (running == Some(Current) <==>
                  option.file.None? || SameButCase(option.file.value, "\\EFI\\BOOT\\BOOTX64.EFI"))
            && running != Some(Unknown))
  {
    if option.file.Some? {
      LowerIs(option.file.value, PREVIOUS_LOADER);
      LowerIs(option.file.value, CURRENT_LOADER);
      assert |PREVIOUS_LOADER| != |CURRENT_LOADER|;
    }
    hide Lower, SameButCase;
    LowerLengths(PREVIOUS_LOADER, CURRENT_LOADER);
  }

  lemma LowerLengths(a: string, b: string)
    ensures |Lower(a)| == |a| && |Lower(b)| == |b|
  {
  }

  // ------------------------------------------------------------------------------------------
  // The version strings agree
  // ------------------------------------------------------------------------------------------

  predicate Word(s: string) { s != "" && forall c | c in s :: !IsSpace(c) && c != '#' }

  lemma {:induction false} FirstWordStops(word: string, rest: string)
    requires (forall c | c in word :: !IsSpace(c)) && (rest == "" || IsSpace(rest[0]))
    ensures FirstWord(word + rest) == word
  {
    if word == "" {
      assert word + rest == rest;
    } else {
      assert (word + rest)[1..] == word[1..] + rest;
      assert (word + rest)[0] == word[0] && word[0] in word;
      FirstWordStops(word[1..], rest);
    }
  }

  lemma {:induction false} TrimEndDrops(s: string, tail: string)
    requires forall c | c in tail :: IsSpace(c)
    ensures TrimEnd(s + tail) == TrimEnd(s)
    decreases |tail|
  {
    if tail == "" {
      assert s + tail == s;
    } else {
      var n := |tail| - 1;
      assert tail[n] in tail && (s + tail)[|s + tail| - 1] == tail[n];
      assert (s + tail)[..|s + tail| - 1] == s + tail[..n];
      TrimEndDrops(s, tail[..n]);
    }
  }

  /** The kernel's own form: release, what is in between, and the version from `#` on. */
  function VersionText(release: string, middle: string, version: string): string {
    release + (" (" + middle + ") " + version)
  }

  predicate IsVersion(release: string, middle: string, version: string) {
    && Word(release) && '#' !in middle && version != "" && version[0] == '#' && !IsSpace(version[|version| - 1])
  }

  /** A release has no space, and `(` follows it: the text cannot be taken for one with a prefix. */
  lemma NotThePrefix(release: string, rest: string)
    requires Word(release) && |rest| > 1 && rest[0] == ' ' && rest[1] == '('
    ensures !(KERNEL_PREFIX <= release + rest)
  {
    var t := release + rest;
    var k := if |release| == 5 then 6 else if |release| > 5 then 5 else |release|;
    assert |release| > 5 ==> release[5] in release;
    assert k < |t| && t[k] != KERNEL_PREFIX[k];
  }

  lemma BodyParses(release: string, middle: string, version: string)
    requires IsVersion(release, middle, version)
    ensures var body := VersionText(release, middle, version);
      var i := Text.Find(body, '#');
      FirstWord(TrimStart(body)) == release && i < |body| && Trim(body[i..]) == version
  {
    var before := release + (" (" + middle + ") ");
    var body := VersionText(release, middle, version);
    assert body == before + version;
    assert release[0] in release && TrimStart(body) == body;
    FirstWordStops(release, " (" + middle + ") " + version);
    assert '#' !in before by {
      forall c | c in before ensures c != '#' {
        assert c in release || c in " (" || c in middle || c in ") ";
      }
    }
    Text.FindAt(body, '#', |before|);
    assert body[|before|..] == version;
  }

  lemma TrimKeeps(prefix: string, release: string, middle: string, version: string, tail: string)
    requires IsVersion(release, middle, version) && prefix in {"", KERNEL_PREFIX} && forall c | c in tail :: IsSpace(c)
    ensures var body := VersionText(release, middle, version); Trim(prefix + body + tail) == prefix + body
  {
    var body := VersionText(release, middle, version);
    assert release[0] in release;
    assert TrimStart(prefix + body + tail) == prefix + body + tail;
    TrimEndDrops(prefix + body, tail);
    assert (prefix + body)[|prefix + body| - 1] == version[|version| - 1];
  }

  lemma PrefixStripped(prefix: string, body: string)
    requires prefix in {"", KERNEL_PREFIX} && !(KERNEL_PREFIX <= body)
    ensures var trimmed := prefix + body;
      (if KERNEL_PREFIX <= trimmed then trimmed[|KERNEL_PREFIX|..] else trimmed) == body
  {
    if prefix == "" {
      assert prefix + body == body;
    } else {
      assert (prefix + body)[|KERNEL_PREFIX|..] == body;
    }
  }

  /** Any text of the form parses to its release and version, with or without prefix, and with white space after it. */
  lemma FormParses(prefix: string, release: string, middle: string, version: string, tail: string)
    requires IsVersion(release, middle, version) && prefix in {"", KERNEL_PREFIX} && forall c | c in tail :: IsSpace(c)
    ensures ReleaseAndVersion(prefix + VersionText(release, middle, version) + tail) == Some((release, version))
  {
    var body := VersionText(release, middle, version);
    TrimKeeps(prefix, release, middle, version, tail);
    BodyParses(release, middle, version);
    NotThePrefix(release, " (" + middle + ") " + version);
    assert !(KERNEL_PREFIX <= body);
    WordsAreNotEmpty(release, middle, version);
    PrefixStripped(prefix, body);
    hide Trim, FirstWord, TrimStart, Text.Find, IsVersion, VersionText;
  }

  lemma WordsAreNotEmpty(release: string, middle: string, version: string)
    requires IsVersion(release, middle, version)
    ensures release != ""
  {
  }

  // ------------------------------------------------------------------------------------------
  // The text in an image
  // ------------------------------------------------------------------------------------------

  /** "HdrS" in its place, and an ASCII text with its NUL at 0x200 plus the two bytes of the pointer. */
  ghost predicate Carries(efi: Image, text: string) {
    && |efi| >= 0x210 && efi[0x202..0x206] == [0x48, 0x64, 0x72, 0x53]
    && var start: nat := 0x200 + (efi[0x20E] as int) + 256 * (efi[0x20F] as int);
       && start + |text| < |efi| && efi[start + |text|] == 0
       && forall i | 0 <= i < |text| :: 0 < text[i] as int < 128 && efi[start + i] == text[i] as int
  }

  /** The text read from an image is the one that its header points to, and nothing is read from any other file. */
  lemma HeaderTextIs(efi: Image, text: string)
    ensures HeaderText(efi) == Some(text) <==> Carries(efi, text)
  {
    if |efi| >= 0x210 && efi[0x202..0x206] == HDRS {
      TwoByteNumber(efi[0x20E..0x210]);
      var start: nat := 0x200 + (efi[0x20E] as int) + 256 * (efi[0x20F] as int);
      if start <= |efi| {
        TextAt(efi[start..], text);
      }
    }
  }

  lemma TwoByteNumber(s: seq<Byte>)
    requires |s| == 2
    ensures FromLittleEndian(s) == (s[0] as int) + 256 * (s[1] as int)
  {
    assert FromLittleEndian(s[1..]) == (s[1] as int) + 256 * FromLittleEndian(s[1..][1..]);
  }

  /** A text is read from these bytes exactly when it stands at their beginning with its NUL. */
  lemma TextAt(rest: seq<Byte>, text: string)
    ensures FindZero(rest) < |rest| && Ascii(rest[..FindZero(rest)]) == Some(text)
       <==> |text| < |rest| && rest[|text|] == 0
            && forall i | 0 <= i < |text| :: 0 < text[i] as int < 128 && rest[i] == text[i] as int
  {
    var end := FindZero(rest);
    if end < |rest| && Ascii(rest[..end]) == Some(text) {
      assert |text| == end;
      forall i | 0 <= i < |text| ensures 0 < text[i] as int < 128 && rest[i] == text[i] as int {
        assert rest[..end][i] in rest[..end];
      }
    }
    if |text| < |rest| && rest[|text|] == 0
       && forall i | 0 <= i < |text| :: 0 < text[i] as int < 128 && rest[i] == text[i] as int {
      assert end == |text|;
      assert forall b | b in rest[..end] :: b < 128;
      assert Ascii(rest[..end]).value == text;
    }
  }

  /** An image with the version text of a build, and the text of /proc/version of the same kernel, give the same pair:
      the release and version the kernel was built with, whatever compiler /proc/version names. */
  lemma WitnessesAgree(efi: Image, release: string, who: string, compiler: string, version: string)
    requires IsVersion(release, who, version) && '#' !in compiler && Carries(efi, VersionText(release, who, version))
    ensures HeaderVersion(efi) == Some((release, version))
    ensures ReleaseAndVersion(ProcText(release, who, compiler, version)) == Some((release, version))
  {
    hide ReleaseAndVersion, VersionText, Carries, HeaderText;
    FormParses("", release, who, version, "");
    var text := VersionText(release, who, version);
    assert "" + text + "" == text;
    HeaderTextIs(efi, text);
    KernelSays(Build(release, who, version), compiler);
  }

  /** What /proc/version says of a kernel of this release and version. */
  function ProcText(release: string, who: string, compiler: string, version: string): string {
    KERNEL_PREFIX + VersionText(release, who + ") (" + compiler, version) + "\n"
  }

  /** A build: release, who built it where, and the version from `#` on. */
  datatype Build = Build(release: string, who: string, version: string)

  predicate BuildOk(b: Build) { IsVersion(b.release, b.who, b.version) }

  predicate SameVersion(a: Build, b: Build) { a.release == b.release && a.version == b.version }

  /** When the firmware gives no answer, two images of builds with different versions are told apart by the text that
      the running kernel publishes. */
  lemma ImagesToldApart(atual: Image, anterior: Image, a: Build, b: Build, running: Build, compiler: string,
                        firmware: Option<BootOption>, guid: Option<seq<Byte>>)
    requires BuildOk(a) && BuildOk(b) && BuildOk(running) && '#' !in compiler
    requires Carries(atual, VersionText(a.release, a.who, a.version))
    requires Carries(anterior, VersionText(b.release, b.who, b.version))
    requires ByBootCurrent(firmware, guid).None?
    ensures var proc := ProcText(running.release, running.who, compiler, running.version);
      WhichRuns(firmware, guid, Some(proc), Some(atual), Some(anterior))
        == if SameVersion(running, a) then Current else if SameVersion(running, b) then Previous else Unknown
  {
    WitnessesAgree(atual, a.release, a.who, "", a.version);
    WitnessesAgree(anterior, b.release, b.who, "", b.version);
    KernelSays(running, compiler);
    hide ByBootCurrent, HeaderVersion, ReleaseAndVersion, Carries, VersionText, ProcText, IsVersion;
  }

  lemma KernelSays(running: Build, compiler: string)
    requires BuildOk(running) && '#' !in compiler
    ensures ReleaseAndVersion(ProcText(running.release, running.who, compiler, running.version))
         == Some((running.release, running.version))
  {
    FormParses(KERNEL_PREFIX, running.release, running.who + ") (" + compiler, running.version, "\n");
    hide ReleaseAndVersion;
  }
}
