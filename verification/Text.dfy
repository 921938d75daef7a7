/** Text forms shared by the documents: decimal numbers, LF-terminated lines and KEY=value fields. */
module Text {
  import opened Options

  // ------------------------------------------------------------------------------------------
  // Decimal numbers
  // ------------------------------------------------------------------------------------------

  predicate IsDigit(c: char) { '0' <= c <= '9' }

  function Digit(n: nat): (c: char)
    requires n < 10
    ensures IsDigit(c) && c as int - '0' as int == n
  {
    '0' + n as char
  }

  function Decimal(n: nat): (s: string)
    ensures s != "" && forall c | c in s :: IsDigit(c)
  {
    if n < 10 then [Digit(n)] else Decimal(n / 10) + [Digit(n % 10)]
  }

  function Signed(n: int): (s: string)
    ensures s != "" && forall c | c in s :: IsDigit(c) || c == '-'
  {
    if n < 0 then "-" + Decimal(-n) else Decimal(n)
  }

  function ParseDigits(s: string): Option<nat> {
    if s == "" || !IsDigit(s[|s| - 1]) then None
    else if |s| == 1 then Some(s[0] as int - '0' as int)
    else match ParseDigits(s[..|s| - 1])
         case None => None
         case Some(n) => Some(n * 10 + s[|s| - 1] as int - '0' as int)
  }

  /** Rust's `str::parse` for an unsigned type with values below `bound`: an optional `+`, then digits. */
  function ParseUnsigned(s: string, bound: nat): Option<nat> {
    match ParseDigits(if s != "" && s[0] == '+' then s[1..] else s)
    case None => None
    case Some(n) => if n < bound then Some(n) else None
  }

  /** Rust's `str::parse` for a signed type of range [-bound, bound). */
  function ParseSigned(s: string, bound: nat): Option<int> {
    if s != "" && s[0] == '-' then
      match ParseDigits(s[1..])
      case None => None
      case Some(n) => var z: int := -(n as int); if n <= bound then Some(z) else None
    else match ParseUnsigned(s, bound)
         case None => None
         case Some(n) => Some(n as int)
  }

  lemma {:induction false} ParseDigitsInverts(n: nat)
    ensures ParseDigits(Decimal(n)) == Some(n)
  {
    if n >= 10 {
      ParseDigitsInverts(n / 10);
      assert Decimal(n)[..|Decimal(n)| - 1] == Decimal(n / 10);
    }
  }

  lemma NumbersInvert(n: nat, z: int, bound: nat)
    ensures n < bound ==> ParseUnsigned(Decimal(n), bound) == Some(n)
    ensures -(bound as int) <= z < bound ==> ParseSigned(Signed(z), bound) == Some(z)
  {
    ParseDigitsInverts(n);
    ParseDigitsInverts(if z < 0 then -z else z);
    assert Decimal(n)[0] in Decimal(n);
    if z < 0 {
      assert Signed(z)[1..] == Decimal(-z);
    } else {
      assert Decimal(z)[0] in Decimal(z);
    }
  }

  // ------------------------------------------------------------------------------------------
  // KEY=value documents
  // ------------------------------------------------------------------------------------------

  type Field = (string, string)

  function Line(f: Field): string { f.0 + "=" + f.1 + "\n" }

  function Render(fields: seq<Field>): string {
    if fields == [] then "" else Line(fields[0]) + Render(fields[1..])
  }

  function Find(s: string, c: char): (i: nat)
    ensures i <= |s| && (i < |s| ==> s[i] == c) && forall j | 0 <= j < i :: s[j] != c
  {
    if s == "" || s[0] == c then 0 else 1 + Find(s[1..], c)
  }

  function Chomp(line: string): string {
    if line != "" && line[|line| - 1] == '\r' then line[..|line| - 1] else line
  }

  /** Rust's `str::lines`. */
  function Lines(text: string): seq<string>
    decreases |text|
  {
    if text == "" then []
    else var i := Find(text, '\n');
         if i == |text| then [text] else [Chomp(text[..i])] + Lines(text[i + 1..])
  }

  /** `parse_fields`: every line is KEY=value, neither part empty, no key twice. */
  function ParseFields(lines: seq<string>): Option<map<string, string>> {
    if lines == [] then Some(map[])
    else match ParseFields(lines[..|lines| - 1])
         case None => None
         case Some(fields) =>
           var line := lines[|lines| - 1];
           var i := Find(line, '=');
           if i == |line| || i == 0 || i + 1 == |line| || line[..i] in fields then None
           else Some(fields[line[..i] := line[i + 1..]])
  }

  /** Keys and values that survive a KEY=value line. */
  predicate Plain(f: Field) {
    && f.0 != "" && '=' !in f.0 && '\n' !in f.0
    && f.1 != "" && '\n' !in f.1 && f.1[|f.1| - 1] != '\r'
  }

  ghost predicate DistinctKeys(fields: seq<Field>) {
    forall i, j :: 0 <= i < j < |fields| ==> fields[i].0 != fields[j].0
  }

  function ToMap(fields: seq<Field>): map<string, string> {
    if fields == [] then map[] else
      var last := fields[|fields| - 1];
      ToMap(fields[..|fields| - 1])[last.0 := last.1]
  }

  function LineTexts(fields: seq<Field>): seq<string> {
    seq(|fields|, i requires 0 <= i < |fields| => fields[i].0 + "=" + fields[i].1)
  }

  lemma FindAt(s: string, c: char, i: nat)
    requires i < |s| && s[i] == c && forall j | 0 <= j < i :: s[j] != c
    ensures Find(s, c) == i
  {
  }

  lemma LinesStep(f: Field, rest: string)
    requires Plain(f)
    ensures Lines(Line(f) + rest) == [f.0 + "=" + f.1] + Lines(rest)
  {
    var body := f.0 + "=" + f.1;
    var text := Line(f) + rest;
    assert text == body + "\n" + rest;
    FindAt(text, '\n', |body|);
    assert text[..|body|] == body && text[|body| + 1..] == rest;
    assert Chomp(body) == body;
  }

  lemma {:induction false} LinesOfRender(fields: seq<Field>)
    requires forall i | 0 <= i < |fields| :: Plain(fields[i])
    ensures Lines(Render(fields)) == LineTexts(fields)
  {
    if fields != [] {
      LinesStep(fields[0], Render(fields[1..]));
      hide Lines, Plain;
      LinesOfRender(fields[1..]);
      assert LineTexts(fields) == [fields[0].0 + "=" + fields[0].1] + LineTexts(fields[1..]);
    }
  }

  function KeysOf(fields: seq<Field>): set<string> { set i | 0 <= i < |fields| :: fields[i].0 }

  lemma KeysOfLast(fields: seq<Field>)
    requires fields != [] && DistinctKeys(fields)
    ensures var init := fields[..|fields| - 1];
      && KeysOf(fields) == KeysOf(init) + {fields[|fields| - 1].0} && fields[|fields| - 1].0 !in KeysOf(init)
      && DistinctKeys(init)
  {
    var n := |fields| - 1;
    var init := fields[..n];
    forall k ensures k in KeysOf(fields) <==> k in KeysOf(init) || k == fields[n].0 {
      if k in KeysOf(init) {
        var i :| 0 <= i < n && init[i].0 == k;
        assert fields[i].0 == k;
      }
      if k in KeysOf(fields) && k != fields[n].0 {
        var i :| 0 <= i < |fields| && fields[i].0 == k;
        assert init[i].0 == k;
      }
    }
  }

  lemma {:induction false} ToMapKeys(fields: seq<Field>)
    requires DistinctKeys(fields)
    ensures ToMap(fields).Keys == KeysOf(fields) && |ToMap(fields)| == |fields|
  {
    if fields != [] {
      KeysOfLast(fields);
      ToMapKeys(fields[..|fields| - 1]);
    }
  }

  lemma {:induction false} ToMapAt(fields: seq<Field>, i: nat)
    requires DistinctKeys(fields) && i < |fields|
    ensures fields[i].0 in ToMap(fields) && ToMap(fields)[fields[i].0] == fields[i].1
  {
    var n := |fields| - 1;
    if i < n {
      KeysOfLast(fields);
      ToMapAt(fields[..n], i);
    }
  }

  lemma ParseFieldsStep(lines: seq<string>, m: map<string, string>, f: Field)
    requires Plain(f) && ParseFields(lines) == Some(m) && f.0 !in m
    ensures ParseFields(lines + [f.0 + "=" + f.1]) == Some(m[f.0 := f.1])
  {
    LineSplits(f);
    assert (lines + [f.0 + "=" + f.1])[..|lines|] == lines;
  }

  lemma LineTextsLast(fields: seq<Field>)
    requires fields != []
    ensures var last := fields[|fields| - 1];
      LineTexts(fields) == LineTexts(fields[..|fields| - 1]) + [last.0 + "=" + last.1]
  {
  }

  lemma {:induction false} ParseFieldsOfLines(fields: seq<Field>)
    requires DistinctKeys(fields) && forall i | 0 <= i < |fields| :: Plain(fields[i])
    ensures ParseFields(LineTexts(fields)) == Some(ToMap(fields))
  {
    if fields != [] {
      var n := |fields| - 1;
      var init, last := fields[..n], fields[n];
      KeysOfLast(fields);
      hide ParseFields, Plain, KeysOf, DistinctKeys, LineTexts;
      ParseFieldsOfLines(init);
      ToMapKeys(init);
      ParseFieldsStep(LineTexts(init), ToMap(init), last);
      LineTextsLast(fields);
    }
  }

  lemma LineSplits(f: Field)
    requires Plain(f)
    ensures var line := f.0 + "=" + f.1;
      Find(line, '=') == |f.0| && line[..|f.0|] == f.0 && line[|f.0| + 1..] == f.1
  {
    FindAt(f.0 + "=" + f.1, '=', |f.0|);
  }

  /** A document rendered from plain fields with distinct keys parses back to exactly those fields. */
  lemma RenderParses(fields: seq<Field>)
    requires DistinctKeys(fields) && forall i | 0 <= i < |fields| :: Plain(fields[i])
    ensures ParseFields(Lines(Render(fields))) == Some(ToMap(fields))
  {
    LinesOfRender(fields);
    ParseFieldsOfLines(fields);
  }
}
