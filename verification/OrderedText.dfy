/** Texts of LF-terminated lines with `KEY=value` in a fixed order, and lists of fields with separators between them. */
module OrderedText {
  import opened Options

  const LINE_LIMIT: nat := 8192
  const SMALL_FILE_LIMIT: nat := 1048576

  // ------------------------------------------------------------------------------------------
  // Terminated pieces
  // ------------------------------------------------------------------------------------------

  /** Each piece with `c` after it. */
  function Terminated(pieces: seq<string>, c: char): string {
    if pieces == [] then "" else pieces[0] + [c] + Terminated(pieces[1..], c)
  }

  predicate Free(s: string, c: char) { c !in s }

  predicate AllFree(pieces: seq<string>, c: char) { forall s | s in pieces :: Free(s, c) }

  /** `strchr`: where `c` first occurs. */
  function Find(s: string, c: char): (k: Option<nat>)
    ensures k.Some? ==> k.value < |s| && s[k.value] == c && Free(s[..k.value], c)
    ensures k.None? ==> Free(s, c)
  {
    if s == "" then None
    else if s[0] == c then Some(0)
    else match Find(s[1..], c)
      case None => None
      case Some(k) =>
        assert s[..k + 1] == [s[0]] + s[1..][..k];
        Some(k + 1)
  }

  lemma FindIs(s: string, c: char, head: string, tail: string)
    requires s == head + [c] + tail && Free(head, c)
    ensures Find(s, c) == Some(|head|) && s[..|head|] == head && s[|head| + 1..] == tail
  {
    var k := Find(s, c);
    assert s[|head|] == c;
    assert c in s;
    assert forall i | 0 <= i < |head| :: s[i] == head[i] && head[i] in head;
    assert forall i | 0 <= i < k.value :: s[i] == s[..k.value][i] && s[..k.value][i] in s[..k.value];
  }

  /** A text without a terminator at its end is not made of pieces; one with it is, in one way only. */
  function Pieces(s: string, c: char): (pieces: seq<string>)
    requires s == "" || s[|s| - 1] == c
    ensures Terminated(pieces, c) == s && AllFree(pieces, c)
    decreases |s|
  {
    if s == "" then []
    else
      var k := Find(s, c).value;
      assert s == s[..k] + [c] + s[k + 1..];
      [s[..k]] + Pieces(s[k + 1..], c)
  }

  lemma {:induction false} PiecesUnique(a: seq<string>, b: seq<string>, c: char)
    requires AllFree(a, c) && AllFree(b, c) && Terminated(a, c) == Terminated(b, c)
    ensures a == b
  {
    if a != [] && b != [] {
      FindIs(Terminated(a, c), c, a[0], Terminated(a[1..], c));
      FindIs(Terminated(b, c), c, b[0], Terminated(b[1..], c));
      assert AllFree(a[1..], c) by {
        assert forall s | s in a[1..] :: s in a;
      }
      assert AllFree(b[1..], c) by {
        assert forall s | s in b[1..] :: s in b;
      }
      PiecesUnique(a[1..], b[1..], c);
      assert a == [a[0]] + a[1..] && b == [b[0]] + b[1..];
    }
  }

  lemma {:induction false} TerminatedLength(pieces: seq<string>, c: char, most: nat)
    requires forall s | s in pieces :: |s| < most
    ensures |Terminated(pieces, c)| <= |pieces| * most
  {
    if pieces != [] {
      assert forall s | s in pieces[1..] :: s in pieces;
      var rest := pieces[1..];
      TerminatedLength(rest, c, most);
      assert |pieces[0]| < most && |Terminated(pieces, c)| == |pieces[0]| + 1 + |Terminated(rest, c)|;
      OneMore(|rest|, most);
    }
  }

  lemma OneMore(n: nat, most: nat)
    ensures (n + 1) * most == n * most + most
  {
  }

  lemma {:induction false} TerminatedSplit(a: seq<string>, b: seq<string>, c: char)
    ensures Terminated(a + b, c) == Terminated(a, c) + Terminated(b, c)
  {
    if a == [] {
      assert a + b == b;
    } else {
      assert (a + b)[1..] == a[1..] + b;
      TerminatedSplit(a[1..], b, c);
    }
  }

  lemma {:induction false} TerminatedEnd(pieces: seq<string>, c: char)
    requires pieces != []
    ensures var t := Terminated(pieces, c); t != "" && t[|t| - 1] == c
  {
    if |pieces| > 1 {
      TerminatedEnd(pieces[1..], c);
    }
  }

  // ------------------------------------------------------------------------------------------
  // Lines
  // ------------------------------------------------------------------------------------------

  function Lines(lines: seq<string>): string { Terminated(lines, '\n') }

  predicate Printable(c: char) { ' ' <= c <= '~' }

  /** What `read_small_fd_stable` lets through. */
  predicate Canonical(text: string) {
    && 0 < |text| <= SMALL_FILE_LIMIT && text[|text| - 1] == '\n'
    && forall c | c in text :: c == '\n' || Printable(c)
  }

  /** `line_after`: the next line, if it is neither empty nor too long, and what follows it. */
  function LineAfter(p: string, capacity: nat): Option<(string, string)> {
    match Find(p, '\n')
    case None => None
    case Some(k) => if 0 < k < capacity then Some((p[..k], p[k + 1..])) else None
  }

  /** `ordered_value`: the value of the next line, which must have this key. */
  function OrderedValue(p: string, key: string, capacity: nat): Option<(string, string)> {
    match LineAfter(p, LINE_LIMIT)
    case None => None
    case Some((line, next)) =>
      if key + "=" <= line && 0 < |line| - |key| - 1 < capacity then Some((line[|key| + 1..], next)) else None
  }

  datatype Field = Field(key: string, capacity: nat)

  function KeyValue(key: string, value: string): string { key + "=" + value }

  function KeyLine(f: Field, value: string): string { KeyValue(f.key, value) }

  predicate ValueOk(f: Field, value: string) {
    0 < |value| < f.capacity && |f.key| + 1 + |value| < LINE_LIMIT && Free(value, '\n')
  }

  lemma LineAfterIs(lines: seq<string>, capacity: nat)
    requires AllFree(lines, '\n')
    ensures LineAfter(Lines(lines), capacity)
         == if lines != [] && 0 < |lines[0]| < capacity then Some((lines[0], Lines(lines[1..]))) else None
  {
    if lines != [] {
      FindIs(Lines(lines), '\n', lines[0], Lines(lines[1..]));
    }
  }

  /** The value is read exactly if the next line has it. */
  lemma OrderedValueIs(lines: seq<string>, f: Field)
    requires AllFree(lines, '\n')
    ensures var r := OrderedValue(Lines(lines), f.key, f.capacity);
      if r.Some? then
        lines != [] && lines[0] == KeyLine(f, r.value.0) && ValueOk(f, r.value.0) && r.value.1 == Lines(lines[1..])
      else lines == [] || forall v | ValueOk(f, v) :: lines[0] != KeyLine(f, v)
  {
    LineAfterIs(lines, LINE_LIMIT);
    if lines != [] {
      forall v | ValueOk(f, v) && lines[0] == KeyLine(f, v) ensures f.key + "=" <= lines[0] {
        assert lines[0][..|f.key| + 1] == f.key + "=";
      }
      var line := lines[0];
      if f.key + "=" <= line {
        assert line == f.key + "=" + line[|f.key| + 1..];
        assert Free(line, '\n');
      }
    }
  }

  ghost predicate FieldsAt(lines: seq<string>, at: nat, fields: seq<Field>, values: seq<string>) {
    && |values| <= |fields| && at + |values| <= |lines|
    && forall k | 0 <= k < |values| :: ValueOk(fields[k], values[k]) && lines[at + k] == KeyLine(fields[k], values[k])
  }

  /** A run of fields in their order: `p` advances over them all, or some line is not what it must be. */
  method ReadFields(p: string, fields: seq<Field>, ghost lines: seq<string>, ghost at: nat)
    returns (values: Option<seq<string>>, next: string)
    requires AllFree(lines, '\n') && at <= |lines| && p == Lines(lines[at..])
    ensures values.Some? ==> |values.value| == |fields| && FieldsAt(lines, at, fields, values.value)
    ensures values.Some? ==> next == Lines(lines[at + |fields|..])
    ensures values.None? ==> forall vs | |vs| == |fields| :: !FieldsAt(lines, at, fields, vs)
  {
    hide OrderedValue, Terminated, ValueOk, KeyLine, KeyValue;
    var read: seq<string> := [];
    next := p;
    while |read| < |fields|
      invariant |read| <= |fields| && FieldsAt(lines, at, fields, read) && next == Lines(lines[at + |read|..])
      decreases |fields| - |read|
    {
      var f := fields[|read|];
      ghost var rest := lines[at + |read|..];
      RestFree(lines, at + |read|);
      OrderedValueIs(rest, f);
      var r := OrderedValue(next, f.key, f.capacity);
      if r.None? {
        assert rest == [] || rest[0] == lines[at + |read|];
        FieldMissing(lines, at, fields, |read|);
        return None, next;
      }
      assert rest[1..] == lines[at + |read| + 1..];
      read := read + [r.value.0];
      next := r.value.1;
    }
    return Some(read), next;
  }

  lemma FieldMissing(lines: seq<string>, at: nat, fields: seq<Field>, k: nat)
    requires k < |fields|
    requires at + k < |lines| ==> forall v | ValueOk(fields[k], v) :: lines[at + k] != KeyLine(fields[k], v)
    ensures forall vs | |vs| == |fields| :: !FieldsAt(lines, at, fields, vs)
  {
    hide ValueOk, KeyLine;
    forall vs | |vs| == |fields| ensures !FieldsAt(lines, at, fields, vs) {
      FieldAt(lines, at, fields, vs, k);
    }
  }

  lemma FieldAt(lines: seq<string>, at: nat, fields: seq<Field>, vs: seq<string>, k: nat)
    requires |vs| == |fields| && k < |fields|
    ensures FieldsAt(lines, at, fields, vs)
        ==> at + k < |lines| && ValueOk(fields[k], vs[k]) && lines[at + k] == KeyLine(fields[k], vs[k])
  {
  }

  lemma RestFree(lines: seq<string>, at: nat)
    requires AllFree(lines, '\n') && at <= |lines|
    ensures AllFree(lines[at..], '\n')
  {
    assert forall s | s in lines[at..] :: s in lines;
  }

  // ------------------------------------------------------------------------------------------
  // Fields with separators between them
  // ------------------------------------------------------------------------------------------

  /** The fields with a separator between each two. */
  function Joined(fields: seq<string>, c: char): string
    requires fields != []
  {
    Terminated(fields[..|fields| - 1], c) + fields[|fields| - 1]
  }

  lemma JoinedTerminated(fields: seq<string>, c: char)
    requires fields != []
    ensures Joined(fields, c) + [c] == Terminated(fields, c)
  {
    var n := |fields| - 1;
    assert fields == fields[..n] + [fields[n]];
    TerminatedSplit(fields[..n], [fields[n]], c);
    assert Terminated([fields[n]], c) == fields[n] + [c] + Terminated([], c);
  }

  lemma JoinedUnique(a: seq<string>, b: seq<string>, c: char)
    requires a != [] && b != [] && AllFree(a, c) && AllFree(b, c) && Joined(a, c) == Joined(b, c)
    ensures a == b
  {
    JoinedTerminated(a, c);
    JoinedTerminated(b, c);
    PiecesUnique(a, b, c);
  }

  predicate FieldList(fields: seq<string>, n: nat, c: char) {
    |fields| == n && AllFree(fields, c) && forall s | s in fields :: s != ""
  }

  /** Exactly `n` fields, none of them empty: the cursor advances over the separators, and after the last field there
      is none. */
  method SplitFields(s: string, n: nat, c: char) returns (fields: Option<seq<string>>)
    requires n > 0
    ensures fields.Some? ==> FieldList(fields.value, n, c) && Joined(fields.value, c) == s
    ensures fields.None? ==> forall fs | FieldList(fs, n, c) :: Joined(fs, c) != s
  {
    hide Joined, Terminated;
    var read: seq<string> := [];
    var cursor := s;
    ghost var all := Pieces(s + [c], c);
    OnlyPieces(s, n, c);
    assert Terminated(all, c) == s + [c];
    PiecesNonEmpty(s, c);
    while |read| < n
      invariant |read| <= n && |read| < |all| + 1 && read == all[..|read|] && forall f | f in read :: f != ""
      invariant |read| < n ==> |read| < |all| && cursor + [c] == Terminated(all[|read|..], c)
      invariant |read| == n ==> |all| == n
      decreases n - |read|
    {
      var k := |read|;
      var separator := Find(cursor, c);
      NextField(cursor, all[k..], c);
      if k + 1 == n {
        if separator.Some? {
          return None;
        }
        read := read + [cursor];
      } else {
        if separator.None? {
          return None;
        }
        read := read + [cursor[..separator.value]];
        cursor := cursor[separator.value + 1..];
        assert all[k..][1..] == all[k + 1..];
      }
      assert read[k] == all[k] && read == all[..k + 1];
      if read[k] == "" {
        assert all[k] in all;
        return None;
      }
    }
    assert read == all;
    JoinedIs(s, read, c);
    return Some(read);
  }

  lemma PiecesNonEmpty(s: string, c: char)
    ensures Pieces(s + [c], c) != [] && AllFree(Pieces(s + [c], c), c)
  {
  }

  lemma OnlyPieces(s: string, n: nat, c: char)
    requires n > 0
    ensures forall fs | FieldList(fs, n, c) && Joined(fs, c) == s :: fs == Pieces(s + [c], c)
  {
    forall fs | FieldList(fs, n, c) && Joined(fs, c) == s ensures fs == Pieces(s + [c], c) {
      JoinedTerminated(fs, c);
      PiecesUnique(fs, Pieces(s + [c], c), c);
    }
  }

  lemma JoinedIs(s: string, fields: seq<string>, c: char)
    requires fields != [] && Terminated(fields, c) == s + [c]
    ensures Joined(fields, c) == s
  {
    JoinedTerminated(fields, c);
    var t := Joined(fields, c);
    assert (t + [c])[..|t|] == t && (s + [c])[..|s|] == s;
  }

  /** Either the first of several fields ends at the separator, or there is but one field. */
  lemma NextField(cursor: string, pieces: seq<string>, c: char)
    requires pieces != [] && AllFree(pieces, c) && cursor + [c] == Terminated(pieces, c)
    ensures match Find(cursor, c)
      case None => pieces == [cursor]
      case Some(k) => |pieces| > 1 && cursor[..k] == pieces[0] && cursor[k + 1..] + [c] == Terminated(pieces[1..], c)
  {
    var s := cursor + [c];
    FindIs(s, c, pieces[0], Terminated(pieces[1..], c));
    var h := |pieces[0]|;
    if h == |cursor| {
      assert s[..h] == cursor;
      assert s[h + 1..] == "";
      if |pieces| > 1 {
        TerminatedEnd(pieces[1..], c);
      }
      assert pieces == [pieces[0]];
    } else {
      assert cursor[..h] == s[..h];
      assert s[h + 1..] == cursor[h + 1..] + [c];
      FindIs(cursor, c, pieces[0], cursor[h + 1..]);
    }
  }
}
