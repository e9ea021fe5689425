/**
 A reader after section 2 of RFC 4180, as a spreadsheet reads a file: quotes come before line breaks, and CR,
 LF or CRLF ends a record. The export is printed for such readers, and they get every table back.
 */
module Rfc4180 {
  import opened CsvText
  import opened Prelude

  /** What a reader takes off the front of a text, and what it leaves. */
  datatype Reading<+T> = Read(value: T, rest: string) | Malformed

  // ------------------------------------------------------------------ the reader

  predicate IsBreak(c: char) {
    c == '\r' || c == '\n'
  }

  /** The inside of a quoted field, in which two quotes stand for one, up to its closing quote. */
  function ReadEscaped(s: string): (r: Reading<string>)
    ensures r.Read? ==> |r.rest| < |s| && |r.value| < |s|
    decreases |s|
  {
    if s == "" then Malformed
    else if s[0] != '"' then Before([s[0]], ReadEscaped(s[1..]))
    else if |s| > 1 && s[1] == '"' then Before("\"", ReadEscaped(s[2..]))
    else Read("", s[1..])
  }

  function Before(front: string, r: Reading<string>): Reading<string> {
    if r.Read? then Read(front + r.value, r.rest) else Malformed
  }

  /** The length of the unquoted text at the front. */
  function BareLength(s: string): (n: nat)
    ensures n <= |s|
  {
    if s == "" || s[0] == ',' || s[0] == '"' || IsBreak(s[0]) then 0 else 1 + BareLength(s[1..])
  }

  function ReadField(s: string): (r: Reading<string>)
    ensures r.Read? ==> |r.rest| <= |s|
  {
    if s != "" && s[0] == '"' then ReadEscaped(s[1..])
    else Read(s[..BareLength(s)], s[BareLength(s)..])
  }

  /** The text behind a line break. */
  function AfterBreak(s: string): (rest: string)
    requires s != ""
    ensures |rest| < |s|
  {
    if "\r\n" <= s then s[2..] else s[1..]
  }

  /** One record; a quote may stand only around a field or doubled in one. */
  function ReadRecord(s: string): (r: Reading<seq<string>>)
    ensures r.Read? ==> |r.rest| <= |s| && (s != "" ==> |r.rest| < |s|)
    decreases |s|
  {
    match ReadField(s)
    case Malformed => Malformed
    case Read(field, rest) =>
      if rest == "" then Read([field], "")
      else if IsBreak(rest[0]) then Read([field], AfterBreak(rest))
      else if rest[0] == ',' then WithField(field, ReadRecord(rest[1..]))
      else Malformed
  }

  function WithField(field: string, r: Reading<seq<string>>): Reading<seq<string>> {
    if r.Read? then Read([field] + r.value, r.rest) else Malformed
  }

  function ReadRecords(s: string): Option<seq<seq<string>>>
    decreases |s|
  {
    if s == "" then Some([])
    else
      match ReadRecord(s)
      case Malformed => None
      case Read(record, rest) => WithRecord(record, ReadRecords(rest))
  }

  function WithRecord(record: seq<string>, r: Option<seq<seq<string>>>): Option<seq<seq<string>>> {
    if r.Some? then Some([record] + r.value) else None
  }

  // ------------------------------------------------------------------ fields

  /** Behind a printed field comes a comma, a line break or nothing. */
  predicate EndsField(rest: string) {
    rest == "" || rest[0] == ',' || IsBreak(rest[0])
  }

  lemma {:induction false} ReadQuoted(f: string, rest: string)
    requires rest == "" || rest[0] != '"'
    ensures ReadEscaped(DoubleQuotes(f) + ("\"" + rest)) == Read(f, rest)
  {
    var s := DoubleQuotes(f) + ("\"" + rest);
    if f == "" {
      assert s == "\"" + rest && s[1..] == rest;
    } else {
      var tail := DoubleQuotes(f[1..]) + ("\"" + rest);
      ReadQuoted(f[1..], rest);
      assert [f[0]] + f[1..] == f;
      if f[0] == '"' {
        assert s == "\"\"" + tail && s[2..] == tail;
      } else {
        assert s == [f[0]] + tail && s[1..] == tail;
      }
    }
  }

  lemma {:induction false} BareWhole(f: string, rest: string)
    requires !NeedsQuoting(f) && EndsField(rest)
    ensures BareLength(f + rest) == |f|
  {
    if f == "" {
      assert f + rest == rest;
    } else {
      assert (f + rest)[1..] == f[1..] + rest;
      BareWhole(f[1..], rest);
    }
  }

  lemma QuotedFieldRead(f: string, rest: string, inner: string, s: string)
    requires rest == "" || rest[0] != '"'
    requires inner == DoubleQuotes(f) + ("\"" + rest) && s == ['"'] + inner
    ensures ReadField(s) == Read(f, rest)
  {
    ReadQuoted(f, rest);
    assert s[1..] == inner;
  }

  lemma BareFieldRead(f: string, rest: string, s: string)
    requires !NeedsQuoting(f) && EndsField(rest) && s == f + rest
    ensures ReadField(s) == Read(f, rest)
  {
    BareWhole(f, rest);
    assert s[..|f|] == f && s[|f|..] == rest;
    if f != "" {
      assert s[0] == f[0];
    } else {
      assert s == rest;
    }
  }

  /** A printed field is read back, whatever it holds. */
  lemma FieldReadBack(f: string, rest: string)
    requires EndsField(rest)
    ensures ReadField(FieldText(f) + rest) == Read(f, rest)
  {
    if NeedsQuoting(f) {
      Wrapped("\"", DoubleQuotes(f), rest);
      QuotedFieldRead(f, rest, DoubleQuotes(f) + ("\"" + rest), FieldText(f) + rest);
    } else {
      BareFieldRead(f, rest, FieldText(f) + rest);
    }
  }

  lemma Wrapped(q: string, inner: string, rest: string)
    ensures (q + inner + q) + rest == q + (inner + (q + rest))
  {
  }

  lemma {:induction false} BareStops(f: string)
    requires NeedsQuoting(f)
    ensures BareLength(f) < |f|
  {
    if BareLength(f) > 0 {
      assert f == [f[0]] + f[1..];
      BareStops(f[1..]);
    }
  }

  /** Quotes are printed exactly around the fields that are not read back as they are. */
  lemma BareIff(f: string)
    ensures FieldText(f) == f <==> ReadRecord(f) == Read([f], "")
  {
    if NeedsQuoting(f) {
      DoubleLength(f);
      NotReadBare(f);
    } else {
      BareFieldRead(f, "", f);
    }
  }

  lemma NotReadBare(f: string)
    requires NeedsQuoting(f)
    ensures ReadRecord(f) != Read([f], "")
  {
    BareStops(f);
    if f[0] == '"' {
      assert ReadField(f) == ReadEscaped(f[1..]);
    } else {
      assert ReadField(f) == Read(f[..BareLength(f)], f[BareLength(f)..]);
    }
    assert ReadField(f).Read? ==> |ReadField(f).value| < |f|;
  }

  lemma {:induction false} DoubleLength(f: string)
    ensures |DoubleQuotes(f)| >= |f|
  {
    if f != "" {
      DoubleLength(f[1..]);
    }
  }

  // ------------------------------------------------------------------ records

  predicate ReadsRecord(s: string, fields: seq<string>, rest: string) {
    ReadRecord(s) == Read(fields, rest)
  }

  lemma LastField(f: string, rest: string)
    ensures ReadsRecord(FieldText(f) + ("\r\n" + rest), [f], rest)
  {
    var end := "\r\n" + rest;
    FieldReadBack(f, end);
    assert end[2..] == rest;
  }

  lemma NextField(f: string, later: string, fields: seq<string>, rest: string)
    requires ReadsRecord(later, fields, rest)
    ensures ReadsRecord(FieldText(f) + ([','] + later), [f] + fields, rest)
  {
    FieldReadBack(f, [','] + later);
    assert ([','] + later)[1..] == later;
  }

  /** A printed row is read back as one record, and exactly it is taken. */
  lemma {:induction false} RowReadBack(fields: seq<string>, rest: string)
    requires fields != []
    ensures ReadsRecord(RowText(fields) + rest, fields, rest)
  {
    var end := "\r\n" + rest;
    AppendAssoc(RowBody(fields), "\r\n", rest);
    if |fields| == 1 {
      LastField(fields[0], rest);
      assert fields == [fields[0]];
    } else {
      RowReadBack(fields[1..], rest);
      AppendAssoc(RowBody(fields[1..]), "\r\n", rest);
      NextField(fields[0], RowBody(fields[1..]) + end, fields[1..], rest);
      Regrouped(FieldText(fields[0]), ",", RowBody(fields[1..]), end);
      assert fields == [fields[0]] + fields[1..];
    }
  }

  lemma Regrouped(a: string, b: string, c: string, d: string)
    ensures (a + b + c) + d == a + (b + (c + d))
  {
  }

  predicate ReadsRecords(s: string, rows: seq<seq<string>>) {
    ReadRecords(s) == Some(rows)
  }

  lemma NextRecord(row: seq<string>, later: string, rows: seq<seq<string>>)
    requires row != [] && ReadsRecords(later, rows)
    ensures ReadsRecords(RowText(row) + later, [row] + rows)
  {
    RowReadBack(row, later);
  }

  /** Every table of non-empty rows is read back from its printed text, whatever the fields hold: commas, quotes,
      line breaks, spaces. */
  lemma {:induction false} RowsReadBack(rows: seq<seq<string>>)
    requires forall i :: 0 <= i < |rows| ==> rows[i] != []
    ensures ReadsRecords(RowsText(rows), rows)
  {
    if rows != [] {
      RowsReadBack(rows[1..]);
      NextRecord(rows[0], RowsText(rows[1..]), rows[1..]);
      assert rows == [rows[0]] + rows[1..];
    }
  }

  // ------------------------------------------------------------------ where a row ends

  /** How many quotes there are. */
  function Quotes(s: string): nat {
    if s == "" then 0 else Quotes(s[..|s| - 1]) + (if s[|s| - 1] == '"' then 1 else 0)
  }

  /** A line break at `i` that no quotes are around. */
  predicate BreaksAt(s: string, i: nat) {
    i < |s| && IsBreak(s[i]) && Quotes(s[..i]) % 2 == 0
  }

  /** Quotes only in pairs, and every line break behind an even number of quotes, or every one behind an odd. */
  ghost predicate BreaksBehind(s: string, odd: bool) {
    Quotes(s) % 2 == 0 && forall i: nat :: i < |s| && IsBreak(s[i]) ==> (BreaksAt(s, i) <==> !odd)
  }

  lemma {:induction false} QuotesAppend(a: string, b: string)
    ensures Quotes(a + b) == Quotes(a) + Quotes(b)
  {
    if b == "" {
      assert a + b == a;
    } else {
      var n := |b| - 1;
      assert (a + b)[..|a| + n] == a + b[..n] && (a + b)[|a| + n] == b[n];
      QuotesAppend(a, b[..n]);
    }
  }

  lemma BehindAppend(a: string, b: string, odd: bool)
    requires BreaksBehind(a, odd) && BreaksBehind(b, odd)
    ensures BreaksBehind(a + b, odd)
  {
    QuotesAppend(a, b);
    forall i: nat | i < |a + b| && IsBreak((a + b)[i])
      ensures BreaksAt(a + b, i) <==> !odd
    {
      if i < |a| {
        assert (a + b)[..i] == a[..i];
      } else {
        assert (a + b)[..i] == a + b[..i - |a|];
        QuotesAppend(a, b[..i - |a|]);
      }
    }
  }

  /** Inside a field with its quotes doubled, every line break is behind an even number of quotes. */
  lemma {:induction false} DoubledIsEven(f: string)
    ensures BreaksBehind(DoubleQuotes(f), false)
  {
    if f != "" {
      var head := if f[0] == '"' then "\"\"" else [f[0]];
      DoubledIsEven(f[1..]);
      HeadIsEven(f[0], head);
      BehindAppend(head, DoubleQuotes(f[1..]), false);
    }
  }

  lemma HeadIsEven(c: char, head: string)
    requires head == if c == '"' then "\"\"" else [c]
    ensures BreaksBehind(head, false)
  {
    assert head[..|head| - 1] == if c == '"' then "\"" else "";
    assert "\""[..0] == "" && head[..0] == "";
  }

  /** One more quote at each end, and what was behind an even number is behind an odd one. */
  lemma QuotedIsClosed(q: string, inner: string, s: string)
    requires q == ['"'] && s == q + inner + q && BreaksBehind(inner, false)
    ensures BreaksBehind(s, true)
  {
    assert q[..0] == "";
    QuotesAppend(q, inner);
    QuotesAppend(q + inner, q);
    forall i: nat | i < |s| && IsBreak(s[i])
      ensures !BreaksAt(s, i)
    {
      assert 0 < i <= |inner| && s[i] == inner[i - 1];
      assert s[..i] == q + inner[..i - 1] && BreaksAt(inner, i - 1);
      QuotesAppend(q, inner[..i - 1]);
    }
  }

  lemma FieldIsClosed(f: string)
    ensures BreaksBehind(FieldText(f), true)
  {
    if NeedsQuoting(f) {
      DoubledIsEven(f);
      QuotedIsClosed("\"", DoubleQuotes(f), FieldText(f));
    } else {
      NoQuotes(f);
    }
  }

  lemma {:induction false} NoQuotes(f: string)
    requires '"' !in f
    ensures Quotes(f) == 0
  {
    if f != "" {
      NoQuotes(f[..|f| - 1]);
    }
  }

  lemma {:induction false} BodyIsClosed(fields: seq<string>)
    ensures BreaksBehind(RowBody(fields), true)
  {
    if fields != [] {
      FieldIsClosed(fields[0]);
      if |fields| > 1 {
        BodyIsClosed(fields[1..]);
        CommaIsClosed(",");
        BehindAppend(FieldText(fields[0]), ",", true);
        BehindAppend(FieldText(fields[0]) + ",", RowBody(fields[1..]), true);
      }
    }
  }

  lemma CommaIsClosed(comma: string)
    requires comma == [',']
    ensures BreaksBehind(comma, true)
  {
    assert comma[..0] == "";
  }

  /** In the text of every row, the only line break outside quotes is the CR LF at its end. */
  lemma RowEndsOnce(fields: seq<string>, i: nat)
    requires i < |RowText(fields)|
    ensures BreaksAt(RowText(fields), i) <==> i >= |RowText(fields)| - 2
    ensures "\r\n" == RowText(fields)[|RowText(fields)| - 2..]
  {
    var body, s := RowBody(fields), RowText(fields);
    BodyIsClosed(fields);
    assert s[|body|..] == "\r\n";
    if i < |body| {
      assert s[..i] == body[..i] && !BreaksAt(body, i);
    } else {
      assert s[..|body|] == body && s[..|body| + 1] == body + "\r";
      QuotesAppend(body, "\r");
      assert "\r"[..0] == "";
    }
  }
}
