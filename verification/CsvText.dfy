/**
 The CSV dialect of the export and the import (compare section 2 of RFC 4180), on text.

 The two directions were written independently. The reader splits into lines before it looks at
 quotes, trims every field and skips blank lines, so not every table survives; `RoundTripIff` says
 exactly which ones do.
 */
module CsvText {
  import opened Prelude
  import opened Text

  datatype Table = Table(headers: seq<string>, rows: seq<seq<string>>)

  // ------------------------------------------------------------------ writer

  predicate NeedsQuoting(f: string) {
    ',' in f || '"' in f || '\n' in f || '\r' in f
  }

  /** Every quote doubled. */
  function DoubleQuotes(f: string): string {
    if f == "" then ""
    else (if f[0] == '"' then "\"\"" else [f[0]]) + DoubleQuotes(f[1..])
  }

  function FieldText(f: string): string {
    if NeedsQuoting(f) then "\"" + DoubleQuotes(f) + "\"" else f
  }

  /** A row without its line ending. */
  function RowBody(fields: seq<string>): string {
    if fields == [] then ""
    else if |fields| == 1 then FieldText(fields[0])
    else FieldText(fields[0]) + "," + RowBody(fields[1..])
  }

  function RowText(fields: seq<string>): string {
    RowBody(fields) + "\r\n"
  }

  function RowsText(rows: seq<seq<string>>): string {
    if rows == [] then "" else RowText(rows[0]) + RowsText(rows[1..])
  }

  function TableText(t: Table): string {
    RowsText([t.headers] + t.rows)
  }

  lemma {:induction false} RowsTextAppend(a: seq<seq<string>>, b: seq<seq<string>>)
    ensures RowsText(a + b) == RowsText(a) + RowsText(b)
  {
    if a == [] {
      assert a + b == b;
    } else {
      assert (a + b)[1..] == a[1..] + b;
      RowsTextAppend(a[1..], b);
    }
  }

  lemma RowsTextSnoc(a: seq<seq<string>>, r: seq<string>)
    ensures RowsText(a + [r]) == RowsText(a) + RowText(r)
  {
    RowsTextAppend(a, [r]);
    assert [r][1..] == [];
    assert RowsText([r]) == RowText(r) + RowsText([]);
  }

  // ------------------------------------------------------------------ reader

  /** The fields of the rest of a line, given the current field so far and the quote state. */
  function ParseFrom(line: string, current: string, inQuotes: bool): (fields: seq<string>)
    ensures fields != []
    decreases |line|
  {
    if line == "" then [Trim(current)]
    else if line[0] == '"' && !inQuotes then ParseFrom(line[1..], current, true)
    else if line[0] == '"' then
      if |line| > 1 && line[1] == '"' then ParseFrom(line[2..], current + "\"", true)
      else ParseFrom(line[1..], current, false)
    else if line[0] == ',' && !inQuotes then [Trim(current)] + ParseFrom(line[1..], "", false)
    else ParseFrom(line[1..], current + [line[0]], inQuotes)
  }

  function ParseLine(line: string): seq<string> {
    ParseFrom(line, "", false)
  }

  predicate IsBlank(line: string) {
    Trim(line) == ""
  }

  function ParseRows(lines: seq<string>): (rows: seq<seq<string>>) {
    if lines == [] then []
    else if IsBlank(lines[0]) then ParseRows(lines[1..])
    else [ParseLine(lines[0])] + ParseRows(lines[1..])
  }

  function ParseCsv(content: string): Result<Table> {
    var lines := Lines(content);
    if lines == [] then Err("CSV is empty")
    else Ok(Table(ParseLine(lines[0]), ParseRows(lines[1..])))
  }

  /** A row for every line that is not all whitespace, in order. */
  lemma {:induction false} RowsOfLines(lines: seq<string>, last: string)
    ensures ParseRows(lines + [last])
         == ParseRows(lines) + (if forall i :: 0 <= i < |last| ==> IsWhitespace(last[i]) then [] else [ParseLine(last)])
  {
    if lines == [] {
      var i, j := TrimSplit(last);
      assert [last][1..] == [] && [] + [last] == [last];
      assert Trim(last) != "" ==> !IsWhitespace(last[i]);
    } else {
      assert (lines + [last])[1..] == lines[1..] + [last];
      RowsOfLines(lines[1..], last);
    }
  }

  method ParseCsvLine(line: string) returns (fields: seq<string>)
    ensures fields == ParseLine(line)
  {
    fields := [];
    var current := "";
    var inQuotes := false;
    var i := 0;
    while i < |line|
      invariant 0 <= i <= |line|
      invariant fields + ParseFrom(line[i..], current, inQuotes) == ParseLine(line)
    {
      var ch := line[i];
      i := i + 1;
      if ch == '"' && !inQuotes {
        inQuotes := true;
      } else if ch == '"' {
        if i < |line| && line[i] == '"' {
          current := current + "\"";
          i := i + 1;
        } else {
          inQuotes := false;
        }
      } else if ch == ',' && !inQuotes {
        fields := fields + [Trim(current)];
        current := "";
      } else {
        current := current + [ch];
      }
    }
    fields := fields + [Trim(current)];
  }

  method ParseCsvText(content: string) returns (r: Result<Table>)
    ensures r == ParseCsv(content)
  {
    var lines := Lines(content);
    if lines == [] {
      return Err("CSV is empty");
    }
    var headers := ParseCsvLine(lines[0]);
    var rows: seq<seq<string>> := [];
    var i := 1;
    while i < |lines|
      invariant 1 <= i <= |lines|
      invariant rows + ParseRows(lines[i..]) == ParseRows(lines[1..])
    {
      if !IsBlank(lines[i]) {
        var row := ParseCsvLine(lines[i]);
        rows := rows + [row];
      }
      i := i + 1;
    }
    assert lines[i..] == [] && rows + [] == rows;
    return Ok(Table(headers, rows));
  }

  // ------------------------------------------------------------------ where a line is cut

  /** The position of the first comma with an even number of quotes before it (counting `odd` as
      one quote already seen), or the length of the line. */
  function FirstCut(line: string, odd: bool): (k: nat)
    ensures k <= |line|
    ensures k < |line| ==> line[k] == ','
  {
    if line == "" || (line[0] == ',' && !odd) then 0
    else 1 + FirstCut(line[1..], odd != (line[0] == '"'))
  }

  /** A piece without its quotes; inside quotes, a pair of them stands for one. */
  function Unquoted(piece: string, inQuotes: bool): string
    decreases |piece|
  {
    if piece == "" then ""
    else if piece[0] != '"' then [piece[0]] + Unquoted(piece[1..], inQuotes)
    else if inQuotes && |piece| > 1 && piece[1] == '"' then "\"" + Unquoted(piece[2..], true)
    else Unquoted(piece[1..], !inQuotes)
  }

  /** The first field has this text and ends at `k`. */
  function FieldsAt(line: string, k: nat, text: string): seq<string>
    requires k <= |line|
  {
    [Trim(text)] + (if k == |line| then [] else ParseLine(line[k + 1..]))
  }

  /** The fields of `line`, told by its first cut. */
  function FieldsByCut(line: string, current: string, inQuotes: bool): seq<string> {
    var k := FirstCut(line, inQuotes);
    FieldsAt(line, k, current + Unquoted(line[..k], inQuotes))
  }

  /** A step that adds `c` to the field keeps the cut. */
  lemma CutAfterStep(line: string, n: nat, current: string, c: string, before: bool, after: bool)
    requires 1 <= n <= FirstCut(line, before)
    requires FirstCut(line, before) == n + FirstCut(line[n..], after)
    requires var piece := line[..FirstCut(line, before)];
             Unquoted(piece, before) == c + Unquoted(piece[n..], after)
    ensures FieldsByCut(line, current, before) == FieldsByCut(line[n..], current + c, after)
  {
    var k := FirstCut(line, before);
    var piece, rest := line[..k], line[n..];
    SlicesAgree(line, n, k);
    AppendAssoc(current, c, Unquoted(piece[n..], after));
    FieldsBehind(line, n, k, current + (c + Unquoted(piece[n..], after)));
  }

  lemma FieldsBehind(line: string, n: nat, k: nat, text: string)
    requires n <= k <= |line|
    ensures FieldsAt(line, k, text) == FieldsAt(line[n..], k - n, text)
  {
    SlicesAgree(line, n, k);
  }

  lemma SlicesAgree(line: string, n: nat, k: nat)
    ensures n <= k <= |line| ==> line[n..][..k - n] == line[..k][n..]
    ensures n <= k <= |line| && k < |line| ==> line[n..][k - n + 1..] == line[k + 1..]
  {
  }

  /** For every line: the first field ends at the first comma with an even number of quotes before
      it, its value is what it holds, unquoted and trimmed, and reading starts afresh after it. */
  lemma {:induction false} CutByQuoteParity(line: string, current: string, inQuotes: bool)
    ensures ParseFrom(line, current, inQuotes) == FieldsByCut(line, current, inQuotes)
    decreases |line|
  {
    var k := FirstCut(line, inQuotes);
    if k == 0 {
      assert current + "" == current;
    } else if line[0] != '"' {
      CutByQuoteParity(line[1..], current + [line[0]], inQuotes);
      CutAfterStep(line, 1, current, [line[0]], inQuotes, inQuotes);
    } else if inQuotes && |line| > 1 && line[1] == '"' {
      CutByQuoteParity(line[2..], current + "\"", true);
      assert line[1..][1..] == line[2..];
      assert FirstCut(line[1..], false) == 1 + FirstCut(line[2..], true);
      CutAfterStep(line, 2, current, "\"", true, true);
    } else {
      CutByQuoteParity(line[1..], current, !inQuotes);
      var piece := line[..k];
      assert "" + Unquoted(piece[1..], !inQuotes) == Unquoted(piece[1..], !inQuotes);
      CutAfterStep(line, 1, current, "", inQuotes, !inQuotes);
      assert current + "" == current;
    }
  }

  // ------------------------------------------------------------------ what reading gives

  /** What the reader makes of any field: trimmed, and without a line feed. */
  predicate ReadableField(f: string) {
    Trim(f) == f && '\n' !in f
  }

  predicate ReadableRow(fields: seq<string>) {
    forall i :: 0 <= i < |fields| ==> ReadableField(fields[i])
  }

  /** The tables that survive: some header, readable fields only, no row that prints as a blank line. */
  predicate Transferable(t: Table) {
    && t.headers != []
    && ReadableRow(t.headers)
    && (forall i :: 0 <= i < |t.rows| ==>
          ReadableRow(t.rows[i]) && t.rows[i] != [] && t.rows[i] != [""])
  }

  lemma TrimmedIsReadable(f: string)
    requires '\n' !in f
    ensures ReadableField(Trim(f))
  {
    TrimIsTight(f);
    TrimIsTight(Trim(f));
    TrimKeepsAbsence(f, '\n');
  }

  lemma {:induction false} ParseFromReadable(line: string, current: string, inQuotes: bool)
    requires '\n' !in line && '\n' !in current
    ensures ReadableRow(ParseFrom(line, current, inQuotes))
    decreases |line|
  {
    TrimmedIsReadable(current);
    if line == "" {
    } else if line[0] == '"' && !inQuotes {
      ParseFromReadable(line[1..], current, true);
    } else if line[0] == '"' {
      if |line| > 1 && line[1] == '"' {
        ParseFromReadable(line[2..], current + "\"", true);
      } else {
        ParseFromReadable(line[1..], current, false);
      }
    } else if line[0] == ',' && !inQuotes {
      ParseFromReadable(line[1..], "", false);
    } else {
      ParseFromReadable(line[1..], current + [line[0]], inQuotes);
    }
  }

  lemma {:induction false} ParseRowsReadable(lines: seq<string>)
    requires forall l <- lines :: '\n' !in l
    ensures forall r <- ParseRows(lines) :: ReadableRow(r) && r != []
    ensures |ParseRows(lines)| <= |lines|
    ensures (exists i :: 0 <= i < |lines| && IsBlank(lines[i])) ==> |ParseRows(lines)| < |lines|
  {
    if lines != [] {
      ParseRowsReadable(lines[1..]);
      ParseFromReadable(lines[0], "", false);
      if i :| 0 <= i < |lines| && IsBlank(lines[i]) {
        assert i > 0 ==> lines[1..][i - 1] == lines[i];
      }
    }
  }

  // ------------------------------------------------------------------ reading back what was written

  lemma {:induction false} ParsePlain(f: string, rest: string, current: string)
    requires ',' !in f && '"' !in f
    ensures ParseFrom(f + rest, current, false) == ParseFrom(rest, current + f, false)
  {
    if f == "" {
      assert f + rest == rest && current + f == current;
    } else {
      assert (f + rest)[1..] == f[1..] + rest;
      ParsePlain(f[1..], rest, current + [f[0]]);
      assert current + [f[0]] + f[1..] == current + f;
    }
  }

  lemma {:induction false} ParseQuoted(f: string, rest: string, current: string)
    requires rest != "" ==> rest[0] != '"'
    ensures ParseFrom(DoubleQuotes(f) + "\"" + rest, current, true) == ParseFrom(rest, current + f, false)
  {
    var line := DoubleQuotes(f) + "\"" + rest;
    if f == "" {
      assert line == "\"" + rest && line[1..] == rest && current + f == current;
    } else {
      var tail := DoubleQuotes(f[1..]) + "\"" + rest;
      ParseQuoted(f[1..], rest, current + [f[0]]);
      assert current + [f[0]] + f[1..] == current + f;
      if f[0] == '"' {
        assert line == "\"\"" + tail && line[2..] == tail;
      } else {
        assert line == [f[0]] + tail && line[1..] == tail;
      }
    }
  }

  /** A printed field is read back whole, whatever separators and quotes it holds. */
  lemma ParseField(f: string, rest: string)
    requires rest == "" || rest[0] == ','
    ensures ParseFrom(FieldText(f) + rest, "", false) == ParseFrom(rest, f, false)
  {
    assert "" + f == f;
    if NeedsQuoting(f) {
      var tail := DoubleQuotes(f) + "\"" + rest;
      assert FieldText(f) + rest == "\"" + tail && ("\"" + tail)[1..] == tail;
      ParseQuoted(f, rest, "");
    } else {
      ParsePlain(f, rest, "");
    }
  }

  lemma RowBodyStep(fields: seq<string>)
    requires |fields| > 1
    ensures RowBody(fields) == FieldText(fields[0]) + ("," + RowBody(fields[1..]))
    ensures ("," + RowBody(fields[1..]))[1..] == RowBody(fields[1..])
    ensures ReadableRow(fields) ==> ReadableRow(fields[1..])
  {
    var rest := RowBody(fields[1..]);
    AppendAssoc(FieldText(fields[0]), ",", rest);
    assert ("," + rest)[1..] == rest;
  }

  /** Reading a printed row gives its trimmed fields; the empty row reads as one empty field. */
  lemma {:induction false} ParseRowBody(fields: seq<string>)
    requires ReadableRow(fields) && fields != []
    ensures ParseLine(RowBody(fields)) == fields
  {
    if |fields| == 1 {
      ParseField(fields[0], "");
      assert FieldText(fields[0]) + "" == FieldText(fields[0]);
    } else {
      var rest := "," + RowBody(fields[1..]);
      ParseField(fields[0], rest);
      RowBodyStep(fields);
      ParseRowBody(fields[1..]);
      assert fields == [fields[0]] + fields[1..];
    }
  }

  predicate NoLf(fields: seq<string>) {
    forall i :: 0 <= i < |fields| ==> '\n' !in fields[i]
  }

  lemma {:induction false} DoubleQuotesKeepsAbsence(f: string)
    requires '\n' !in f
    ensures '\n' !in DoubleQuotes(f)
  {
    if f != "" {
      DoubleQuotesKeepsAbsence(f[1..]);
    }
  }

  lemma {:induction false} RowBodyHasNoLf(fields: seq<string>)
    requires NoLf(fields)
    ensures '\n' !in RowBody(fields)
  {
    if fields != [] {
      DoubleQuotesKeepsAbsence(fields[0]);
      assert NoLf(fields[1..]);
      RowBodyHasNoLf(fields[1..]);
    }
  }

  function Bodies(rows: seq<seq<string>>): (bodies: seq<string>) {
    seq(|rows|, i requires 0 <= i < |rows| => RowBody(rows[i]))
  }

  /** With no line feed inside a field, the lines of the text are the printed rows. */
  lemma {:induction false} LinesOfRows(rows: seq<seq<string>>)
    requires forall i :: 0 <= i < |rows| ==> NoLf(rows[i])
    ensures Lines(RowsText(rows)) == Bodies(rows)
  {
    if rows != [] {
      RowBodyHasNoLf(rows[0]);
      LinesHead(RowBody(rows[0]), RowsText(rows[1..]));
      assert RowsText(rows) == RowBody(rows[0]) + "\r\n" + RowsText(rows[1..]);
      LinesOfRows(rows[1..]);
      BodiesHead(rows);
    }
  }

  lemma BodiesHead(rows: seq<seq<string>>)
    ensures rows != [] ==> Bodies(rows) == [RowBody(rows[0])] + Bodies(rows[1..])
  {
  }

  /** Only the rows `[]` and `[""]` print as blank lines. */
  lemma BlankRows(fields: seq<string>)
    requires ReadableRow(fields)
    ensures IsBlank(RowBody(fields)) <==> fields == [] || fields == [""]
  {
    var body := RowBody(fields);
    TrimEmpty(body);
    if fields == [] {
    } else if |fields| > 1 {
      assert body[|FieldText(fields[0])|] == ',';
    } else {
      TrimIsTight(fields[0]);
      assert fields[0] != "" ==> body[0] == '"' || body[0] == fields[0][0];
      assert fields[0] == "" ==> fields == [""];
    }
  }

  lemma {:induction false} ParseBodies(rows: seq<seq<string>>)
    requires forall i :: 0 <= i < |rows| ==> ReadableRow(rows[i]) && rows[i] != [] && rows[i] != [""]
    ensures ParseRows(Bodies(rows)) == rows
  {
    if rows != [] {
      BlankRows(rows[0]);
      ParseRowBody(rows[0]);
      assert Bodies(rows)[0] == RowBody(rows[0]) && Bodies(rows)[1..] == Bodies(rows[1..]);
      ParseBodies(rows[1..]);
    }
  }

  lemma TableLines(t: Table)
    requires NoLf(t.headers) && forall i :: 0 <= i < |t.rows| ==> NoLf(t.rows[i])
    ensures Lines(TableText(t)) == [RowBody(t.headers)] + Bodies(t.rows)
  {
    var rows := [t.headers] + t.rows;
    forall i | 0 <= i < |rows| ensures NoLf(rows[i]) {
      assert i > 0 ==> rows[i] == t.rows[i - 1];
    }
    LinesOfRows(rows);
    assert Bodies(rows) == [RowBody(t.headers)] + Bodies(t.rows);
  }

  lemma RoundTrip(t: Table)
    requires Transferable(t)
    ensures ParseCsv(TableText(t)) == Ok(t)
  {
    TableLines(t);
    ParseRowBody(t.headers);
    ParseBodies(t.rows);
    assert ([RowBody(t.headers)] + Bodies(t.rows))[1..] == Bodies(t.rows);
  }

  lemma OnlyTransferable(t: Table)
    requires ParseCsv(TableText(t)) == Ok(t)
    ensures Transferable(t)
  {
    var lines := Lines(TableText(t));
    LinesHaveNoLf(TableText(t));
    ParseFromReadable(lines[0], "", false);
    ParseRowsReadable(lines[1..]);
    forall i | 0 <= i < |t.rows|
      ensures ReadableRow(t.rows[i]) && t.rows[i] != []
    {
      assert t.rows[i] in ParseRows(lines[1..]);
    }
    TableLines(t);
    forall i | 0 <= i < |t.rows|
      ensures t.rows[i] != [""]
    {
      BlankRows(t.rows[i]);
      assert lines[1..][i] == RowBody(t.rows[i]);
    }
  }

  /** Exactly the transferable tables are read back unchanged from their printed text. */
  lemma RoundTripIff(t: Table)
    ensures ParseCsv(TableText(t)) == Ok(t) <==> Transferable(t)
  {
    if Transferable(t) {
      RoundTrip(t);
    }
    if ParseCsv(TableText(t)) == Ok(t) {
      OnlyTransferable(t);
    }
  }
}
