/** Receiving an uploaded CSV file and turning it into INSERT statements. */
module CsvImport {
  import opened Prelude
  import opened Text
  import opened CsvText
  import opened Environment
  import Base64
  import SqlValues
  import Utf8

  datatype Dialect = MySql | Postgres | SqlServer

  function OpenQuote(d: Dialect): string {
    match d case MySql => "`" case Postgres => "\"" case SqlServer => "["
  }

  function CloseQuote(d: Dialect): string {
    match d case MySql => "`" case Postgres => "\"" case SqlServer => "]"
  }

  /** One statement; identifiers are quoted the way the database wants it. */
  function InsertStatement(d: Dialect, table: string, headers: seq<string>, row: seq<string>): string {
    var o, c := OpenQuote(d), CloseQuote(d);
    "INSERT INTO " + o + table + c + " (" + o + Join(headers, c + ", " + o) + c + ") VALUES ("
    + SqlValues.ValuesText(row) + ");"
  }

  /** The rows that have a value for every header, in order. */
  function Wellformed(rows: seq<seq<string>>, width: nat): (r: seq<seq<string>>)
    ensures forall i :: 0 <= i < |r| ==> |r[i]| == width
  {
    if rows == [] then []
    else
      var n := |rows| - 1;
      Wellformed(rows[..n], width) + (if |rows[n]| == width then [rows[n]] else [])
  }

  function Statements(d: Dialect, table: string, headers: seq<string>, rows: seq<seq<string>>): seq<string> {
    seq(|rows|, i requires 0 <= i < |rows| => InsertStatement(d, table, headers, rows[i]))
  }

  function Inserts(d: Dialect, table: string, data: Option<Table>): Result<seq<string>> {
    match data
    case None => Err("No CSV data available")
    case Some(t) =>
      if t.headers == [] then Err("CSV has no headers")
      else Ok(Statements(d, table, t.headers, Wellformed(t.rows, |t.headers|)))
  }

  /** What a finished upload holds: the bytes must be UTF-8 and must not be empty. */
  function ReadTable(bytes: seq<byte>): Result<Table> {
    match Utf8.Decode(bytes)
    case None => Err("Invalid UTF-8 in CSV")
    case Some(text) => ParseCsv(text)
  }

  class CsvImporter {
    const stream: int32
    var buffer: seq<byte>
    const cancelled: CancelFlag
    var parsed: Option<Table>

    constructor (stream: int32, cancelled: CancelFlag)
      ensures this.stream == stream && this.cancelled == cancelled && buffer == [] && parsed == None
    {
      this.stream, this.cancelled, buffer, parsed := stream, cancelled, [], None;
    }

    /** A blob adds its decoded bytes, or nothing at all. */
    method ReceiveBlob(data: seq<byte>) returns (r: Result<()>)
      modifies this`buffer, cancelled
      ensures r.Ok? <==> old(cancelled.checks) > 0 && Base64.Decoded(data).Ok?
      ensures buffer == if r.Ok? then old(buffer) + Base64.Decoded(data).value else old(buffer)
    {
      var stop := cancelled.IsCancelled();
      if stop {
        return Err("Import cancelled");
      }
      var decoded := Base64.Decode(data);
      match decoded {
        case Err(e) => r := Err(e);
        case Ok(bytes) =>
          buffer := buffer + bytes;
          r := Ok(());
      }
    }

    /** The buffer is used up, and a table is kept only when the whole upload parses. */
    method FinishReceive() returns (r: Result<Table>)
      modifies this`buffer, this`parsed, cancelled
      ensures old(cancelled.checks) == 0 ==> r.Err? && buffer == old(buffer) && parsed == old(parsed)
      ensures old(cancelled.checks) > 0 ==> r == ReadTable(old(buffer)) && buffer == []
      ensures parsed == if r.Ok? then Some(r.value) else old(parsed)
    {
      var stop := cancelled.IsCancelled();
      if stop {
        return Err("Import cancelled");
      }
      var bytes := buffer;
      buffer := [];
      var text := Utf8.Decode(bytes);
      if text.None? {
        return Err("Invalid UTF-8 in CSV");
      }
      r := ParseCsvText(text.value);
      if r.Ok? {
        parsed := Some(r.value);
      }
    }

    method GenerateInserts(d: Dialect, table: string) returns (r: Result<seq<string>>)
      ensures r == Inserts(d, table, parsed)
    {
      if parsed.None? {
        return Err("No CSV data available");
      }
      var t := parsed.value;
      if t.headers == [] {
        return Err("CSV has no headers");
      }
      var statements: seq<string> := [];
      var i := 0;
      while i < |t.rows|
        invariant 0 <= i <= |t.rows|
        invariant statements == Statements(d, table, t.headers, Wellformed(t.rows[..i], |t.headers|))
      {
        OneMoreRow(d, table, t.headers, t.rows, i);
        if |t.rows[i]| == |t.headers| {
          statements := statements + [InsertStatement(d, table, t.headers, t.rows[i])];
        }
        i := i + 1;
      }
      assert t.rows[..i] == t.rows;
      r := Ok(statements);
    }
  }

  lemma OneMoreRow(d: Dialect, table: string, headers: seq<string>, rows: seq<seq<string>>, i: nat)
    requires i < |rows|
    ensures Statements(d, table, headers, Wellformed(rows[..i + 1], |headers|))
         == Statements(d, table, headers, Wellformed(rows[..i], |headers|))
            + (if |rows[i]| == |headers| then [InsertStatement(d, table, headers, rows[i])] else [])
  {
    WellformedSnoc(rows, |headers|, i);
    StatementsSnoc(d, table, headers, Wellformed(rows[..i], |headers|), rows[i]);
    var kept := Statements(d, table, headers, Wellformed(rows[..i], |headers|));
    assert kept + [] == kept;
  }

  lemma WellformedSnoc(rows: seq<seq<string>>, width: nat, i: nat)
    requires i < |rows|
    ensures Wellformed(rows[..i + 1], width)
         == if |rows[i]| == width then Wellformed(rows[..i], width) + [rows[i]] else Wellformed(rows[..i], width)
  {
    assert rows[..i + 1][..i] == rows[..i];
  }

  lemma StatementsSnoc(d: Dialect, table: string, headers: seq<string>, rows: seq<seq<string>>, row: seq<string>)
    ensures Statements(d, table, headers, rows + [row])
         == Statements(d, table, headers, rows) + [InsertStatement(d, table, headers, row)]
  {
  }

  /** The rows kept are exactly those of the right length, each once, in their order: `at` lists
      their positions. */
  lemma {:induction false} WellformedIsInOrder(rows: seq<seq<string>>, width: nat) returns (at: seq<nat>)
    ensures |at| == |Wellformed(rows, width)|
    ensures forall i :: 0 <= i < |at| ==> at[i] < |rows| && rows[at[i]] == Wellformed(rows, width)[i]
    ensures forall i, j :: 0 <= i < j < |at| ==> at[i] < at[j]
    ensures forall k: nat :: k < |rows| && |rows[k]| == width ==> k in at
  {
    if rows == [] {
      return [];
    }
    var n := |rows| - 1;
    at := WellformedIsInOrder(rows[..n], width);
    if |rows[n]| == width {
      at := at + [n];
    }
    forall k: nat | k < |rows| && |rows[k]| == width
      ensures k in at
    {
      assert k < n ==> rows[..n][k] == rows[k];
    }
  }

  /** What stands in front of the values: it is the same for every row. */
  function Head(d: Dialect, table: string, headers: seq<string>): string {
    var o, c := OpenQuote(d), CloseQuote(d);
    "INSERT INTO " + o + table + c + " (" + o + Join(headers, c + ", " + o) + c + ") VALUES ("
  }

  /** Every statement is the head, a list that reads back as one literal per header, those of its row,
      and the closing `);`. The list ends at the first closing parenthesis outside a string, and that is
      the last of the statement: no field ends it early. */
  lemma StatementValues(d: Dialect, t: Table, table: string, i: nat)
    requires t.headers != [] && i < |Wellformed(t.rows, |t.headers|)|
    ensures Inserts(d, table, Some(t)).Ok? && |Inserts(d, table, Some(t)).value| == |Wellformed(t.rows, |t.headers|)|
    ensures var row, s := Wellformed(t.rows, |t.headers|)[i], Inserts(d, table, Some(t)).value[i];
            && Head(d, table, t.headers) <= s
            && SqlValues.ReadLiterals(s[|Head(d, table, t.headers)|..]) == Some((SqlValues.LiteralsOf(row), ";"))
            && |SqlValues.LiteralsOf(row)| == |t.headers|
  {
    var row := Wellformed(t.rows, |t.headers|)[i];
    SqlValues.ValuesAreUnambiguous(row, ";");
    Behind(Head(d, table, t.headers), SqlValues.ValuesText(row), ");", InsertStatement(d, table, t.headers, row));
    assert ")" + ";" == ");";
  }

  lemma Behind(a: string, b: string, c: string, s: string)
    ensures s == a + b + c ==> a <= s && s[|a|..] == b + c
  {
  }
}
