/**
 The identifiers of a generated statement, as a database reads them: in the quotes of its dialect, where a doubled
 closing quote stands for one. The import doubles none.
 */
module SqlHeads {
  import opened CsvImport
  import opened Prelude
  import opened Text
  import SqlValues

  datatype Name = Name(name: string, rest: string)

  datatype Names = Names(names: seq<string>, rest: string)

  datatype Insert = Insert(table: string, columns: seq<string>, rest: string)

  // ------------------------------------------------------------------ a reader for identifiers

  function Opening(d: Dialect): char {
    match d case MySql => '`' case Postgres => '"' case SqlServer => '['
  }

  function Closing(d: Dialect): char {
    match d case MySql => '`' case Postgres => '"' case SqlServer => ']'
  }

  /** The name up to its closing quote. */
  function ReadName(s: string, close: char): (r: Option<Name>)
    ensures r.Some? ==> |r.value.rest| < |s|
    decreases |s|
  {
    if s == "" then None
    else if s[0] != close then Before(s[0], ReadName(s[1..], close))
    else if |s| > 1 && s[1] == close then Before(close, ReadName(s[2..], close))
    else Some(Name("", s[1..]))
  }

  function Before(c: char, r: Option<Name>): Option<Name> {
    if r.Some? then Some(Name([c] + r.value.name, r.value.rest)) else None
  }

  function ReadQuoted(s: string, open: char, close: char): (r: Option<Name>)
    ensures r.Some? ==> |r.value.rest| < |s|
  {
    if s != "" && s[0] == open then ReadName(s[1..], close) else None
  }

  /** Names with commas between them. */
  function ReadNames(s: string, open: char, close: char): Option<Names>
    decreases |s|
  {
    match ReadQuoted(s, open, close)
    case None => None
    case Some(n) =>
      if ", " <= n.rest then FirstName(n.name, ReadNames(n.rest[2..], open, close)) else Some(Names([n.name], n.rest))
  }

  function FirstName(name: string, r: Option<Names>): Option<Names> {
    if r.Some? then Some(Names([name] + r.value.names, r.value.rest)) else None
  }

  /** What follows a word of the statement. */
  function Behind(word: string, s: string): Option<string> {
    if word <= s then Some(s[|word|..]) else None
  }

  /** The table, the columns and what follows `VALUES (`. */
  function ReadInsert(s: string, open: char, close: char): Option<Insert> {
    match Behind("INSERT INTO ", s)
    case None => None
    case Some(a) =>
      match ReadQuoted(a, open, close)
      case None => None
      case Some(table) =>
        match Behind(" (", table.rest)
        case None => None
        case Some(b) => WithTable(table.name, ReadNames(b, open, close))
  }

  function WithTable(table: string, r: Option<Names>): Option<Insert> {
    match r
    case None => None
    case Some(columns) =>
      match Behind(") VALUES (", columns.rest)
      case None => None
      case Some(rest) => Some(Insert(table, columns.names, rest))
  }

  // ------------------------------------------------------------------ reading back

  lemma {:induction false} NameReadBack(name: string, close: char, rest: string)
    requires close !in name && (rest == "" || rest[0] != close)
    ensures ReadName(name + ([close] + rest), close) == Some(Name(name, rest))
  {
    var s := name + ([close] + rest);
    if name == "" {
      assert s == [close] + rest && s[1..] == rest;
    } else {
      NameReadBack(name[1..], close, rest);
      assert s[1..] == name[1..] + ([close] + rest);
      assert [name[0]] + name[1..] == name;
    }
  }

  lemma QuotedReadBack(name: string, open: char, close: char, rest: string, s: string)
    requires close !in name && (rest == "" || rest[0] != close) && s == [open] + (name + ([close] + rest))
    ensures ReadQuoted(s, open, close) == Some(Name(name, rest))
  {
    NameReadBack(name, close, rest);
    assert s[1..] == name + ([close] + rest);
  }

  /** The names as they are printed. */
  function NamesText(names: seq<string>, open: char, close: char): string
    requires names != []
  {
    [open] + (names[0] + [close]) + (if |names| == 1 then "" else ", " + NamesText(names[1..], open, close))
  }

  lemma {:induction false} JoinedNames(names: seq<string>, open: char, close: char, sep: string)
    requires names != [] && sep == [close] + ", " + [open]
    ensures [open] + Join(names, sep) + [close] == NamesText(names, open, close)
  {
    if |names| > 1 {
      JoinedNames(names[1..], open, close, sep);
      JoinStep(names, sep);
    }
  }

  predicate ReadsNames(s: string, open: char, close: char, names: seq<string>, rest: string) {
    ReadNames(s, open, close) == Some(Names(names, rest))
  }

  predicate Without(names: seq<string>, close: char) {
    forall n <- names :: close !in n
  }

  lemma LastName(name: string, open: char, close: char, rest: string, s: string)
    requires close !in name && (rest == "" || rest[0] != close) && !(", " <= rest)
    requires s == [open] + (name + ([close] + rest))
    ensures ReadsNames(s, open, close, [name], rest)
  {
    QuotedReadBack(name, open, close, rest, s);
  }

  lemma OneMoreName(name: string, open: char, close: char, later: string, names: seq<string>, rest: string, s: string)
    requires close !in name && close != ',' && ReadsNames(later, open, close, names, rest)
    requires s == [open] + (name + ([close] + (", " + later)))
    ensures ReadsNames(s, open, close, [name] + names, rest)
  {
    QuotedReadBack(name, open, close, ", " + later, s);
    assert (", " + later)[2..] == later;
  }

  lemma {:induction false} NamesReadBack(names: seq<string>, open: char, close: char, rest: string)
    requires names != [] && Without(names, close) && close != ','
    requires (rest == "" || rest[0] != close) && !(", " <= rest)
    ensures ReadsNames(NamesText(names, open, close) + rest, open, close, names, rest)
  {
    if |names| == 1 {
      assert names == [names[0]];
      QuotedThen([open], names[0], [close], "", rest);
      LastName(names[0], open, close, rest, NamesText(names, open, close) + rest);
    } else {
      var later := NamesText(names[1..], open, close);
      NamesReadBack(names[1..], open, close, rest);
      QuotedThen([open], names[0], [close], ", " + later, rest);
      AppendAssoc(", ", later, rest);
      OneMoreName(names[0], open, close, later + rest, names[1..], rest, NamesText(names, open, close) + rest);
      assert names == [names[0]] + names[1..];
    }
  }

  lemma QuotedThen(o: string, name: string, c: string, later: string, rest: string)
    ensures o + (name + c) + later + rest == o + (name + (c + (later + rest)))
  {
  }

  // ------------------------------------------------------------------ what is lost

  function Count(s: string, c: char): nat {
    if s == "" then 0 else (if s[0] == c then 1 else 0) + Count(s[1..], c)
  }

  lemma {:induction false} CountZeroIff(s: string, c: char)
    ensures Count(s, c) == 0 <==> c !in s
  {
    if s != "" {
      CountZeroIff(s[1..], c);
      assert c in s <==> c == s[0] || c in s[1..];
    }
  }

  /** Every closing quote in a name that is read took two characters. */
  lemma {:induction false} NameTakes(s: string, close: char)
    ensures ReadName(s, close).Some? ==>
              var n := ReadName(s, close).value;
              |s| == |n.name| + Count(n.name, close) + 1 + |n.rest|
    decreases |s|
  {
    if s != "" && s[0] != close {
      NameTakes(s[1..], close);
      CountBefore(s[0], s[1..], close);
    } else if |s| > 1 && s[1] == close {
      NameTakes(s[2..], close);
      CountBefore(close, s[2..], close);
    }
  }

  lemma CountBefore(c: char, s: string, close: char)
    ensures ReadName(s, close).Some? ==>
              var v := ReadName(s, close).value.name;
              Count([c] + v, close) == (if c == close then 1 else 0) + Count(v, close)
  {
    if ReadName(s, close).Some? {
      var v := ReadName(s, close).value.name;
      assert ([c] + v)[1..] == v;
    }
  }

  function Marks(names: seq<string>, close: char): nat {
    if names == [] then 0 else Count(names[0], close) + Marks(names[1..], close)
  }

  /** The length of names as they are printed. */
  function Width(names: seq<string>): int {
    if names == [] then -2 else |names[0]| + 4 + Width(names[1..])
  }

  lemma {:induction false} NamesTake(s: string, open: char, close: char)
    ensures ReadNames(s, open, close).Some? ==>
              var n := ReadNames(s, open, close).value;
              n.names != [] && |s| == Width(n.names) + Marks(n.names, close) + |n.rest|
    decreases |s|
  {
    if ReadQuoted(s, open, close).Some? {
      NameTakes(s[1..], close);
      var n := ReadQuoted(s, open, close).value;
      if ", " <= n.rest {
        NamesTake(n.rest[2..], open, close);
        if ReadNames(n.rest[2..], open, close).Some? {
          ConsWidth(n.name, ReadNames(n.rest[2..], open, close).value.names, close);
        }
      } else {
        ConsWidth(n.name, [], close);
        assert [n.name] + [] == [n.name];
      }
    }
  }

  lemma ConsWidth(name: string, names: seq<string>, close: char)
    ensures Width([name] + names) == |name| + 4 + Width(names)
    ensures Marks([name] + names, close) == Count(name, close) + Marks(names, close)
  {
    assert ([name] + names)[1..] == names;
  }

  lemma {:induction false} NamesWidth(names: seq<string>, open: char, close: char)
    requires names != []
    ensures |NamesText(names, open, close)| == Width(names)
  {
    if |names| > 1 {
      NamesWidth(names[1..], open, close);
    }
  }

  lemma {:induction false} MarksZeroIff(names: seq<string>, close: char)
    ensures Marks(names, close) == 0 <==> Without(names, close)
  {
    if names != [] {
      CountZeroIff(names[0], close);
      MarksZeroIff(names[1..], close);
      assert forall n <- names :: n == names[0] || n in names[1..];
    }
  }

  // ------------------------------------------------------------------ the whole head

  predicate Reads(s: string, open: char, close: char, i: Insert) {
    ReadInsert(s, open, close) == Some(i)
  }

  function HeadLength(i: Insert): int {
    |i.table| + Width(i.columns) + |i.rest| + 26
  }

  lemma InsertTakes(s: string, open: char, close: char)
    ensures ReadInsert(s, open, close).Some? ==>
              var i := ReadInsert(s, open, close).value;
              |s| == HeadLength(i) + Count(i.table, close) + Marks(i.columns, close)
  {
    if ReadInsert(s, open, close).Some? {
      var a := Behind("INSERT INTO ", s).value;
      NameTakes(a[1..], close);
      NamesTake(Behind(" (", ReadQuoted(a, open, close).value.rest).value, open, close);
    }
  }

  /** The words and names of a statement, one after the other. */
  predicate Printed(s: string, a: string, b: string, columns: string, open: char, close: char, i: Insert)
    requires i.columns != []
  {
    && s == "INSERT INTO " + a
    && a == [open] + (i.table + ([close] + (" (" + b)))
    && b == NamesText(i.columns, open, close) + columns
    && columns == ") VALUES (" + i.rest
  }

  lemma BehindWord(word: string, s: string, rest: string)
    ensures s == word + rest ==> Behind(word, s) == Some(rest)
  {
  }

  lemma PrintedIsRead(s: string, a: string, b: string, columns: string, open: char, close: char, i: Insert)
    requires i.columns != [] && Printed(s, a, b, columns, open, close, i)
    requires close !in " (),"
    requires close !in i.table && Without(i.columns, close)
    ensures Reads(s, open, close, i)
  {
    BehindWord("INSERT INTO ", s, a);
    QuotedReadBack(i.table, open, close, " (" + b, a);
    BehindWord(" (", " (" + b, b);
    NamesReadBack(i.columns, open, close, columns);
    BehindWord(") VALUES (", columns, i.rest);
  }

  lemma PrintedLength(s: string, a: string, b: string, columns: string, open: char, close: char, i: Insert)
    requires i.columns != [] && Printed(s, a, b, columns, open, close, i)
    ensures |s| == HeadLength(i)
  {
    NamesWidth(i.columns, open, close);
  }

  lemma PrintedIff(s: string, a: string, b: string, columns: string, open: char, close: char, i: Insert)
    requires i.columns != [] && Printed(s, a, b, columns, open, close, i) && close !in " (),"
    ensures Reads(s, open, close, i) <==> close !in i.table && Without(i.columns, close)
  {
    PrintedLength(s, a, b, columns, open, close, i);
    InsertTakes(s, open, close);
    CountZeroIff(i.table, close);
    MarksZeroIff(i.columns, close);
    if close !in i.table && Without(i.columns, close) {
      PrintedIsRead(s, a, b, columns, open, close, i);
    }
  }

  lemma StatementParts(w: string, o: string, table: string, c: string, p: string, names: string, v: string,
                       rest: string, end: string)
    ensures w + o + table + c + p + o + names + c + v + rest + end
         == w + (o + (table + (c + (p + ((o + names + c) + (v + (rest + end)))))))
  {
  }

  /** In every statement of every dialect the table and the columns are read back from the head, and the values stand
      behind them, if and only if no identifier holds the closing quote of the dialect. */
  lemma IdentifiersIff(d: Dialect, table: string, headers: seq<string>, row: seq<string>)
    requires headers != []
    ensures ReadInsert(InsertStatement(d, table, headers, row), Opening(d), Closing(d))
         == Some(Insert(table, headers, SqlValues.ValuesText(row) + ");"))
       <==> Closing(d) !in table && forall h <- headers :: Closing(d) !in h
  {
    var open, close, values := Opening(d), Closing(d), SqlValues.ValuesText(row);
    var o, c := [open], [close];
    assert o == OpenQuote(d) && c == CloseQuote(d);
    StatementParts("INSERT INTO ", o, table, c, " (", Join(headers, c + ", " + o), ") VALUES (", values, ");");
    JoinedNames(headers, open, close, c + ", " + o);
    var i := Insert(table, headers, values + ");");
    var columns := ") VALUES (" + i.rest;
    var b := NamesText(headers, open, close) + columns;
    var a := o + (table + (c + (" (" + b)));
    PrintedIff(InsertStatement(d, table, headers, row), a, b, columns, open, close, i);
  }
}
