/** SQL literals for imported fields, and the INSERT statements built from them. */
module SqlValues {
  import opened Prelude
  import opened Text
  import opened Decimal

  // ------------------------------------------------------------------ numbers

  /** `str::parse::<f64>` accepts a signed decimal number or a signed special value. */
  predicate ParsesAsF64(s: string) {
    IsNumber(Unsigned(s)) || IsSpecial(Unsigned(s))
  }

  function Unsigned(s: string): string {
    if s != "" && (s[0] == '+' || s[0] == '-') then s[1..] else s
  }

  predicate IsSpecial(s: string) {
    var l := AsciiLowerString(s);
    l == "inf" || l == "infinity" || l == "nan"
  }

  /** Digits with at most one point among them, at least one digit, then perhaps an exponent. */
  predicate IsNumber(s: string) {
    var e := Min(IndexOf(s, 'e'), IndexOf(s, 'E'));
    && IsMantissa(s[..e])
    && (e < |s| ==> IsExponent(s[e + 1..]))
  }

  predicate IsMantissa(s: string) {
    var p := IndexOf(s, '.');
    && AllDigits(s[..p])
    && (p == |s| ==> p > 0)
    && (p < |s| ==> AllDigits(s[p + 1..]) && |s| > 1)
  }

  predicate IsExponent(s: string) {
    Unsigned(s) != "" && AllDigits(Unsigned(s))
  }

  /** The characters of a number or a special value. */
  predicate BareChar(c: char) {
    IsDigit(c) || c == '+' || c == '-' || c == '.' || 'a' <= c <= 'z' || 'A' <= c <= 'Z'
  }

  predicate BareChars(s: string) {
    forall i :: 0 <= i < |s| ==> BareChar(s[i])
  }

  predicate IsBareWord(s: string) {
    s != "" && BareChars(s)
  }

  lemma WordParts(s: string, e: nat)
    requires e < |s| && BareChar(s[e])
    requires BareChars(s[..e]) && BareChars(s[e + 1..])
    ensures IsBareWord(s)
  {
    forall i | 0 <= i < |s| ensures BareChar(s[i]) {
      if i < e {
        assert s[..e][i] == s[i];
      } else if i > e {
        assert s[e + 1..][i - e - 1] == s[i];
      }
    }
  }

  lemma MantissaIsWord(s: string)
    requires IsMantissa(s)
    ensures IsBareWord(s)
  {
    var p := IndexOf(s, '.');
    if p < |s| {
      WordParts(s, p);
    } else {
      assert s[..p] == s;
    }
  }

  lemma UnsignedChars(s: string)
    requires BareChars(Unsigned(s))
    ensures BareChars(s)
  {
    if Unsigned(s) != s {
      assert s == [s[0]] + Unsigned(s);
    }
  }

  lemma NumberIsWord(s: string)
    requires IsNumber(s)
    ensures IsBareWord(s)
  {
    var e := Min(IndexOf(s, 'e'), IndexOf(s, 'E'));
    MantissaIsWord(s[..e]);
    if e < |s| {
      UnsignedChars(s[e + 1..]);
      WordParts(s, e);
    } else {
      assert s[..e] == s;
    }
  }

  lemma {:induction false} LowerChars(s: string)
    requires BareChars(AsciiLowerString(s))
    ensures BareChars(s)
  {
    if s != "" {
      var l := AsciiLowerString(s);
      assert l[0] == AsciiLower(s[0]) && l[1..] == AsciiLowerString(s[1..]);
      LowerChars(s[1..]);
    }
  }

  /** What parses as a number is one word: no quote, comma, parenthesis or space in it. */
  lemma F64IsWord(s: string)
    requires ParsesAsF64(s)
    ensures IsBareWord(s)
  {
    if IsNumber(Unsigned(s)) {
      NumberIsWord(Unsigned(s));
    } else {
      LowerChars(Unsigned(s));
    }
    UnsignedChars(s);
  }

  // ------------------------------------------------------------------ literals

  predicate IsNullText(v: string) {
    v == "" || AsciiLowerString(v) == "null"
  }

  /** Every single quote doubled. */
  function DoubleSingleQuotes(v: string): string {
    if v == "" then "" else (if v[0] == '\'' then "''" else [v[0]]) + DoubleSingleQuotes(v[1..])
  }

  function EscapeSqlValue(v: string): string {
    if IsNullText(v) then "NULL"
    else if ParsesAsF64(v) then v
    else "'" + DoubleSingleQuotes(v) + "'"
  }

  function Escaped(row: seq<string>): (r: seq<string>)
    ensures |r| == |row|
  {
    seq(|row|, i requires 0 <= i < |row| => EscapeSqlValue(row[i]))
  }

  function ValuesText(row: seq<string>): string {
    Join(Escaped(row), ", ")
  }

  // ------------------------------------------------------------------ a reader for literal lists

  /** A literal as a database reads it: a bare word, or a string. */
  datatype Literal = Bare(word: string) | Text(value: string)

  /** The string up to its closing quote, with doubled quotes read as one, and what follows. */
  function ScanString(s: string): (r: Option<(string, string)>)
    ensures r.Some? ==> |r.value.1| < |s|
    decreases |s|
  {
    if s == "" then None
    else if s[0] != '\'' then
      match ScanString(s[1..])
      case None => None
      case Some((v, rest)) => Some(([s[0]] + v, rest))
    else if |s| > 1 && s[1] == '\'' then
      match ScanString(s[2..])
      case None => None
      case Some((v, rest)) => Some((['\''] + v, rest))
    else Some(("", s[1..]))
  }

  /** The length of the bare word at the front. */
  function WordLength(s: string): (n: nat)
    ensures n <= |s|
  {
    if s != "" && BareChar(s[0]) then 1 + WordLength(s[1..]) else 0
  }

  /** One literal: a quoted string, or a bare word. */
  function ScanLiteral(s: string): (r: Option<(Literal, string)>)
    ensures r.Some? ==> |r.value.1| < |s|
  {
    if s != "" && s[0] == '\'' then
      match ScanString(s[1..])
      case None => None
      case Some((v, rest)) => Some((Text(v), rest))
    else
      var n := WordLength(s);
      if n == 0 then None else Some((Bare(s[..n]), s[n..]))
  }

  /** The literals up to the first closing parenthesis outside a string, and what follows it. */
  function ReadLiterals(s: string): Option<(seq<Literal>, string)>
    decreases |s|
  {
    match ScanLiteral(s)
    case None => None
    case Some((l, rest)) =>
      if rest != "" && rest[0] == ')' then Some(([l], rest[1..]))
      else if ", " <= rest then FirstLiteral(l, ReadLiterals(rest[2..]))
      else None
  }

  function FirstLiteral(l: Literal, r: Option<(seq<Literal>, string)>): Option<(seq<Literal>, string)> {
    match r
    case None => None
    case Some((ls, rest)) => Some(([l] + ls, rest))
  }

  /** The literal a field stands for. */
  function LiteralOf(v: string): Literal {
    if IsNullText(v) then Bare("NULL") else if ParsesAsF64(v) then Bare(v) else Text(v)
  }

  function LiteralsOf(row: seq<string>): seq<Literal> {
    seq(|row|, i requires 0 <= i < |row| => LiteralOf(row[i]))
  }

  lemma {:induction false} ScanQuoted(v: string, rest: string)
    requires rest != "" ==> rest[0] != '\''
    ensures ScanString(DoubleSingleQuotes(v) + "'" + rest) == Some((v, rest))
  {
    var s := DoubleSingleQuotes(v) + "'" + rest;
    if v == "" {
      assert s == "'" + rest && s[1..] == rest;
    } else {
      var tail := DoubleSingleQuotes(v[1..]) + "'" + rest;
      ScanQuoted(v[1..], rest);
      assert [v[0]] + v[1..] == v;
      if v[0] == '\'' {
        assert s == "''" + tail && s[2..] == tail;
      } else {
        assert s == [v[0]] + tail && s[1..] == tail;
      }
    }
  }

  /** Behind a literal comes a comma or the closing parenthesis. */
  predicate EndsLiteral(rest: string) {
    rest != "" && (rest[0] == ',' || rest[0] == ')')
  }

  lemma ScanText(v: string, rest: string)
    requires EndsLiteral(rest)
    ensures ScanLiteral("'" + DoubleSingleQuotes(v) + "'" + rest) == Some((Text(v), rest))
  {
    var tail := DoubleSingleQuotes(v) + "'" + rest;
    ScanQuoted(v, rest);
    assert "'" + DoubleSingleQuotes(v) + "'" + rest == "'" + tail;
    assert ("'" + tail)[1..] == tail;
  }

  /** A printed field is read back as its literal, up to the separator or the end. */
  lemma ScanField(v: string, rest: string)
    requires EndsLiteral(rest)
    ensures ScanLiteral(EscapeSqlValue(v) + rest) == Some((LiteralOf(v), rest))
  {
    if IsNullText(v) {
      ScanWord("NULL", rest);
    } else if ParsesAsF64(v) {
      F64IsWord(v);
      ScanWord(v, rest);
    } else {
      ScanText(v, rest);
    }
  }

  lemma {:induction false} WordLengthOf(w: string, rest: string)
    requires BareChars(w) && EndsLiteral(rest)
    ensures WordLength(w + rest) == |w|
  {
    if w == "" {
      assert w + rest == rest;
    } else {
      assert (w + rest)[1..] == w[1..] + rest;
      WordLengthOf(w[1..], rest);
    }
  }

  lemma ScanWord(w: string, rest: string)
    requires IsBareWord(w) && EndsLiteral(rest)
    ensures ScanLiteral(w + rest) == Some((Bare(w), rest))
  {
    WordLengthOf(w, rest);
    assert (w + rest)[..|w|] == w && (w + rest)[|w|..] == rest && (w + rest)[0] == w[0];
  }

  /** The text is read as the literal wherever it stands in a list. */
  ghost predicate ReadsAs(part: string, l: Literal) {
    forall rest :: EndsLiteral(rest) ==> ScanLiteral(part + rest) == Some((l, rest))
  }

  predicate ReadsList(s: string, ls: seq<Literal>, rest: string) {
    ReadLiterals(s) == Some((ls, rest))
  }

  ghost predicate ReadEach(parts: seq<string>, ls: seq<Literal>) {
    |parts| == |ls| && forall i :: 0 <= i < |parts| ==> ReadsAs(parts[i], ls[i])
  }

  lemma ReadTail(parts: seq<string>, ls: seq<Literal>)
    requires parts != [] && ReadEach(parts, ls)
    ensures ReadsAs(parts[0], ls[0]) && ReadEach(parts[1..], ls[1..]) && ls == [ls[0]] + ls[1..]
  {
  }

  lemma {:induction false} ReadJoined(parts: seq<string>, ls: seq<Literal>, tail: string, sep: string, end: string)
    requires parts != [] && ReadEach(parts, ls) && sep == [',', ' '] && end == [')'] + tail
    ensures ReadsList(Join(parts, sep) + end, ls, tail)
  {
    ReadTail(parts, ls);
    if |parts| == 1 {
      LastLiteral(parts[0], ls[0], tail, end);
      assert ls == [ls[0]];
    } else {
      ReadJoined(parts[1..], ls[1..], tail, sep, end);
      OneMoreRead(parts, ls, tail, sep, end);
    }
  }

  lemma OneMoreRead(parts: seq<string>, ls: seq<Literal>, tail: string, sep: string, end: string)
    requires |parts| > 1 && |ls| > 1 && sep == [',', ' '] && ReadsAs(parts[0], ls[0])
    requires ReadsList(Join(parts[1..], sep) + end, ls[1..], tail)
    ensures ReadsList(Join(parts, sep) + end, [ls[0]] + ls[1..], tail)
  {
    var later := Join(parts[1..], sep);
    JoinStep(parts, sep);
    NextLiteral(parts[0], ls[0], later + end, ls[1..], tail, sep + (later + end));
    Regrouped(parts[0], sep, later, end);
  }

  lemma Regrouped(a: string, b: string, c: string, d: string)
    ensures a + (b + c) + d == a + (b + (c + d))
  {
  }

  lemma LastLiteral(part: string, l: Literal, tail: string, rest: string)
    requires ReadsAs(part, l) && rest == [')'] + tail
    ensures ReadsList(part + rest, [l], tail)
  {
    assert EndsLiteral(rest) && rest[1..] == tail;
  }

  lemma NextLiteral(part: string, l: Literal, later: string, ls: seq<Literal>, tail: string, rest: string)
    requires ReadsAs(part, l) && rest == [',', ' '] + later && ReadsList(later, ls, tail)
    ensures ReadsList(part + rest, [l] + ls, tail)
  {
    assert EndsLiteral(rest) && rest[2..] == later;
  }

  /** The values are read back as one literal per field, in order, and no field ends the list early: the
      first closing parenthesis outside a string is the one behind the values, whatever follows it. */
  lemma ValuesAreUnambiguous(row: seq<string>, tail: string)
    requires row != []
    ensures ReadLiterals(ValuesText(row) + (")" + tail)) == Some((LiteralsOf(row), tail))
  {
    forall i | 0 <= i < |row|
      ensures ReadsAs(Escaped(row)[i], LiteralsOf(row)[i])
    {
      forall rest: string | EndsLiteral(rest) {
        ScanField(row[i], rest);
      }
    }
    ReadJoined(Escaped(row), LiteralsOf(row), tail, ", ", ")" + tail);
  }

  /** Two fields give the same literal only when they are equal or both stand for NULL. */
  lemma OnlyNullsCollapse(u: string, v: string)
    ensures LiteralOf(u) == LiteralOf(v) <==> u == v || (IsNullText(u) && IsNullText(v))
  {
    if IsNullText(u) != IsNullText(v) && LiteralOf(u) == LiteralOf(v) {
      var w := if IsNullText(u) then v else u;
      assert w == "NULL";
      assert AsciiLowerString("NULL") == "null" by {
        LowerOfNull();
      }
      assert false;
    }
  }

  lemma LowerOfNull()
    ensures AsciiLowerString("NULL") == "null"
  {
    assert "NULL"[1..] == "ULL" && "ULL"[1..] == "LL" && "LL"[1..] == "L" && "L"[1..] == "";
  }

  /** So the text determines the row, field by field, up to NULL. */
  lemma SameValuesSameRow(r: seq<string>, s: seq<string>)
    requires r != [] && s != []
    ensures ValuesText(r) == ValuesText(s) <==>
            |r| == |s| && forall i :: 0 <= i < |r| ==> r[i] == s[i] || (IsNullText(r[i]) && IsNullText(s[i]))
  {
    if ValuesText(r) == ValuesText(s) {
      ValuesAreUnambiguous(r, "");
      ValuesAreUnambiguous(s, "");
      assert |LiteralsOf(r)| == |LiteralsOf(s)|;
      forall i | 0 <= i < |r|
        ensures r[i] == s[i] || (IsNullText(r[i]) && IsNullText(s[i]))
      {
        assert LiteralsOf(r)[i] == LiteralsOf(s)[i];
        OnlyNullsCollapse(r[i], s[i]);
      }
    }
    if |r| == |s| && forall i :: 0 <= i < |r| ==> r[i] == s[i] || (IsNullText(r[i]) && IsNullText(s[i])) {
      assert Escaped(r) == Escaped(s);
    }
  }

  // ------------------------------------------------------------------ bare words that are no SQL literal

  /** Standard SQL knows NULL, signed numbers and strings; it has no literal for infinities or NaN. */
  predicate IsStandard(l: Literal) {
    l.Text? || l.word == "NULL" || IsNumber(Unsigned(l.word))
  }

  /** A field gives a standard literal exactly when it is no (signed) spelling of infinity or NaN. */
  lemma StandardIff(v: string)
    ensures IsStandard(LiteralOf(v)) <==> !IsSpecial(Unsigned(v))
  {
    if IsSpecial(Unsigned(v)) {
      SpecialIsNoNumber(v);
    }
  }

  lemma SpecialIsNoNumber(v: string)
    requires IsSpecial(Unsigned(v))
    ensures !IsNumber(Unsigned(v)) && !IsNullText(v) && v != "NULL"
  {
    var u := Unsigned(v);
    LowerOfNull();
    assert AsciiLowerString(u)[0] == AsciiLower(u[0]);
    if IsNumber(u) {
      NumberStart(u);
    }
    if u != v {
      assert AsciiLowerString(v)[0] == AsciiLower(v[0]);
    }
  }

  lemma NumberStart(s: string)
    requires IsNumber(s)
    ensures s != "" && (IsDigit(s[0]) || s[0] == '.')
  {
    var m := s[..Min(IndexOf(s, 'e'), IndexOf(s, 'E'))];
    MantissaIsWord(m);
    var p := IndexOf(m, '.');
    assert m[0] == s[0];
    if p > 0 {
      assert m[..p][0] == s[0];
    }
  }
}
