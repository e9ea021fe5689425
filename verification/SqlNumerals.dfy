/**
 Which fields become NULL, which stay bare numbers and which become strings, spelled out character by character.
 The import asks a number parser for the second group; here its language is generated by a grammar.
 */
module SqlNumerals {
  import opened Decimal
  import opened Prelude
  import opened SqlValues
  import opened Text

  // ------------------------------------------------------------------ NULL

  /** Nothing, or the four letters in any case. */
  predicate SpellsNull(v: string) {
    v == "" || (|v| == 4 && v[0] in "nN" && v[1] in "uU" && v[2] in "lL" && v[3] in "lL")
  }

  lemma {:induction false} LowerAt(s: string, i: nat)
    requires i < |s|
    ensures AsciiLowerString(s)[i] == AsciiLower(s[i])
  {
    if i > 0 {
      LowerAt(s[1..], i - 1);
    }
  }

  /** Letter by letter: `lower` is a word of small letters. */
  predicate InAnyCase(s: string, lower: string) {
    |s| == |lower| && forall i :: 0 <= i < |s| ==> s[i] == lower[i] || s[i] as int + 32 == lower[i] as int
  }

  predicate SmallLetters(s: string) {
    forall i :: 0 <= i < |s| ==> 'a' <= s[i] <= 'z'
  }

  lemma AnyCaseIff(s: string, lower: string)
    requires SmallLetters(lower)
    ensures AsciiLowerString(s) == lower <==> InAnyCase(s, lower)
  {
    if |s| == |lower| {
      forall i | 0 <= i < |s|
        ensures AsciiLowerString(s)[i] == AsciiLower(s[i])
      {
        LowerAt(s, i);
      }
      assert AsciiLowerString(s) == lower <==> forall i :: 0 <= i < |s| ==> AsciiLowerString(s)[i] == lower[i];
    }
  }

  lemma NullTextIff(v: string)
    ensures IsNullText(v) <==> SpellsNull(v)
  {
    AnyCaseIff(v, "null");
    assert |v| == 4 ==> (InAnyCase(v, "null") <==> SpellsNull(v));
  }

  /** A field becomes NULL exactly when it is empty or spells the word. */
  lemma NullIff(v: string)
    ensures LiteralOf(v) == Bare("NULL") <==> SpellsNull(v)
  {
    NullTextIff(v);
  }

  // ------------------------------------------------------------------ numbers

  datatype Exponent = Exponent(mark: char, sign: string, digits: string)

  datatype Numeral =
    | Decimal(sign: string, whole: string, fraction: Option<string>, exponent: Option<Exponent>)
    | Special(sign: string, word: string)

  predicate IsSign(s: string) {
    s == "" || s == "+" || s == "-"
  }

  predicate Digits(s: string) {
    forall i :: 0 <= i < |s| ==> s[i] in "0123456789"
  }

  predicate IsExponentOf(e: Exponent) {
    e.mark in "eE" && IsSign(e.sign) && Digits(e.digits) && e.digits != ""
  }

  /** A digit in front of the point or behind it; an exponent has one too. */
  predicate IsNumeral(n: Numeral) {
    match n
    case Decimal(sign, whole, fraction, exponent) =>
      && IsSign(sign) && Digits(whole)
      && (whole == "" ==> fraction.Some? && fraction.value != "")
      && (fraction.Some? ==> Digits(fraction.value))
      && (exponent.Some? ==> IsExponentOf(exponent.value))
    case Special(sign, word) =>
      IsSign(sign) && (InAnyCase(word, "inf") || InAnyCase(word, "infinity") || InAnyCase(word, "nan"))
  }

  function Mantissa(whole: string, fraction: Option<string>): string {
    match fraction
    case None => whole
    case Some(digits) => whole + "." + digits
  }

  function Suffix(exponent: Option<Exponent>): string {
    match exponent
    case None => ""
    case Some(e) => [e.mark] + e.sign + e.digits
  }

  function Spelling(n: Numeral): string {
    match n
    case Decimal(sign, whole, fraction, exponent) => sign + (Mantissa(whole, fraction) + Suffix(exponent))
    case Special(sign, word) => sign + word
  }

  lemma DigitsIff(s: string)
    ensures Digits(s) <==> AllDigits(s)
  {
  }

  lemma SignTaken(sign: string, s: string)
    requires IsSign(sign) && (s == "" || (s[0] != '+' && s[0] != '-'))
    ensures Unsigned(sign + s) == s
  {
    if sign == "" {
      assert sign + s == s;
    } else {
      assert (sign + s)[1..] == s;
    }
  }

  lemma SignGiven(s: string) returns (sign: string)
    ensures IsSign(sign) && s == sign + Unsigned(s)
  {
    if Unsigned(s) == s {
      sign := "";
    } else {
      sign := [s[0]];
    }
  }

  lemma MantissaRead(whole: string, fraction: Option<string>, s: string)
    requires Digits(whole) && (fraction.Some? ==> Digits(fraction.value))
    requires whole == "" ==> fraction.Some? && fraction.value != ""
    requires s == Mantissa(whole, fraction)
    ensures IsMantissa(s)
  {
    DigitsIff(whole);
    if fraction.Some? {
      assert s[..|whole|] == whole && s[|whole|] == '.' && s[|whole| + 1..] == fraction.value;
      IndexOfUnique(s, '.', |whole|);
      DigitsIff(fraction.value);
    } else {
      assert '.' !in s && s[..|s|] == s;
    }
  }

  lemma MantissaGiven(s: string) returns (whole: string, fraction: Option<string>)
    requires IsMantissa(s)
    ensures Digits(whole) && (fraction.Some? ==> Digits(fraction.value))
    ensures whole == "" ==> fraction.Some? && fraction.value != ""
    ensures s == Mantissa(whole, fraction)
  {
    var p := IndexOf(s, '.');
    whole := s[..p];
    DigitsIff(whole);
    if p < |s| {
      fraction := Some(s[p + 1..]);
      DigitsIff(fraction.value);
      assert s == whole + "." + fraction.value;
    } else {
      fraction := None;
      assert s == whole;
    }
  }

  // ------------------------------------------------------------------ numbers with an exponent

  lemma ExponentRead(e: Exponent)
    requires IsExponentOf(e)
    ensures IsExponent(e.sign + e.digits)
  {
    DigitsIff(e.digits);
    SignTaken(e.sign, e.digits);
  }

  /** Where the exponent of `m` begins: nothing before it is a letter. */
  predicate NoMark(m: string) {
    'e' !in m && 'E' !in m
  }

  lemma FirstMark(m: string, mark: char, tail: string, s: string)
    requires NoMark(m) && mark in "eE" && s == m + [mark] + tail
    ensures Min(IndexOf(s, 'e'), IndexOf(s, 'E')) == |m| && s[..|m|] == m && s[|m| + 1..] == tail
  {
    assert s[..|m|] == m && s[|m|] == mark && s[|m| + 1..] == tail;
    IndexOfUnique(s, mark, |m|);
    OtherLater(s, 'e', |m|);
    OtherLater(s, 'E', |m|);
  }

  lemma OtherLater(s: string, c: char, n: nat)
    requires n <= |s| && c !in s[..n]
    ensures IndexOf(s, c) >= n
  {
    forall k | 0 <= k < n
      ensures s[k] != c
    {
      assert s[..n][k] == s[k];
    }
  }

  lemma MantissaHasNoMark(whole: string, fraction: Option<string>)
    requires Digits(whole) && (fraction.Some? ==> Digits(fraction.value))
    ensures NoMark(Mantissa(whole, fraction))
  {
  }

  predicate IsUnsigned(s: string) {
    s != "" && s[0] != '+' && s[0] != '-'
  }

  predicate MantissaOf(m: string, whole: string, fraction: Option<string>) {
    && Digits(whole)
    && (whole == "" ==> fraction.Some? && fraction.value != "")
    && (fraction.Some? ==> Digits(fraction.value))
    && m == Mantissa(whole, fraction)
  }

  lemma MantissaIsUnsigned(m: string, whole: string, fraction: Option<string>)
    requires MantissaOf(m, whole, fraction)
    ensures IsUnsigned(m) && IsMantissa(m) && NoMark(m)
  {
    MantissaRead(whole, fraction, m);
    MantissaHasNoMark(whole, fraction);
  }

  lemma WholeNumber(m: string, s: string)
    requires IsUnsigned(m) && IsMantissa(m) && NoMark(m) && s == m + ""
    ensures IsNumber(s) && IsUnsigned(s)
  {
    assert s == m && s[..|s|] == s;
  }

  lemma ScaledNumber(m: string, mark: char, power: string, s: string)
    requires IsUnsigned(m) && IsMantissa(m) && NoMark(m) && mark in "eE" && IsExponent(power)
    requires s == m + [mark] + power
    ensures IsNumber(s) && IsUnsigned(s)
  {
    FirstMark(m, mark, power, s);
  }

  lemma NumberRead(whole: string, fraction: Option<string>, exponent: Option<Exponent>, m: string, s: string)
    requires MantissaOf(m, whole, fraction) && (exponent.Some? ==> IsExponentOf(exponent.value))
    requires s == m + Suffix(exponent)
    ensures IsNumber(s) && IsUnsigned(s)
  {
    MantissaIsUnsigned(m, whole, fraction);
    match exponent
    case None => WholeNumber(m, s);
    case Some(e) =>
      ExponentRead(e);
      AppendAssoc([e.mark], e.sign, e.digits);
      AppendAssoc(m, [e.mark], e.sign + e.digits);
      ScaledNumber(m, e.mark, e.sign + e.digits, s);
  }

  lemma ExponentGiven(mark: char, power: string) returns (e: Exponent)
    requires mark in "eE" && IsExponent(power)
    ensures IsExponentOf(e) && Suffix(Some(e)) == [mark] + power
  {
    var sign := SignGiven(power);
    var digits := Unsigned(power);
    DigitsIff(digits);
    AppendAssoc([mark], sign, digits);
    e := Exponent(mark, sign, digits);
  }

  lemma NumberGiven(s: string) returns (whole: string, fraction: Option<string>, exponent: Option<Exponent>)
    requires IsNumber(s)
    ensures MantissaOf(Mantissa(whole, fraction), whole, fraction) && (exponent.Some? ==> IsExponentOf(exponent.value))
    ensures s == Mantissa(whole, fraction) + Suffix(exponent)
  {
    var e := Min(IndexOf(s, 'e'), IndexOf(s, 'E'));
    whole, fraction := MantissaGiven(s[..e]);
    if e < |s| {
      var x := ExponentGiven(s[e], s[e + 1..]);
      exponent := Some(x);
      CutAt(s, e);
    } else {
      exponent := None;
      assert s == s[..e] + "";
    }
  }

  lemma CutAt(s: string, e: nat)
    requires e < |s|
    ensures s == s[..e] + ([s[e]] + s[e + 1..])
  {
  }

  // ------------------------------------------------------------------ the language of the number parser

  lemma SpecialIff(s: string)
    ensures IsSpecial(s) <==> InAnyCase(s, "inf") || InAnyCase(s, "infinity") || InAnyCase(s, "nan")
  {
    AnyCaseIff(s, "inf");
    AnyCaseIff(s, "infinity");
    AnyCaseIff(s, "nan");
  }

  lemma NumeralRead(n: Numeral)
    requires IsNumeral(n)
    ensures ParsesAsF64(Spelling(n))
  {
    match n
    case Decimal(sign, whole, fraction, exponent) =>
      var s := Mantissa(whole, fraction) + Suffix(exponent);
      NumberRead(whole, fraction, exponent, Mantissa(whole, fraction), s);
      SignTaken(sign, s);
    case Special(sign, word) =>
      SpecialIff(word);
      SignTaken(sign, word);
  }

  lemma NumeralGiven(v: string) returns (n: Numeral)
    requires ParsesAsF64(v)
    ensures IsNumeral(n) && Spelling(n) == v
  {
    var sign := SignGiven(v);
    if IsNumber(Unsigned(v)) {
      var whole, fraction, exponent := NumberGiven(Unsigned(v));
      n := Decimal(sign, whole, fraction, exponent);
    } else {
      SpecialIff(Unsigned(v));
      n := Special(sign, Unsigned(v));
    }
  }

  /** A numeral of the grammar is spelled so. */
  ghost predicate IsNumeralText(v: string) {
    exists n :: IsNumeral(n) && Spelling(n) == v
  }

  /** The literal of every field: NULL for the spellings of it, the field itself for the numerals of the grammar, and
      for everything else a string of exactly the field's characters. */
  lemma LiteralExact(v: string)
    ensures SpellsNull(v) ==> LiteralOf(v) == Bare("NULL")
    ensures !SpellsNull(v) && IsNumeralText(v) ==> LiteralOf(v) == Bare(v)
    ensures !SpellsNull(v) && !IsNumeralText(v) ==> LiteralOf(v) == Text(v)
  {
    NullTextIff(v);
    NumeralTextIff(v);
  }

  lemma NumeralTextIff(v: string)
    ensures IsNumeralText(v) <==> ParsesAsF64(v)
  {
    if ParsesAsF64(v) {
      var n := NumeralGiven(v);
    } else if n :| IsNumeral(n) && Spelling(n) == v {
      NumeralRead(n);
    }
  }

  /** Every integer, with or without a fraction, stays a number. */
  lemma IntegersAreBare(i: int, digits: string)
    requires Digits(digits)
    ensures LiteralOf(IntToString(i)) == Bare(IntToString(i))
    ensures LiteralOf(IntToString(i) + "." + digits) == Bare(IntToString(i) + "." + digits)
  {
    var sign, whole := if i < 0 then "-" else "", NatToString(if i < 0 then -i else i);
    assert IntToString(i) == sign + whole;
    DigitsIff(whole);
    NumeralIsBare(Decimal(sign, whole, None, None), IntToString(i));
    AppendAssoc(sign, whole, "." + digits);
    NumeralIsBare(Decimal(sign, whole, Some(digits), None), IntToString(i) + "." + digits);
  }

  lemma NumeralIsBare(n: Numeral, v: string)
    requires IsNumeral(n) && n.Decimal? && Spelling(n) == v
    ensures LiteralOf(v) == Bare(v)
  {
    NotNull(v, n.sign, n.whole, n.fraction, n.exponent);
    LiteralExact(v);
  }

  lemma NotNull(v: string, sign: string, whole: string, fraction: Option<string>, exponent: Option<Exponent>)
    requires IsSign(sign) && MantissaOf(Mantissa(whole, fraction), whole, fraction)
    requires v == sign + (Mantissa(whole, fraction) + Suffix(exponent))
    ensures !SpellsNull(v)
  {
    assert v[0] == if sign != "" then sign[0] else Mantissa(whole, fraction)[0];
    assert v[0] in "+-.0123456789";
  }

  /** A field with a character that no numeral has is a string, unless it spells NULL. */
  lemma OtherCharactersAreText(v: string, i: nat)
    requires i < |v| && v[i] !in "0123456789.+-eEiInNfFtTyYaA" && !SpellsNull(v)
    ensures LiteralOf(v) == Text(v)
  {
    if n: Numeral :| IsNumeral(n) && Spelling(n) == v {
      NumeralChars(n);
      assert false;
    }
    LiteralExact(v);
  }

  lemma NumeralChars(n: Numeral)
    requires IsNumeral(n)
    ensures forall i :: 0 <= i < |Spelling(n)| ==> Spelling(n)[i] in "0123456789.+-eEiInNfFtTyYaA"
  {
    match n
    case Decimal(_, _, _, _) =>
    case Special(sign, word) =>
      WordChars(word, "inf");
      WordChars(word, "infinity");
      WordChars(word, "nan");
  }

  lemma WordChars(word: string, lower: string)
    requires forall i :: 0 <= i < |lower| ==> lower[i] in "infty" || lower[i] == 'a'
    ensures InAnyCase(word, lower) ==> forall i :: 0 <= i < |word| ==> word[i] in "iInNfFtTyYaA"
  {
    if InAnyCase(word, lower) {
      forall i | 0 <= i < |word|
        ensures word[i] in "iInNfFtTyYaA"
      {
        assert word[i] == lower[i] || word[i] as int + 32 == lower[i] as int;
        EitherCase(word[i], lower[i]);
      }
    }
  }

  lemma EitherCase(c: char, lower: char)
    requires lower in "infty" || lower == 'a'
    ensures c == lower || c as int + 32 == lower as int ==> c in "iInNfFtTyYaA"
  {
  }
}
