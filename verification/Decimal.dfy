/** Decimal rendering of integers (`to_string`) and `str::parse` for the integer types. */
module Decimal {
  import opened Prelude
  import opened Text

  predicate IsDigit(c: char) {
    '0' <= c <= '9'
  }

  predicate AllDigits(s: string) {
    forall i :: 0 <= i < |s| ==> IsDigit(s[i])
  }

  function DigitChar(d: int): (c: char)
    requires 0 <= d < 10
    ensures IsDigit(c)
  {
    (d + '0' as int) as char
  }

  function NatToString(n: nat): (s: string)
    ensures s != "" && AllDigits(s)
  {
    if n < 10 then [DigitChar(n)] else NatToString(n / 10) + [DigitChar(n % 10)]
  }

  function IntToString(i: int): string {
    if i < 0 then "-" + NatToString(-i) else NatToString(i)
  }

  function DigitsValue(s: string): nat
    requires AllDigits(s)
  {
    if s == "" then 0
    else DigitsValue(s[..|s| - 1]) * 10 + (s[|s| - 1] as int - '0' as int)
  }

  /** `str::parse` for an integer type with values in `lo..hi`: one optional sign, then digits. */
  function ParseInt(s: string, lo: int, hi: int): Option<int> {
    var signed := s != "" && (s[0] == '+' || (s[0] == '-' && lo < 0));
    var digits := if signed then s[1..] else s;
    if digits == "" || !AllDigits(digits) then None
    else
      var n: int := DigitsValue(digits);
      var v := if signed && s[0] == '-' then -n else n;
      if lo <= v < hi then Some(v) else None
  }

  function ParseI32(s: string): Option<int> {
    ParseInt(s, -0x8000_0000, 0x8000_0000)
  }

  function ParseU16(s: string): Option<int> {
    ParseInt(s, 0, 0x1_0000)
  }

  /** A sign and digits: a minus only where the type has negative values. */
  predicate Spells(s: string, sign: string, digits: string, v: int, lo: int) {
    && s == sign + digits && digits != "" && AllDigits(digits)
    && (sign == "" || sign == "+" || (sign == "-" && lo < 0))
    && var n: int := DigitsValue(digits);
       v == if sign == "-" then -n else n
  }

  /** Parsing accepts exactly these spellings of the values of the type. */
  lemma ParseIntIff(s: string, lo: int, hi: int, v: int)
    ensures ParseInt(s, lo, hi) == Some(v)
            <==> lo <= v < hi && exists sign, digits :: Spells(s, sign, digits, v, lo)
  {
    var signed := s != "" && (s[0] == '+' || (s[0] == '-' && lo < 0));
    var rest := if signed then s[1..] else s;
    if ParseInt(s, lo, hi) == Some(v) {
      assert Spells(s, if signed then [s[0]] else "", rest, v, lo);
    }
    if sign, digits :| Spells(s, sign, digits, v, lo) {
      if sign == "" {
        assert s == digits && IsDigit(s[0]);
      } else {
        assert s[0] == sign[0] && s[1..] == digits;
      }
      assert rest == digits;
    }
  }

  lemma {:induction false} DigitsValueOfNat(n: nat)
    ensures DigitsValue(NatToString(n)) == n
  {
    var s := NatToString(n);
    if n >= 10 {
      DigitsValueOfNat(n / 10);
      assert s[..|s| - 1] == NatToString(n / 10);
    } else {
      assert s[..|s| - 1] == "";
    }
  }

  lemma DigitsParsed(digits: string, n: nat, lo: int, hi: int)
    requires digits != "" && AllDigits(digits) && DigitsValue(digits) == n && lo <= n < hi
    ensures ParseInt(digits, lo, hi) == Some(n)
  {
    assert IsDigit(digits[0]);
  }

  lemma NegativeParsed(s: string, digits: string, v: int, lo: int, hi: int)
    requires s != "" && s[0] == '-' && s[1..] == digits && digits != "" && AllDigits(digits)
    requires v + DigitsValue(digits) == 0 && lo <= v < hi && lo < 0
    ensures ParseInt(s, lo, hi) == Some(v)
  {
  }

  /** Parsing reads back every integer of the type's range. */
  lemma ParseIntOfString(i: int, lo: int, hi: int)
    requires lo <= i < hi && lo <= 0
    ensures ParseInt(IntToString(i), lo, hi) == Some(i)
  {
    var n: nat := if i < 0 then -i else i;
    DigitsValueOfNat(n);
    if i < 0 {
      NegativeParsed(IntToString(i), NatToString(n), i, lo, hi);
    } else {
      DigitsParsed(NatToString(n), n, lo, hi);
    }
  }

  /** A rendered integer holds only digits, after at most one minus sign. */
  lemma IntToStringChars(i: int)
    ensures IntToString(i) != ""
    ensures IsAscii(IntToString(i))
    ensures forall c <- IntToString(i) :: c == '-' || IsDigit(c)
  {
  }
}
