/** UTF-8 as Rust's `str::as_bytes` and `str::from_utf8` use it (section 3 of RFC 3629). */
module Utf8 {
  import opened Prelude
  import opened Text

  /** The scalar value is cut into groups of six bits, lowest group last. */
  function EncodeChar(c: char): (b: seq<byte>)
    ensures 1 <= |b| <= 4
  {
    var n := c as int;
    var m := n / 0x40;
    var l := m / 0x40;
    if n < 0x80 then [n]
    else if n < 0x800 then [0xC0 + m, 0x80 + n % 0x40]
    else if n < 0x10000 then [0xE0 + l, 0x80 + m % 0x40, 0x80 + n % 0x40]
    else [0xF0 + l / 0x40, 0x80 + l % 0x40, 0x80 + m % 0x40, 0x80 + n % 0x40]
  }

  function Encode(s: string): seq<byte> {
    if s == "" then [] else EncodeChar(s[0]) + Encode(s[1..])
  }

  predicate IsContinuation(b: byte) {
    0x80 <= b < 0xC0
  }

  /** The first character of `b` and its width; `None` when `b` does not start with a well-formed one. */
  function DecodeFirst(b: seq<byte>): (r: Option<(char, nat)>)
    requires b != []
    ensures r.Some? ==> 1 <= r.value.1 <= |b|
  {
    if b[0] < 0x80 then Some((b[0] as char, 1))
    else if 0xC0 <= b[0] < 0xE0 && |b| >= 2 && IsContinuation(b[1]) then
      Scalar(Group(b[0] as int - 0xC0, b[1]), 0x80, 2)
    else if 0xE0 <= b[0] < 0xF0 && |b| >= 3 && IsContinuation(b[1]) && IsContinuation(b[2]) then
      Scalar(Group(Group(b[0] as int - 0xE0, b[1]), b[2]), 0x800, 3)
    else if 0xF0 <= b[0] < 0xF8 && |b| >= 4
            && IsContinuation(b[1]) && IsContinuation(b[2]) && IsContinuation(b[3]) then
      Scalar(Group(Group(Group(b[0] as int - 0xF0, b[1]), b[2]), b[3]), 0x10000, 4)
    else None
  }

  function Group(high: int, b: byte): int {
    high * 0x40 + (b as int - 0x80)
  }

  /** Overlong forms, surrogates and values above U+10FFFF are refused. */
  function Scalar(n: int, least: int, width: nat): Option<(char, nat)>
    requires 0 <= least
  {
    if least <= n <= 0x10FFFF && !(0xD800 <= n < 0xE000) then Some((n as char, width)) else None
  }

  function Decode(b: seq<byte>): Option<string>
    decreases |b|
  {
    if b == [] then Some("")
    else
      match DecodeFirst(b)
      case None => None
      case Some((c, k)) =>
        match Decode(b[k..])
        case None => None
        case Some(s) => Some([c] + s)
  }

  lemma DecodeFirstEncodeChar(c: char, rest: seq<byte>)
    ensures DecodeFirst(EncodeChar(c) + rest) == Some((c, |EncodeChar(c)|))
  {
    var n := c as int;
    var m := n / 0x40;
    var l := m / 0x40;
    var b := EncodeChar(c) + rest;
    if 0x80 <= n < 0x800 {
      assert b[0] == 0xC0 + m && b[1] == 0x80 + n % 0x40;
      assert Group(m, b[1]) == n;
    } else if 0x800 <= n < 0x10000 {
      assert b[0] == 0xE0 + l && b[1] == 0x80 + m % 0x40 && b[2] == 0x80 + n % 0x40;
      assert Group(l, b[1]) == m && Group(m, b[2]) == n;
    } else if 0x10000 <= n {
      assert b[0] == 0xF0 + l / 0x40 && b[1] == 0x80 + l % 0x40;
      assert b[2] == 0x80 + m % 0x40 && b[3] == 0x80 + n % 0x40;
      assert Group(l / 0x40, b[1]) == l && Group(l, b[2]) == m && Group(m, b[3]) == n;
    }
  }

  /** Decoding undoes encoding, for every string. */
  lemma {:induction false} DecodeEncode(s: string)
    ensures Decode(Encode(s)) == Some(s)
  {
    if s != "" {
      var e := EncodeChar(s[0]);
      DecodeFirstEncodeChar(s[0], Encode(s[1..]));
      assert (e + Encode(s[1..]))[|e|..] == Encode(s[1..]);
      DecodeEncode(s[1..]);
      assert [s[0]] + s[1..] == s;
    }
  }

  /** A continuation byte is the low six bits of its group. */
  lemma GroupParts(high: nat, b: byte)
    ensures IsContinuation(b) ==> Group(high, b) / 0x40 == high && Group(high, b) % 0x40 == b as int - 0x80
  {
  }

  lemma EncodeCharDecodeFirst(b: seq<byte>)
    requires b != [] && DecodeFirst(b).Some?
    ensures EncodeChar(DecodeFirst(b).value.0) == b[..DecodeFirst(b).value.1]
  {
    var k := DecodeFirst(b).value.1;
    if k == 2 {
      GroupParts(b[0] as int - 0xC0, b[1]);
    } else if k == 3 {
      var m := Group(b[0] as int - 0xE0, b[1]);
      GroupParts(b[0] as int - 0xE0, b[1]);
      GroupParts(m, b[2]);
    } else if k == 4 {
      var l := Group(b[0] as int - 0xF0, b[1]);
      GroupParts(b[0] as int - 0xF0, b[1]);
      GroupParts(l, b[2]);
      GroupParts(Group(l, b[2]), b[3]);
    }
  }

  lemma DecodeStep(b: seq<byte>) returns (c: char, k: nat)
    requires b != [] && Decode(b).Some?
    ensures 1 <= k <= |b| && DecodeFirst(b) == Some((c, k))
    ensures Decode(b[k..]).Some? && Decode(b).value == [c] + Decode(b[k..]).value
  {
    c, k := DecodeFirst(b).value.0, DecodeFirst(b).value.1;
  }

  lemma EncodeBehind(b: seq<byte>, c: char, k: nat, s: string)
    requires b != [] && k <= |b| && DecodeFirst(b) == Some((c, k)) && Encode(s) == b[k..]
    ensures Encode([c] + s) == b
  {
    EncodeCharDecodeFirst(b);
    assert ([c] + s)[1..] == s;
    assert Encode([c] + s) == EncodeChar(c) + Encode(s);
    assert b[..k] + b[k..] == b;
  }

  /** Only encodings decode: a byte sequence is accepted for exactly one string, its own. */
  lemma {:induction false} EncodeDecode(b: seq<byte>)
    requires Decode(b).Some?
    ensures Encode(Decode(b).value) == b
    decreases |b|
  {
    if b != [] {
      var c, k := DecodeStep(b);
      EncodeDecode(b[k..]);
      EncodeBehind(b, c, k, Decode(b[k..]).value);
    }
  }

  lemma {:induction false} EncodeAppend(s: string, t: string)
    ensures Encode(s + t) == Encode(s) + Encode(t)
  {
    if s == "" {
      assert s + t == t;
    } else {
      assert (s + t)[1..] == s[1..] + t;
      EncodeAppend(s[1..], t);
    }
  }

  lemma {:induction false} EncodeAscii(s: string)
    requires IsAscii(s)
    ensures |Encode(s)| == |s|
    ensures forall i :: 0 <= i < |s| ==> Encode(s)[i] == s[i] as int
  {
    if s != "" {
      EncodeAscii(s[1..]);
      assert Encode(s) == [s[0] as int] + Encode(s[1..]);
    }
  }

  /** The bytes of other characters are none of ASCII. */
  lemma {:induction false} AsciiByteIn(s: string, c: char)
    requires IsAsciiChar(c) && c !in s
    ensures c as int !in Encode(s)
  {
    if s != "" {
      assert c as int !in EncodeChar(s[0]);
      AsciiByteIn(s[1..], c);
    }
  }

  predicate AsciiBytes(b: seq<byte>) {
    forall i :: 0 <= i < |b| ==> b[i] < 0x80
  }

  /** ASCII bytes are always accepted, one character per byte. */
  lemma {:induction false} DecodeAscii(b: seq<byte>)
    requires AsciiBytes(b)
    ensures Decode(b).Some?
    ensures |Decode(b).value| == |b|
    ensures forall i :: 0 <= i < |b| ==> Decode(b).value[i] as int == b[i]
    decreases |b|
  {
    if b != [] {
      DecodeAscii(b[1..]);
    }
  }

  // ------------------------------------------------------------------ byte offsets into a string

  /** `char::len_utf8`. */
  function Width(c: char): nat {
    var n := c as int;
    if n < 0x80 then 1 else if n < 0x800 then 2 else if n < 0x10000 then 3 else 4
  }

  /** `str::len`. */
  function Len(s: string): nat {
    if s == "" then 0 else Width(s[0]) + Len(s[1..])
  }

  lemma {:induction false} LenIsLength(s: string)
    ensures Len(s) == |Encode(s)|
  {
    if s != "" {
      assert Width(s[0]) == |EncodeChar(s[0])|;
      LenIsLength(s[1..]);
    }
  }

  /** The character that starts at a byte offset, or the length of `s` at its end; none when the offset
      is beyond the end or inside a character. */
  function CharIndex(s: string, offset: nat): (r: Option<nat>)
    ensures r.Some? ==> r.value <= |s|
  {
    if offset == 0 then Some(0)
    else if s == "" || offset < Width(s[0]) then None
    else
      match CharIndex(s[1..], offset - Width(s[0]))
      case None => None
      case Some(i) => Some(i + 1)
  }

  lemma {:induction false} LenAppend(s: string, t: string)
    ensures Len(s + t) == Len(s) + Len(t)
  {
    if s == "" {
      assert s + t == t;
    } else {
      assert (s + t)[1..] == s[1..] + t;
      LenAppend(s[1..], t);
    }
  }

  lemma LenSplit(s: string, i: nat)
    requires i <= |s|
    ensures Len(s) == Len(s[..i]) + Len(s[i..])
  {
    assert s == s[..i] + s[i..];
    LenAppend(s[..i], s[i..]);
  }

  /** Between two parts of a string is a boundary. */
  lemma {:induction false} IndexBetween(b: string, after: string)
    ensures CharIndex(b + after, Len(b)) == Some(|b|)
  {
    if b != "" {
      assert (b + after)[1..] == b[1..] + after;
      IndexBetween(b[1..], after);
    }
  }

  /** Inside a character is none. */
  lemma {:induction false} NoIndexInside(b: string, c: char, after: string, k: nat)
    requires 0 < k < Width(c)
    ensures CharIndex(b + ([c] + after), Len(b) + k) == None
  {
    if b == "" {
      assert "" + ([c] + after) == [c] + after;
    } else {
      assert (b + ([c] + after))[1..] == b[1..] + ([c] + after);
      NoIndexInside(b[1..], c, after, k);
    }
  }

  /** There are no other boundaries. */
  lemma {:induction false} IndexLen(s: string, offset: nat)
    requires CharIndex(s, offset).Some?
    ensures Len(s[..CharIndex(s, offset).value]) == offset
  {
    if offset > 0 {
      var i := CharIndex(s, offset).value;
      IndexLen(s[1..], offset - Width(s[0]));
      assert s[..i] == [s[0]] + s[1..][..i - 1];
      LenCons(s[0], s[1..][..i - 1]);
    }
  }

  lemma LenCons(c: char, s: string)
    ensures Len([c] + s) == Width(c) + Len(s)
  {
    assert ([c] + s)[1..] == s;
  }

  lemma LenSnoc(s: string, c: char)
    ensures Len(s + [c]) == Len(s) + Width(c)
  {
    LenAppend(s, [c]);
    assert [c] + "" == [c];
    LenCons(c, "");
  }

  lemma {:induction false} AsciiLen(s: string)
    requires IsAscii(s)
    ensures Len(s) == |s|
  {
    if s != "" {
      AsciiLen(s[1..]);
    }
  }

  /** A string has at least as many bytes as characters, and as many exactly when it is ASCII. */
  lemma {:induction false} LenAtLeast(s: string)
    ensures Len(s) >= |s|
    ensures Len(s) == |s| <==> IsAscii(s)
  {
    if s != "" {
      LenAtLeast(s[1..]);
      assert IsAscii(s) <==> IsAsciiChar(s[0]) && IsAscii(s[1..]) by {
        assert forall i :: 0 < i < |s| ==> s[i] == s[1..][i - 1];
      }
    }
  }

  /** In ASCII text, byte offsets are character positions. */
  lemma AsciiOffsets(s: string, offset: nat)
    requires IsAscii(s)
    ensures CharIndex(s, offset) == if offset <= |s| then Some(offset) else None
  {
    if offset <= |s| {
      AsciiLen(s[..offset]);
      assert s == s[..offset] + s[offset..];
      IndexBetween(s[..offset], s[offset..]);
    } else if CharIndex(s, offset).Some? {
      IndexLen(s, offset);
      AsciiLen(s[..CharIndex(s, offset).value]);
    }
  }
}
