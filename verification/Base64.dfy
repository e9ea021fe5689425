/**
 The hand-written base64 encoder and decoder (section 4 of RFC 4648).

 The encoder cuts three bytes at a time; the decoder shifts six bits at a time into an accumulator
 and takes a byte out as soon as it holds eight bits. Both are tied to one reference: the number a
 sequence of digits denotes, in base 256 for bytes and in base 64 for sextets.
 */
module Base64 {
  import opened Prelude
  import opened Text
  import Utf8

  type sextet = v: int | 0 <= v < 64

  /** The bit counts that can be left in the decoder's accumulator between two characters. */
  type leftover = b: int | b == 0 || b == 2 || b == 4 || b == 6

  // ------------------------------------------------------------------ reference

  /** The number that `b` denotes in base 256, most significant byte first. */
  function BytesValue(b: seq<byte>): nat {
    if b == [] then 0 else BytesValue(b[..|b| - 1]) * 256 + b[|b| - 1]
  }

  /** The number that `v` denotes in base 64, most significant sextet first. */
  function SextetsValue(v: seq<sextet>): nat {
    if v == [] then 0 else SextetsValue(v[..|v| - 1]) * 64 + v[|v| - 1]
  }

  /** `1 << bits`. */
  function Pow2(bits: leftover): (r: nat)
    ensures r > 0
  {
    if bits == 0 then 1 else if bits == 2 then 4 else if bits == 4 then 16 else 64
  }

  /** `value << bits`. */
  function Shl(value: nat, bits: leftover): nat {
    if bits == 0 then value else if bits == 2 then value * 4 else if bits == 4 then value * 16 else value * 64
  }

  lemma {:induction false} BytesValueInjective(a: seq<byte>, b: seq<byte>)
    requires |a| == |b| && BytesValue(a) == BytesValue(b)
    ensures a == b
  {
    if a != [] {
      var n := |a| - 1;
      BytesValueInjective(a[..n], b[..n]);
      assert a == a[..n] + [a[n]] && b == b[..n] + [b[n]];
    }
  }

  lemma BytesValueSnoc(b: seq<byte>, x: byte)
    ensures BytesValue(b + [x]) == BytesValue(b) * 256 + x
  {
    assert (b + [x])[..|b|] == b;
  }

  lemma SextetsValueSnoc(v: seq<sextet>, x: sextet)
    ensures SextetsValue(v + [x]) == SextetsValue(v) * 64 + x
  {
    assert (v + [x])[..|v|] == v;
  }

  // ------------------------------------------------------------------ alphabet

  /** Entry `v` of the encoding alphabet. */
  function SextetChar(v: sextet): char {
    if v < 26 then (v + 'A' as int) as char
    else if v < 52 then (v - 26 + 'a' as int) as char
    else if v < 62 then (v - 52 + '0' as int) as char
    else if v == 62 then '+'
    else '/'
  }

  /** Entry `b` of the decoding table; -1 marks a byte that is skipped. Bytes from 128 on, which
      the 128-entry table does not have, are refused before it is used. */
  function TableEntry(b: byte): (v: int)
    ensures -1 <= v < 64
  {
    if 'A' as int <= b <= 'Z' as int then b - 'A' as int
    else if 'a' as int <= b <= 'z' as int then b - 'a' as int + 26
    else if '0' as int <= b <= '9' as int then b - '0' as int + 52
    else if b == '+' as int then 62
    else if b == '/' as int then 63
    else -1
  }

  /** The table finds the sextet of every alphabet character again. */
  lemma TableInvertsAlphabet(v: sextet)
    ensures var c := SextetChar(v);
            && IsAsciiChar(c) && !IsWhitespace(c) && c != '='
            && TableEntry(c as int) == v
  {
  }

  /** Consecutive characters. */
  predicate Rising(s: string, first: char, length: nat) {
    |s| == length && forall i :: 0 <= i < |s| ==> s[i] as int == first as int + i
  }

  lemma Upper()
    ensures Rising("ABCDEFGHIJKLMNOPQRSTUVWXYZ", 'A', 26)
  {
  }

  lemma Lower()
    ensures Rising("abcdefghijklmnopqrstuvwxyz", 'a', 26)
  {
  }

  lemma InOrder(upper: string, lower: string, digits: string, others: string, v: sextet)
    requires Rising(upper, 'A', 26) && Rising(lower, 'a', 26) && Rising(digits, '0', 10) && others == "+/"
    ensures |upper + lower + digits + others| == 64 && SextetChar(v) == (upper + lower + digits + others)[v]
  {
  }

  /** The alphabet of section 4 of RFC 4648. */
  lemma AlphabetIs(v: sextet)
    ensures SextetChar(v) == ("ABCDEFGHIJKLMNOPQRSTUVWXYZ" + "abcdefghijklmnopqrstuvwxyz" + "0123456789" + "+/")[v]
  {
    Upper();
    Lower();
    InOrder("ABCDEFGHIJKLMNOPQRSTUVWXYZ", "abcdefghijklmnopqrstuvwxyz", "0123456789", "+/", v);
  }

  /** The table finds the characters of the alphabet and no others. */
  lemma TableIff(b: byte, v: sextet)
    ensures TableEntry(b) == v <==> SextetChar(v) as int == b
  {
  }

  function SextetChars(v: seq<sextet>): (s: string) {
    seq(|v|, i requires 0 <= i < |v| => SextetChar(v[i]))
  }

  // ------------------------------------------------------------------ bit operations on words

  function Power(k: nat): (p: nat)
    ensures p >= 1
  {
    if k == 0 then 1 else 2 * Power(k - 1)
  }

  /** `a | b`, bit by bit. */
  function Or(a: nat, b: nat): nat
    decreases a + b
  {
    if a == 0 && b == 0 then 0 else 2 * Or(a / 2, b / 2) + (if a % 2 == 1 || b % 2 == 1 then 1 else 0)
  }

  /** `a & b`, bit by bit. */
  function And(a: nat, b: nat): nat {
    if a == 0 then 0 else 2 * And(a / 2, b / 2) + (if a % 2 == 1 && b % 2 == 1 then 1 else 0)
  }

  /** `a << k` on 32 bits. */
  function ShiftLeft(a: nat, k: nat): nat {
    a * Power(k) % 0x1_0000_0000
  }

  /** `a >> k`. */
  function ShiftRight(a: nat, k: nat): nat {
    if k == 0 then a else ShiftRight(a / 2, k - 1)
  }

  lemma {:induction false} OrZero(a: nat)
    ensures Or(a, 0) == a
  {
    if a > 0 {
      OrZero(a / 2);
    }
  }

  lemma TwiceProduct(a: nat, p: nat, b: nat)
    ensures b < 2 * p ==> a * (2 * p) == 2 * (a * p) && b / 2 < p
  {
  }

  /** Bits that do not overlap are added. */
  lemma {:induction false} OrIsSum(a: nat, k: nat, b: nat)
    requires b < Power(k)
    ensures Or(a * Power(k), b) == a * Power(k) + b
  {
    if k == 0 {
      OrZero(a);
    } else {
      TwiceProduct(a, Power(k - 1), b);
      OrIsSum(a, k - 1, b / 2);
      OrHalves(a * Power(k - 1), b);
    }
  }

  lemma OrHalves(h: nat, b: nat)
    ensures Or(h, b / 2) == h + b / 2 ==> Or(2 * h, b) == 2 * h + b
  {
  }

  lemma {:induction false} AndZero(a: nat)
    ensures And(a, 0) == 0
  {
    if a > 0 {
      AndZero(a / 2);
    }
  }

  lemma ModDouble(n: nat, m: nat)
    requires m > 0
    ensures n % (2 * m) == 2 * (n / 2 % m) + n % 2
    ensures n / (2 * m) == n / 2 / m
  {
    var q, r := n / 2 / m, n / 2 % m;
    QuotientParts(n / 2, m);
    assert n == 2 * (n / 2) + n % 2;
    assert q * (2 * m) == 2 * (q * m);
    DivModUnique(n, 2 * m, q, 2 * r + n % 2);
  }

  /** Masking the low bits is taking the remainder. */
  lemma {:induction false} MaskIsRemainder(n: nat, k: nat, p: nat)
    requires p == Power(k)
    ensures And(n, p - 1) == n % p
  {
    if k == 0 {
      AndZero(n);
    } else {
      var q := Power(k - 1);
      MaskIsRemainder(n / 2, k - 1, q);
      ModDouble(n, q);
      MaskHalves(n, q);
    }
  }

  lemma {:induction false} ShiftIsQuotient(n: nat, k: nat, p: nat)
    requires p == Power(k)
    ensures ShiftRight(n, k) == n / p
  {
    if k == 0 {
      DivModUnique(n, 1, n, 0);
    } else {
      ShiftIsQuotient(n / 2, k - 1, Power(k - 1));
      ModDouble(n, Power(k - 1));
    }
  }

  lemma MaskHalves(n: nat, p: nat)
    requires p >= 1
    ensures And(n, 2 * p - 1) == 2 * And(n / 2, p - 1) + n % 2
  {
    assert (2 * p - 1) / 2 == p - 1 && (2 * p - 1) % 2 == 1;
    if n == 0 {
      assert And(0, p - 1) == 0;
    }
  }

  lemma Powers()
    ensures Power(6) == 0x40 && Power(8) == 0x100 && Power(12) == 0x1000 && Power(16) == 0x10000 && Power(18) == 0x40000
  {
    assert Power(4) == 16;
    assert Power(8) == 16 * Power(4);
    assert Power(12) == 16 * Power(8);
    assert Power(16) == 16 * Power(12);
  }

  // ------------------------------------------------------------------ encoder

  /** The 24-bit word of three bytes. */
  function Word(b0: byte, b1: byte, b2: byte): nat {
    (b0 as int) * 0x10000 + (b1 as int) * 0x100 + b2
  }

  /** The four characters of a word that holds `k` bytes of data. */
  function WordChars(n: nat, k: nat): string {
    [SextetChar(n / 0x40000 % 64), SextetChar(n / 0x1000 % 64),
     if k > 1 then SextetChar(n / 0x40 % 64) else '=',
     if k > 2 then SextetChar(n % 64) else '=']
  }

  /** One step of the encoder: up to three bytes become four characters. */
  function EncodeChunk(c: seq<byte>): string
    requires 1 <= |c| <= 3
  {
    WordChars(Word(c[0], if |c| > 1 then c[1] else 0, if |c| > 2 then c[2] else 0), |c|)
  }

  function Encoded(d: seq<byte>): string {
    if d == [] then ""
    else if |d| <= 3 then EncodeChunk(d)
    else EncodeChunk(d[..3]) + Encoded(d[3..])
  }

  lemma WordIsOr(b0: byte, b1: byte, b2: byte)
    ensures Or(Or(ShiftLeft(b0, 16), ShiftLeft(b1, 8)), b2) == Word(b0, b1, b2)
  {
    Powers();
    ShiftedByte(b0, 16, 0x10000);
    ShiftedByte(b1, 8, 0x100);
    OrIsSum(b0, 16, b1 * 0x100);
    OrIsSum(b0 * 0x100 + b1, 8, b2);
    Regroup3(b0, b1, b2);
  }

  lemma ShiftedByte(b: byte, k: nat, p: nat)
    requires p == Power(k) && p <= 0x10000
    ensures ShiftLeft(b, k) == b * p
  {
    var n := b * p;
    assert 0 <= n < 0x1_0000_0000;
    DivModUnique(n, 0x1_0000_0000, 0, n);
  }

  lemma Regroup3(b0: byte, b1: byte, b2: byte)
    ensures (b0 * 0x100 + b1) * 0x100 + b2 == Word(b0, b1, b2)
    ensures b0 * 0x10000 + b1 * 0x100 == (b0 * 0x100 + b1) * 0x100
  {
  }

  lemma GroupOf(n: nat, k: nat, p: nat)
    requires p == Power(k)
    ensures And(ShiftRight(n, k), 0x3F) == n / p % 64
  {
    Powers();
    ShiftIsQuotient(n, k, p);
    MaskIsRemainder(ShiftRight(n, k), 6, 0x40);
  }

  /** The word and its four groups, as the shifts and masks of the code compute them. */
  lemma BitOperations(b0: byte, b1: byte, b2: byte)
    ensures var n := Or(Or(ShiftLeft(b0, 16), ShiftLeft(b1, 8)), b2);
            && n == Word(b0, b1, b2)
            && And(ShiftRight(n, 18), 0x3F) == n / 0x40000 % 64
            && And(ShiftRight(n, 12), 0x3F) == n / 0x1000 % 64
            && And(ShiftRight(n, 6), 0x3F) == n / 0x40 % 64
            && And(n, 0x3F) == n % 64
  {
    var n := Word(b0, b1, b2);
    WordIsOr(b0, b1, b2);
    Powers();
    GroupOf(n, 18, 0x40000);
    GroupOf(n, 12, 0x1000);
    GroupOf(n, 6, 0x40);
    MaskIsRemainder(n, 6, 0x40);
  }

  /** Up to three bytes. */
  method EncodeQuad(chunk: seq<byte>) returns (quad: string)
    requires 1 <= |chunk| <= 3
    ensures quad == EncodeChunk(chunk)
  {
    var b0, b1, b2 := chunk[0], if |chunk| > 1 then chunk[1] else 0, if |chunk| > 2 then chunk[2] else 0;
    var n := Or(Or(ShiftLeft(b0, 16), ShiftLeft(b1, 8)), b2);
    BitOperations(b0, b1, b2);
    quad := [
      SextetChar(And(ShiftRight(n, 18), 0x3F)), SextetChar(And(ShiftRight(n, 12), 0x3F)),
      if |chunk| > 1 then SextetChar(And(ShiftRight(n, 6), 0x3F)) else '=',
      if |chunk| > 2 then SextetChar(And(n, 0x3F)) else '='];
  }

  method Encode(data: seq<byte>) returns (result: string)
    ensures result == Encoded(data)
  {
    result := "";
    var i := 0;
    while i < |data|
      invariant 0 <= i <= |data|
      invariant result + Encoded(data[i..]) == Encoded(data)
    {
      var next := Min(i + 3, |data|);
      var chunk := data[i..next];
      assert |data| - i > 3 ==> data[i..][..3] == chunk && data[i..][3..] == data[next..];
      assert |data| - i <= 3 ==> data[i..] == chunk && data[next..] == [];
      var quad := EncodeQuad(chunk);
      result := result + quad;
      i := next;
    }
  }

  /** The shifts and masks of the 32-bit code are the divisions of this model. */
  lemma ShiftsAreDivisions(b0: bv32, b1: bv32, b2: bv32)
    requires b0 < 256 && b1 < 256 && b2 < 256
    ensures var n := (b0 << 16) | (b1 << 8) | b2;
            && n == b0 * 0x10000 + b1 * 0x100 + b2
            && (n >> 18) & 0x3F == n / 0x40000 % 64
            && (n >> 12) & 0x3F == n / 0x1000 % 64
            && (n >> 6) & 0x3F == n / 0x40 % 64
            && n & 0x3F == n % 64
  {
  }

  /** The bits of up to three bytes in groups of six, the last group filled up with zero bits. */
  function ChunkSextets(c: seq<byte>): seq<sextet>
    requires 1 <= |c| <= 3
  {
    if |c| == 1 then [c[0] / 4, c[0] % 4 * 16]
    else if |c| == 2 then [c[0] / 4, c[0] % 4 * 16 + c[1] / 16, c[1] % 16 * 4]
    else [c[0] / 4, c[0] % 4 * 16 + c[1] / 16, c[1] % 16 * 4 + c[2] / 64, c[2] % 64]
  }

  function SextetsOf(d: seq<byte>): seq<sextet> {
    if d == [] then []
    else if |d| <= 3 then ChunkSextets(d)
    else ChunkSextets(d[..3]) + SextetsOf(d[3..])
  }

  /** Padding for `n` bytes: one `=` for each byte missing from the last group of three. */
  function Padding(n: nat): string {
    if n == 1 then "==" else if n == 2 then "=" else if n <= 3 then "" else Padding(n - 3)
  }

  lemma CutInSextets(b0: byte, b1: byte, b2: byte)
    ensures Word(b0, b1, b2) / 0x40000 % 64 == b0 / 4
    ensures Word(b0, b1, b2) / 0x1000 % 64 == b0 % 4 * 16 + b1 / 16
    ensures Word(b0, b1, b2) / 0x40 % 64 == b1 % 16 * 4 + b2 / 64
    ensures Word(b0, b1, b2) % 64 == b2 % 64
  {
    var n := Word(b0, b1, b2);
    assert n / 0x40000 == b0 / 4;
    assert n / 0x1000 == (b0 as int) * 16 + b1 / 16;
    assert n / 0x40 == (b0 as int) * 0x400 + (b1 as int) * 4 + b2 / 64;
  }

  lemma WordCharsOf(n: nat, v: seq<sextet>)
    requires 2 <= |v| <= 4
    requires v[0] == n / 0x40000 % 64 && v[1] == n / 0x1000 % 64
    requires |v| > 2 ==> v[2] == n / 0x40 % 64
    requires |v| > 3 ==> v[3] == n % 64
    ensures WordChars(n, |v| - 1) == SextetChars(v) + Padding(|v| - 1)
  {
  }

  lemma EncodeChunkSextets(c: seq<byte>)
    requires 1 <= |c| <= 3
    ensures EncodeChunk(c) == SextetChars(ChunkSextets(c)) + Padding(|c|)
  {
    var b1, b2 := if |c| > 1 then c[1] else 0, if |c| > 2 then c[2] else 0;
    CutInSextets(c[0], b1, b2);
    WordCharsOf(Word(c[0], b1, b2), ChunkSextets(c));
  }

  lemma SextetCharsAppend(v: seq<sextet>, w: seq<sextet>)
    ensures SextetChars(v + w) == SextetChars(v) + SextetChars(w)
  {
  }

  /** The encoding is the sextets of the data, then padding to a multiple of four characters. */
  lemma {:induction false} EncodedIsSextets(d: seq<byte>)
    ensures Encoded(d) == SextetChars(SextetsOf(d)) + Padding(|d|)
  {
    if d == [] {
    } else if |d| <= 3 {
      EncodeChunkSextets(d);
    } else {
      var first, rest := ChunkSextets(d[..3]), SextetsOf(d[3..]);
      EncodeChunkSextets(d[..3]);
      EncodedIsSextets(d[3..]);
      SextetCharsAppend(first, rest);
    }
  }

  lemma {:induction false} PaddingLength(n: nat)
    ensures |Padding(n)| == 2 - (n + 2) % 3
    ensures forall c <- Padding(n) :: c == '='
  {
    if n > 3 {
      PaddingLength(n - 3);
    }
  }

  lemma {:induction false} GroupsOfFour(d: seq<byte>)
    ensures |SextetsOf(d)| + |Padding(|d|)| == (|d| + 2) / 3 * 4
  {
    if |d| > 3 {
      GroupsOfFour(d[3..]);
      OneGroupMore(|d|);
      assert |SextetsOf(d)| == 4 + |SextetsOf(d[3..])|;
    }
  }

  lemma OneGroupMore(n: nat)
    ensures n >= 3 ==> (n + 2) / 3 * 4 == 4 + (n - 3 + 2) / 3 * 4
  {
  }

  /** Four characters for every three bytes or part of them, and at the end one `=` for each byte that the last three
      lack. */
  lemma EncodedLength(d: seq<byte>)
    ensures |Encoded(d)| == (|d| + 2) / 3 * 4
    ensures forall i :: 0 <= i < |Encoded(d)| ==> (Encoded(d)[i] == '=' <==> i >= |Encoded(d)| - (2 - (|d| + 2) % 3))
  {
    var v := SextetsOf(d);
    EncodedIsSextets(d);
    GroupsOfFour(d);
    PaddingLength(|d|);
    forall i | 0 <= i < |v|
      ensures SextetChar(v[i]) != '='
    {
      TableInvertsAlphabet(v[i]);
    }
    assert forall i :: |v| <= i < |Encoded(d)| ==> Encoded(d)[i] == Padding(|d|)[i - |v|];
  }

  /** The zero bits that fill the last sextet of `n` bytes. */
  function FillBits(n: nat): leftover {
    if n == 1 then 4 else if n == 2 then 2 else if n <= 3 then 0 else FillBits(n - 3)
  }

  lemma ChunkArithmetic(n: nat, c0: byte, c1: byte, c2: byte)
    ensures (n * 64 + c0 / 4) * 64 + c0 % 4 * 16 == (n * 256 + c0) * 16
    ensures ((n * 64 + c0 / 4) * 64 + c0 % 4 * 16 + c1 / 16) * 64 + c1 % 16 * 4
            == ((n * 256 + c0) * 256 + c1) * 4
    ensures (((n * 64 + c0 / 4) * 64 + c0 % 4 * 16 + c1 / 16) * 64 + c1 % 16 * 4 + c2 / 64) * 64 + c2 % 64
            == ((n * 256 + c0) * 256 + c1) * 256 + c2
  {
  }

  lemma SextetsValueSnoc2(s: seq<sextet>, x: sextet, y: sextet)
    ensures SextetsValue(s + [x, y]) == (SextetsValue(s) * 64 + x) * 64 + y
  {
    SextetsValueSnoc(s, x);
    SextetsValueSnoc(s + [x], y);
    assert s + [x, y] == s + [x] + [y];
  }

  lemma BytesValueSnoc2(b: seq<byte>, x: byte, y: byte)
    ensures BytesValue(b + [x, y]) == (BytesValue(b) * 256 + x) * 256 + y
  {
    BytesValueSnoc(b, x);
    BytesValueSnoc(b + [x], y);
    assert b + [x, y] == b + [x] + [y];
  }

  lemma OneByteValue(s: seq<sextet>, b: seq<byte>, x: byte)
    requires SextetsValue(s) == BytesValue(b)
    ensures SextetsValue(s + ChunkSextets([x])) == Shl(BytesValue(b + [x]), 4)
  {
    ChunkArithmetic(BytesValue(b), x, 0, 0);
    SextetsValueSnoc2(s, x / 4, x % 4 * 16);
    BytesValueSnoc(b, x);
  }

  lemma TwoByteValue(s: seq<sextet>, b: seq<byte>, x: byte, y: byte)
    requires SextetsValue(s) == BytesValue(b)
    ensures SextetsValue(s + ChunkSextets([x, y])) == Shl(BytesValue(b + [x, y]), 2)
  {
    var v0: sextet, v1: sextet, v2: sextet := x / 4, x % 4 * 16 + y / 16, y % 16 * 4;
    ChunkArithmetic(BytesValue(b), x, y, 0);
    SextetsValueSnoc2(s, v0, v1);
    SextetsValueSnoc(s + [v0, v1], v2);
    assert s + [v0, v1, v2] == s + [v0, v1] + [v2];
    BytesValueSnoc2(b, x, y);
  }

  lemma ThreeByteValue(s: seq<sextet>, b: seq<byte>, x: byte, y: byte, z: byte)
    requires SextetsValue(s) == BytesValue(b)
    ensures SextetsValue(s + ChunkSextets([x, y, z])) == Shl(BytesValue(b + [x, y, z]), 0)
  {
    var v0: sextet, v1: sextet, v2: sextet, v3: sextet :=
      x / 4, x % 4 * 16 + y / 16, y % 16 * 4 + z / 64, z % 64;
    ChunkArithmetic(BytesValue(b), x, y, z);
    SextetsValueSnoc2(s, v0, v1);
    SextetsValueSnoc2(s + [v0, v1], v2, v3);
    assert s + [v0, v1, v2, v3] == s + [v0, v1] + [v2, v3];
    BytesValueSnoc2(b, x, y);
    BytesValueSnoc(b + [x, y], z);
    assert b + [x, y, z] == b + [x, y] + [z];
  }

  lemma ChunkKeepsValue(s: seq<sextet>, b: seq<byte>, c: seq<byte>)
    requires SextetsValue(s) == BytesValue(b) && 1 <= |c| <= 3
    ensures SextetsValue(s + ChunkSextets(c)) == Shl(BytesValue(b + c), FillBits(|c|))
  {
    if |c| == 1 {
      assert c == [c[0]] && FillBits(|c|) == 4;
      OneByteValue(s, b, c[0]);
    } else if |c| == 2 {
      assert c == [c[0], c[1]] && FillBits(|c|) == 2;
      TwoByteValue(s, b, c[0], c[1]);
    } else {
      assert c == [c[0], c[1], c[2]] && FillBits(|c|) == 0;
      ThreeByteValue(s, b, c[0], c[1], c[2]);
    }
  }

  /** Regrouping keeps the number, up to the zero bits that fill the last sextet. */
  lemma {:induction false} SextetsKeepValue(s: seq<sextet>, b: seq<byte>, d: seq<byte>)
    requires SextetsValue(s) == BytesValue(b)
    ensures SextetsValue(s + SextetsOf(d)) == Shl(BytesValue(b + d), FillBits(|d|))
    decreases |d|
  {
    var n := |d|;
    if n == 0 {
      assert s + SextetsOf(d) == s && b + d == b;
    } else if n <= 3 {
      ChunkKeepsValue(s, b, d);
    } else {
      var c, rest := d[..3], d[3..];
      var v := ChunkSextets(c);
      ChunkKeepsValue(s, b, c);
      SextetsKeepValue(s + v, b + c, rest);
      AppendAssoc(s, v, SextetsOf(rest));
      FirstThree(b, d);
    }
  }

  lemma FirstThree(b: seq<byte>, d: seq<byte>)
    requires |d| >= 3
    ensures b + d == (b + d[..3]) + d[3..]
  {
    assert d == d[..3] + d[3..];
    AppendAssoc(b, d[..3], d[3..]);
  }

  lemma {:induction false} SextetsOfLength(d: seq<byte>)
    ensures 6 * |SextetsOf(d)| == 8 * |d| + FillBits(|d|)
    decreases |d|
  {
    if |d| > 3 {
      SextetsOfLength(d[3..]);
    }
  }

  // ------------------------------------------------------------------ decoder

  /** The decoder's state between two characters: bytes written, accumulator, bits in it. */
  datatype Accumulator = Accumulator(out: seq<byte>, buffer: nat, bits: leftover)

  /** `(n >> bits) as u8` */
  function TopByte(n: nat, bits: leftover): byte {
    n / Pow2(bits) % 256
  }

  /** `n & ((1 << bits) - 1)` */
  function LowBits(n: nat, bits: leftover): nat {
    n % Pow2(bits)
  }

  function Accumulate(a: Accumulator, v: sextet): Accumulator {
    var n := a.buffer * 64 + v;
    if a.bits + 6 >= 8 then
      var bits := a.bits + 6 - 8;
      Accumulator(a.out + [TopByte(n, bits)], LowBits(n, bits), bits)
    else
      Accumulator(a.out, n, a.bits + 6)
  }

  /** The state after the sextets `v`. */
  function Regroup(v: seq<sextet>): Accumulator {
    if v == [] then Accumulator([], 0, 0) else Accumulate(Regroup(v[..|v| - 1]), v[|v| - 1])
  }

  lemma Small(q: nat)
    ensures q < 256 ==> q % 256 == q
  {
  }

  /** Taking a byte out keeps the number, and the `u8` cast cuts nothing off. */
  lemma TakeByte(value: nat, buffer: nat, v: sextet, bits: leftover)
    requires bits >= 2 && buffer < Pow2(bits)
    ensures var n := buffer * 64 + v;
            var p := Pow2(bits - 2);
            && n / p < 256
            && TopByte(n, bits - 2) == n / p
            && LowBits(n, bits - 2) == n % p < p
            && Shl(value * 256 + n / p, bits - 2) + n % p == (Shl(value, bits) + buffer) * 64 + v
  {
    var n := buffer * 64 + v;
    Small(n / Pow2(bits - 2));
    if bits == 2 {
      assert n / 1 == n && n % 1 == 0;
    } else if bits == 4 {
      assert n == n / 4 * 4 + n % 4;
    } else {
      assert n == n / 16 * 16 + n % 16;
    }
  }

  lemma RegroupStep(a: Accumulator, v: sextet)
    requires a.buffer < Pow2(a.bits)
    ensures var r := Accumulate(a, v);
            && r.buffer < Pow2(r.bits)
            && 8 * |r.out| + r.bits == 8 * |a.out| + a.bits + 6
            && Shl(BytesValue(r.out), r.bits) + r.buffer == (Shl(BytesValue(a.out), a.bits) + a.buffer) * 64 + v
  {
    if a.bits >= 2 {
      TakeByte(BytesValue(a.out), a.buffer, v, a.bits);
      BytesValueSnoc(a.out, (a.buffer * 64 + v) / Pow2(a.bits - 2));
    }
  }

  /** The digits read so far denote the bytes written, followed by the bits in the accumulator. */
  lemma {:induction false} RegroupValue(v: seq<sextet>)
    ensures var a := Regroup(v);
            && a.buffer < Pow2(a.bits)
            && 8 * |a.out| + a.bits == 6 * |v|
            && SextetsValue(v) == Shl(BytesValue(a.out), a.bits) + a.buffer
  {
    if v != [] {
      RegroupValue(v[..|v| - 1]);
      RegroupStep(Regroup(v[..|v| - 1]), v[|v| - 1]);
    }
  }

  /** The sextets that the table finds in the first `n` bytes of `text`; other bytes are skipped. */
  function SextetsIn(text: seq<byte>, n: nat): seq<sextet>
    requires n <= |text|
  {
    if n == 0 then []
    else
      var v := TableEntry(text[n - 1]);
      if v < 0 then SextetsIn(text, n - 1) else SextetsIn(text, n - 1) + [v]
  }

  /** The characters that are decoded: no surrounding whitespace, no trailing padding. */
  function Payload(data: seq<byte>): Option<seq<byte>> {
    match Utf8.Decode(data)
    case None => None
    case Some(s) => Some(Utf8.Encode(TrimEndChar(Trim(s), '=')))
  }

  function Decoded(data: seq<byte>): Result<seq<byte>> {
    match Payload(data)
    case None => Err("Invalid base64")
    case Some(text) => DecodedText(text)
  }

  function DecodedText(text: seq<byte>): Result<seq<byte>> {
    if Utf8.AsciiBytes(text) then Ok(Regroup(SextetsIn(text, |text|)).out)
    else Err("Invalid base64 character")
  }

  lemma RegroupSnoc(v: seq<sextet>, x: sextet)
    ensures Regroup(v + [x]) == Accumulate(Regroup(v), x)
  {
    assert (v + [x])[..|v|] == v;
  }

  method Decode(data: seq<byte>) returns (r: Result<seq<byte>>)
    ensures r == Decoded(data)
  {
    var payload := Payload(data);
    if payload.None? {
      return Err("Invalid base64");
    }
    r := DecodeText(payload.value);
  }

  /** The accumulator's step, as the shifts and masks of the code compute it. */
  lemma AccumulatorBits(buffer: nat, v: sextet, bits: leftover)
    requires buffer < 64
    ensures ShiftLeft(1, bits) >= 1
    ensures var n := buffer * 64 + v;
            && Or(ShiftLeft(buffer, 6), v) == n
            && ShiftRight(n, bits) % 256 == TopByte(n, bits)
            && And(n, ShiftLeft(1, bits) - 1) == LowBits(n, bits)
  {
    var n := buffer * 64 + v;
    Powers();
    PowerOfBits(bits);
    ShiftedByte(buffer, 6, 64);
    OrIsSum(buffer, 6, v);
    ShiftIsQuotient(n, bits, Pow2(bits));
    ShiftedByte(1, bits, Pow2(bits));
    MaskIsRemainder(n, bits, Pow2(bits));
  }

  lemma PowerOfBits(bits: leftover)
    ensures Pow2(bits) == Power(bits)
  {
    assert Power(2) == 4 && Power(4) == 4 * Power(2) && Power(6) == 4 * Power(4);
  }

  /** The accumulator after one more sextet, with the results of the shifts and masks of the code. */
  lemma StepByBits(a: Accumulator, v: sextet, n: nat)
    requires a.buffer < 64 && n == Or(ShiftLeft(a.buffer, 6), v)
    ensures a.bits < 2 ==> Accumulate(a, v) == Accumulator(a.out, n, a.bits + 6)
    ensures a.bits >= 2 ==> ByteOut(a, v, n, a.bits - 2)
  {
    AccumulatorBits(a.buffer, v, if a.bits >= 2 then a.bits - 2 else a.bits);
  }

  predicate ByteOut(a: Accumulator, v: sextet, n: nat, bits: leftover) {
    && ShiftLeft(1, bits) >= 1
    && Accumulate(a, v) == Accumulator(a.out + [ShiftRight(n, bits) % 256], And(n, ShiftLeft(1, bits) - 1), bits)
  }

  /** One sextet goes in, and a byte comes out when there are eight bits. */
  method Collect(ghost a: Accumulator, buffer: nat, bits: leftover, v: sextet)
    returns (out: seq<byte>, buffer': nat, bits': leftover)
    requires a.buffer == buffer < 64 && a.bits == bits
    ensures Accumulate(a, v) == Accumulator(a.out + out, buffer', bits')
  {
    out, buffer' := [], Or(ShiftLeft(buffer, 6), v);
    StepByBits(a, v, buffer');
    assert a.out + [] == a.out;
    var collected := bits + 6;
    if collected >= 8 {
      collected := collected - 8;
      out := [ShiftRight(buffer', collected) % 256];
      buffer' := And(buffer', ShiftLeft(1, collected) - 1);
    }
    bits' := collected;
  }

  lemma BufferSmall(v: seq<sextet>)
    ensures Regroup(v).buffer < 64
  {
    RegroupValue(v);
  }

  /** The loop of `Decode`. */
  method DecodeText(text: seq<byte>) returns (r: Result<seq<byte>>)
    ensures r == DecodedText(text)
  {
    var result: seq<byte> := [];
    var buffer: nat := 0;
    var bits: leftover := 0;
    var i := 0;
    while i < |text|
      invariant 0 <= i <= |text|
      invariant forall k :: 0 <= k < i ==> text[k] < 0x80
      invariant Accumulator(result, buffer, bits) == Regroup(SextetsIn(text, i))
    {
      var ch := text[i];
      if ch >= 128 {
        return Err("Invalid base64 character");
      }
      var v := TableEntry(ch);
      if v >= 0 {
        RegroupSnoc(SextetsIn(text, i), v);
        BufferSmall(SextetsIn(text, i));
        var out, buffer', bits' := Collect(Accumulator(result, buffer, bits), buffer, bits, v);
        result, buffer, bits := result + out, buffer', bits';
      }
      i := i + 1;
    }
    return Ok(result);
  }

  lemma DivideOut(n: nat, q: nat, r: nat, bits: leftover)
    requires n == Shl(q, bits) + r && r < Pow2(bits)
    ensures n / Pow2(bits) == q
  {
  }

  lemma WholeBytes(n: nat, k: nat, bits: leftover)
    ensures n == 8 * k + bits ==> n / 8 == k && n % 8 == bits
  {
  }

  /** `out` is the whole bytes of the number that the sextets `v` denote. */
  predicate WholeBytesOf(out: seq<byte>, v: seq<sextet>) {
    && |out| == 6 * |v| / 8
    && 6 * |v| % 8 in {0, 2, 4, 6}
    && BytesValue(out) == SextetsValue(v) / Pow2(6 * |v| % 8)
  }

  lemma RegroupMeaning(v: seq<sextet>)
    ensures WholeBytesOf(Regroup(v).out, v)
  {
    var a := Regroup(v);
    RegroupValue(v);
    WholeBytes(6 * |v|, |a.out|, a.bits);
    DivideOut(SextetsValue(v), BytesValue(a.out), a.buffer, a.bits);
  }

  /** What is decoded is fixed by the sextets read: the whole bytes of the number they denote. */
  lemma DecodedMeaning(data: seq<byte>)
    requires Decoded(data).Ok?
    ensures var text := Payload(data).value;
            WholeBytesOf(Decoded(data).value, SextetsIn(text, |text|))
  {
    var text := Payload(data).value;
    RegroupMeaning(SextetsIn(text, |text|));
  }

  // ------------------------------------------------------------------ what is accepted

  lemma {:induction false} EncodedInAscii(s: string)
    ensures Utf8.AsciiBytes(Utf8.Encode(s)) <==> IsAscii(s)
  {
    if s != "" {
      var head, tail := Utf8.EncodeChar(s[0]), Utf8.Encode(s[1..]);
      EncodedInAscii(s[1..]);
      InBoth(head, tail);
      assert head[0] < 0x80 <==> IsAsciiChar(s[0]);
      assert s == [s[0]] + s[1..];
    }
  }

  lemma InBoth(a: seq<byte>, b: seq<byte>)
    ensures Utf8.AsciiBytes(a + b) <==> Utf8.AsciiBytes(a) && Utf8.AsciiBytes(b)
  {
    if Utf8.AsciiBytes(a + b) {
      assert forall i :: 0 <= i < |a| ==> (a + b)[i] == a[i];
      assert forall i :: 0 <= i < |b| ==> (a + b)[|a| + i] == b[i];
    }
  }

  lemma {:induction false} AsciiTrimmed(s: string, c: char)
    requires IsAsciiChar(c)
    ensures IsAscii(TrimEndChar(s, c)) <==> IsAscii(s)
  {
    if s != "" && s[|s| - 1] == c {
      AsciiTrimmed(s[..|s| - 1], c);
      assert s == s[..|s| - 1] + [c];
    }
  }

  /** Exactly the UTF-8 texts are accepted that are ASCII up to whitespace at their ends. In between any other character
      of ASCII is skipped. */
  lemma AcceptedIff(data: seq<byte>)
    ensures Decoded(data).Ok? <==> exists s :: data == Utf8.Encode(s) && IsAscii(Trim(s))
  {
    if s :| data == Utf8.Encode(s) && IsAscii(Trim(s)) {
      Utf8.DecodeEncode(s);
      AsciiTrimmed(Trim(s), '=');
      EncodedInAscii(TrimEndChar(Trim(s), '='));
    }
    if Decoded(data).Ok? {
      var s := Utf8.Decode(data).value;
      Utf8.EncodeDecode(data);
      AsciiTrimmed(Trim(s), '=');
      EncodedInAscii(TrimEndChar(Trim(s), '='));
      assert data == Utf8.Encode(s) && IsAscii(Trim(s));
    }
  }

  // ------------------------------------------------------------------ round trip

  lemma {:induction false} SextetsInChars(v: seq<sextet>, text: seq<byte>, n: nat)
    requires n <= |v| == |text|
    requires forall i :: 0 <= i < |v| ==> text[i] == SextetChar(v[i]) as int
    ensures SextetsIn(text, n) == v[..n]
  {
    if n > 0 {
      TableInvertsAlphabet(v[n - 1]);
      SextetsInChars(v, text, n - 1);
      assert v[..n] == v[..n - 1] + [v[n - 1]];
    }
  }

  lemma TrimPadding(body: string, n: nat)
    requires body == "" || body[|body| - 1] != '='
    ensures TrimEndChar(body + Padding(n), '=') == body
  {
    PaddingChars(n);
    TrimEndCharSame(body, '=');
    if Padding(n) == "" {
      assert body + "" == body;
    } else if Padding(n) == "=" {
      TrimEndCharStep(body, '=');
    } else {
      assert body + "==" == (body + "=") + "=";
      TrimEndCharStep(body, '=');
      TrimEndCharStep(body + "=", '=');
    }
  }

  /** Encoded text is printable ASCII, and none of its characters is a `,`, `.` or `;`. */
  lemma EncodedChars(d: seq<byte>)
    ensures IsAscii(Encoded(d)) && Tight(Encoded(d))
    ensures ',' !in Encoded(d) && '.' !in Encoded(d) && ';' !in Encoded(d)
  {
    var v, s := SextetsOf(d), Encoded(d);
    EncodedIsSextets(d);
    PaddingChars(|d|);
    forall i | 0 <= i < |s|
      ensures IsAsciiChar(s[i]) && !IsWhitespace(s[i]) && s[i] != ',' && s[i] != '.' && s[i] != ';'
    {
      if i < |v| {
        TableInvertsAlphabet(v[i]);
      } else {
        assert s[i] == '=';
      }
    }
  }

  lemma PaddingChars(n: nat)
    ensures Padding(n) == "" || Padding(n) == "=" || Padding(n) == "=="
  {
  }

  lemma PayloadOfEncoded(d: seq<byte>)
    ensures Payload(Utf8.Encode(Encoded(d))) == Some(Utf8.Encode(SextetChars(SextetsOf(d))))
  {
    var v := SextetsOf(d);
    EncodedIsSextets(d);
    EncodedChars(d);
    Utf8.DecodeEncode(Encoded(d));
    TrimIsTight(Encoded(d));
    if v != [] {
      TableInvertsAlphabet(v[|v| - 1]);
    }
    TrimPadding(SextetChars(v), |d|);
  }

  lemma UndoFill(value: nat, other: nat, buffer: nat, bits: leftover)
    ensures Shl(value, bits) == Shl(other, bits) + buffer && buffer < Pow2(bits) ==> value == other
  {
  }

  /** Cutting the sextets of `d` into bytes again gives `d`. */
  lemma RegroupSextets(d: seq<byte>)
    ensures Regroup(SextetsOf(d)).out == d
  {
    var a := Regroup(SextetsOf(d));
    RegroupValue(SextetsOf(d));
    SextetsOfLength(d);
    SameParts(|a.out|, a.bits, |d|, FillBits(|d|));
    SextetsDenote(d);
    UndoFill(BytesValue(d), BytesValue(a.out), a.buffer, a.bits);
    BytesValueInjective(a.out, d);
  }

  lemma SameParts(a: nat, b: nat, c: nat, d: nat)
    ensures 8 * a + b == 8 * c + d && b < 8 && d < 8 ==> a == c && b == d
  {
  }

  /** The sextets are the number that the bytes denote, shifted by the fill bits. */
  lemma SextetsDenote(d: seq<byte>)
    ensures SextetsValue(SextetsOf(d)) == Shl(BytesValue(d), FillBits(|d|))
  {
    SextetsKeepValue([], [], d);
    assert [] + SextetsOf(d) == SextetsOf(d) && [] + d == d;
  }

  /** Decoding undoes encoding, for every byte sequence. */
  lemma RoundTrip(d: seq<byte>)
    ensures Decoded(Utf8.Encode(Encoded(d))) == Ok(d)
  {
    var v := SextetsOf(d);
    var text := Utf8.Encode(SextetChars(v));
    PayloadOfEncoded(d);
    forall i | 0 <= i < |v| {
      TableInvertsAlphabet(v[i]);
    }
    Utf8.EncodeAscii(SextetChars(v));
    SextetsInChars(v, text, |text|);
    assert v[..|text|] == v;
    RegroupSextets(d);
  }
}
