/**
 The language of the streaming parser. A length is the decimal count of the characters, perhaps behind zeros; apart
 from those zeros, what is found at the front of a buffer is exactly what is encoded.
 */
module PeekGrammar {
  import opened Decimal
  import opened Prelude
  import opened StreamingParser
  import opened Text
  import Utf8

  // ------------------------------------------------------------------ the grammar

  function Zeros(z: nat): seq<byte> {
    seq(z, i => '0' as int)
  }

  predicate IsLength(d: seq<byte>, z: nat, n: nat) {
    d == Zeros(z) + Utf8.Encode(NatToString(n))
  }

  /** An element with `z` zeros in front of its length. */
  function ZeroedElement(z: nat, value: string): seq<byte> {
    Zeros(z) + Utf8.Encode(NatToString(|value|)) + ([ELEM_SEP] + Utf8.Encode(value))
  }

  /** Arguments, each behind a comma. */
  function ZeroedArgs(zs: seq<nat>, args: seq<string>): seq<byte>
    requires |zs| == |args|
  {
    if args == [] then []
    else [ARG_SEP] + (ZeroedElement(zs[0], args[0]) + ZeroedArgs(zs[1..], args[1..]))
  }

  /** The opcode, its arguments and the terminator. */
  function Zeroed(z: nat, zs: seq<nat>, i: Instruction): seq<byte>
    requires |zs| == |i.args|
  {
    ZeroedElement(z, i.opcode) + (ZeroedArgs(zs, i.args) + [INST_TERM])
  }

  // ------------------------------------------------------------------ lengths

  lemma {:induction false} ZerosRead(z: nat, limit: nat)
    ensures DigitsRead(Zeros(z), limit) == Some(0)
  {
    if z > 0 {
      ZerosRead(z - 1, limit);
      assert Zeros(z)[..z - 1] == Zeros(z - 1);
    }
  }

  /** Zeros in front change nothing. */
  lemma {:induction false} BehindZeros(z: nat, s: seq<byte>, limit: nat)
    ensures DigitsRead(Zeros(z) + s, limit) == DigitsRead(s, limit)
  {
    if s == [] {
      assert Zeros(z) + s == Zeros(z);
      ZerosRead(z, limit);
    } else {
      var n := |s| - 1;
      BehindZeros(z, s[..n], limit);
      assert s == s[..n] + [s[n]] && Zeros(z) + s == (Zeros(z) + s[..n]) + [s[n]];
      DigitsSnoc(Zeros(z) + s[..n], s[n], limit);
    }
  }

  lemma LengthIsRead(z: nat, n: nat, d: seq<byte>)
    requires IsLength(d, z, n) && n <= MAX_LENGTH
    ensures LengthRead(d) == Some(n) && ELEM_SEP !in d
  {
    BehindZeros(z, Utf8.Encode(NatToString(n)), MAX_LENGTH);
    DigitsReadBack(n, MAX_LENGTH);
  }

  lemma ZerosSnoc(z: nat)
    ensures Zeros(z) + ['0' as int] == Zeros(z + 1)
  {
  }

  lemma LastDigit(high: nat, d: nat)
    requires d < 10
    ensures (high * 10 + d) / 10 == high && (high * 10 + d) % 10 == d
  {
    DivModUnique(high * 10 + d, 10, high, d);
  }

  lemma PrintedWith(high: nat, d: nat, n: nat)
    requires d < 10 && n == high * 10 + d
    ensures Utf8.Encode(NatToString(n))
         == if high == 0 then [d + '0' as int] else Utf8.Encode(NatToString(high)) + [d + '0' as int]
  {
    LastDigit(high, d);
    PrintedDigits(n);
  }

  lemma OneMoreDigit(s: seq<byte>, z: nat, high: nat, d: nat) returns (z2: nat)
    requires IsLength(s, z, high) && d < 10
    ensures IsLength(s + [d + '0' as int], z2, high * 10 + d)
  {
    PrintedWith(high, d, high * 10 + d);
    if high == 0 {
      z2 := z + 1;
      PrintedDigits(0);
      ZerosSnoc(z);
    } else {
      z2 := z;
      AppendAssoc(Zeros(z), Utf8.Encode(NatToString(high)), [d + '0' as int]);
    }
  }

  /** Whatever is read as a length is one, at most the limit. */
  lemma {:induction false} ReadIsLength(d: seq<byte>, limit: nat) returns (z: nat)
    requires d != [] && DigitsRead(d, limit).Some?
    ensures IsLength(d, z, DigitsRead(d, limit).value) && DigitsRead(d, limit).value <= limit
  {
    var m := |d| - 1;
    var digit := d[m] - '0' as int;
    InitAndLast(d);
    if m == 0 {
      z := 0;
      PrintedDigits(digit);
      assert d[..0] == [] && Zeros(0) == [];
    } else {
      var y := ReadIsLength(d[..m], limit);
      z := OneMoreDigit(d[..m], y, DigitsRead(d[..m], limit).value, digit);
    }
  }

  // ------------------------------------------------------------------ characters

  lemma FirstTaken(b: seq<byte>, k: nat)
    requires b != [] && k == |b| == CharLen(b[0]) && Utf8.DecodeFirst(b).Some?
    ensures Utf8.EncodeChar(Utf8.DecodeFirst(b).value.0) == b
  {
    Utf8.EncodeCharDecodeFirst(b);
    assert Utf8.DecodeFirst(b).value.1 == k;
    assert b[..k] == b;
  }

  lemma TakenTogether(b: seq<byte>, k: nat, n: nat, e: seq<byte>, s: seq<byte>)
    requires k + n <= |b| && e == b[..k] && s == b[k..][..n]
    ensures b[..k + n] == e + s
  {
  }

  /** The bytes taken are those of the characters found. */
  lemma {:induction false} ExtractedIsEncoded(b: seq<byte>, count: nat)
    requires Extracted(b, count).Found?
    ensures var r := Extracted(b, count); |r.value| == count && b[..r.total] == Utf8.Encode(r.value)
  {
    if count > 0 {
      var k := CharLen(b[0]);
      var r := Extracted(b[k..], count - 1);
      FirstTaken(b[..k], k);
      ExtractedIsEncoded(b[k..], count - 1);
      EncodeCons(Utf8.DecodeFirst(b[..k]).value.0, r.value);
      TakenTogether(b, k, r.total, b[..k], Utf8.Encode(r.value));
    }
  }

  lemma EncodeCons(c: char, s: string)
    ensures Utf8.Encode([c] + s) == Utf8.EncodeChar(c) + Utf8.Encode(s)
  {
    assert ([c] + s)[1..] == s;
  }

  // ------------------------------------------------------------------ what the grammar says is found

  lemma ElementIsFound(z: nat, value: string, rest: seq<byte>, d: seq<byte>)
    requires |value| <= MAX_LENGTH && d == Zeros(z) + Utf8.Encode(NatToString(|value|))
    ensures ElementAt(ZeroedElement(z, value) + rest) == Found(value, |ZeroedElement(z, value)|)
  {
    LengthIsRead(z, |value|, d);
    AppendAssoc(d, [ELEM_SEP] + Utf8.Encode(value), rest);
    AppendAssoc([ELEM_SEP], Utf8.Encode(value), rest);
    ElementOf(d, Utf8.Encode(value) + rest);
    ExtractedString(value, rest);
    assert "" + value == value;
  }

  lemma {:induction false} ArgumentsAreFound(zs: seq<nat>, args: seq<string>, end: seq<byte>)
    requires |zs| == |args| && AllShort(args) && end != [] && end[0] == INST_TERM
    ensures ReadsArgs(ZeroedArgs(zs, args) + end, Found(args, |ZeroedArgs(zs, args)| + 1))
  {
    if args == [] {
      assert [] + end == end;
    } else {
      ShortTail(args);
      ArgumentsAreFound(zs[1..], args[1..], end);
      OneMoreFound(zs[0], args[0], ZeroedArgs(zs[1..], args[1..]), args[1..], end);
    }
  }

  lemma OneMoreFound(z: nat, arg: string, later: seq<byte>, args: seq<string>, end: seq<byte>)
    requires |arg| <= MAX_LENGTH && ReadsArgs(later + end, Found(args, |later| + 1))
    ensures ReadsArgs([ARG_SEP] + (ZeroedElement(z, arg) + later) + end,
                      Found([arg] + args, 1 + |ZeroedElement(z, arg)| + |later| + 1))
  {
    var e := ZeroedElement(z, arg);
    ElementIsFound(z, arg, later + end, Zeros(z) + Utf8.Encode(NatToString(|arg|)));
    AppendAssoc([ARG_SEP], e + later, end);
    AppendAssoc(e, later, end);
    ArgBehindComma(e, later + end, ElementAt(e + (later + end)), Found(args, |later| + 1));
  }

  lemma ZeroedIsFound(z: nat, zs: seq<nat>, i: Instruction, rest: seq<byte>)
    requires |zs| == |i.args| && |i.opcode| <= MAX_LENGTH && AllShort(i.args)
    ensures Peeked(Zeroed(z, zs, i) + rest) == Found(i, |Zeroed(z, zs, i)|)
  {
    var e, a := ZeroedElement(z, i.opcode), ZeroedArgs(zs, i.args);
    AppendAssoc(e, a + [INST_TERM], rest);
    AppendAssoc(a, [INST_TERM], rest);
    ElementIsFound(z, i.opcode, a + ([INST_TERM] + rest), Zeros(z) + Utf8.Encode(NatToString(|i.opcode|)));
    OpcodeOfExtent(e, a + ([INST_TERM] + rest));
    ArgumentsAreFound(zs, i.args, [INST_TERM] + rest);
  }

  // ------------------------------------------------------------------ what is found is of the grammar

  lemma FoundElement(b: seq<byte>) returns (z: nat)
    requires ElementAt(b).Found?
    ensures var r := ElementAt(b); |r.value| <= MAX_LENGTH && b[..r.total] == ZeroedElement(z, r.value)
  {
    var d := IndexOf(b, ELEM_SEP);
    z := ReadIsLength(b[..d], MAX_LENGTH);
    FoundBehind(b, d, LengthRead(b[..d]).value, z, Extracted(b[d + 1..], LengthRead(b[..d]).value));
  }

  lemma FoundBehind(b: seq<byte>, d: nat, n: nat, z: nat, text: Peek<string>)
    requires d < |b| && b[d] == ELEM_SEP && IsLength(b[..d], z, n) && text == Extracted(b[d + 1..], n) && text.Found?
    ensures var r := InFront("", d + 1, text);
            |r.value| == n && r.total <= |b| && b[..r.total] == ZeroedElement(z, r.value)
  {
    ExtractedIsEncoded(b[d + 1..], n);
    assert "" + text.value == text.value;
    BehindSeparator(b, d, text.total);
  }

  lemma BehindSeparator(b: seq<byte>, d: nat, n: nat)
    requires d < |b| && b[d] == ELEM_SEP && n <= |b| - d - 1
    ensures b[..d + 1 + n] == b[..d] + ([ELEM_SEP] + b[d + 1..][..n])
  {
  }

  /** These arguments stand at the front of `b`, in so many bytes with their terminator. */
  predicate StandAt(b: seq<byte>, r: Peek<seq<string>>, zs: seq<nat>) {
    && r.Found? && r.total <= |b| && |zs| == |r.value| && AllShort(r.value)
    && b[..r.total] == ZeroedArgs(zs, r.value) + [INST_TERM]
  }

  lemma {:induction false} FoundArguments(b: seq<byte>) returns (zs: seq<nat>)
    requires ArgsAt(b).Found?
    ensures StandAt(b, ArgsAt(b), zs)
    decreases |b|
  {
    if b[0] == INST_TERM {
      zs := [];
      NoArguments(b);
    } else {
      var arg := ElementAt(b[1..]);
      var tail := b[1 + arg.total..];
      var z := FoundElement(b[1..]);
      var ys := FoundArguments(tail);
      zs := [z] + ys;
      FoundOneMore(b, arg, tail, z, ys, ArgsAt(tail));
    }
  }

  lemma NoArguments(b: seq<byte>)
    requires b != [] && b[0] == INST_TERM
    ensures StandAt(b, Found([], 1), [])
  {
    assert b[..1] == [] + [INST_TERM];
  }

  lemma FoundOneMore(b: seq<byte>, arg: Peek<string>, tail: seq<byte>, z: nat, ys: seq<nat>, r: Peek<seq<string>>)
    requires b != [] && b[0] == ARG_SEP && arg.Found? && 1 + arg.total <= |b| && tail == b[1 + arg.total..]
    requires StandAt(tail, r, ys) && |arg.value| <= MAX_LENGTH && b[1..][..arg.total] == ZeroedElement(z, arg.value)
    ensures StandAt(b, InFront([arg.value], 1 + arg.total, r), [z] + ys)
  {
    ZeroedCons(z, arg.value, ys, r.value);
    ShortCons(arg.value, r.value);
    CutInThree(b, arg.total, r.total, ZeroedElement(z, arg.value), ZeroedArgs(ys, r.value), [INST_TERM]);
  }

  lemma ZeroedCons(z: nat, arg: string, ys: seq<nat>, args: seq<string>)
    requires |ys| == |args|
    ensures ZeroedArgs([z] + ys, [arg] + args) == [ARG_SEP] + (ZeroedElement(z, arg) + ZeroedArgs(ys, args))
  {
    assert ([z] + ys)[1..] == ys && ([arg] + args)[1..] == args;
  }

  lemma ShortCons(arg: string, args: seq<string>)
    ensures |arg| <= MAX_LENGTH && AllShort(args) ==> AllShort([arg] + args)
  {
  }

  lemma CutInThree(b: seq<byte>, m: nat, n: nat, e: seq<byte>, a: seq<byte>, end: seq<byte>)
    requires b != [] && 1 + m + n <= |b| && b[1..][..m] == e && b[1 + m..][..n] == a + end
    ensures b[..1 + m + n] == [b[0]] + (e + a) + end
  {
    assert b[..1 + m + n] == [b[0]] + (b[1..][..m] + b[1 + m..][..n]);
  }

  lemma FoundIsZeroed(b: seq<byte>) returns (z: nat, zs: seq<nat>)
    requires Peeked(b).Found?
    ensures var r := Peeked(b);
            && |zs| == |r.value.args| && |r.value.opcode| <= MAX_LENGTH && AllShort(r.value.args)
            && b[..r.total] == Zeroed(z, zs, r.value)
  {
    var opcode := ElementAt(b);
    z := FoundElement(b);
    zs := FoundArguments(b[opcode.total..]);
    CutInTwo(b, opcode.total, ArgsAt(b[opcode.total..]).total);
  }

  lemma CutInTwo(b: seq<byte>, m: nat, n: nat)
    requires m + n <= |b|
    ensures b[..m + n] == b[..m] + b[m..][..n]
  {
  }

  /** `b` is this instruction, up to zeros in front of its lengths. */
  ghost predicate Writes(b: seq<byte>, i: Instruction) {
    exists z: nat, zs: seq<nat> :: |zs| == |i.args| && b == Zeroed(z, zs, i)
  }

  lemma WrittenIsFound(head: seq<byte>, i: Instruction, rest: seq<byte>)
    requires Writes(head, i) && |i.opcode| <= MAX_LENGTH && AllShort(i.args)
    ensures Peeked(head + rest) == Found(i, |head|)
  {
    var z: nat, zs: seq<nat> :| |zs| == |i.args| && head == Zeroed(z, zs, i);
    ZeroedIsFound(z, zs, i, rest);
  }

  lemma FoundIsWritten(b: seq<byte>, i: Instruction, total: nat)
    requires Peeked(b) == Found(i, total)
    ensures total <= |b| && Writes(b[..total], i) && |i.opcode| <= MAX_LENGTH && AllShort(i.args)
  {
    var z, zs := FoundIsZeroed(b);
  }

  /** The exact language: an instruction is found in the first `total` bytes if and only if they are its encoding, up to
      zeros in front of the lengths, and no element has more than a million characters. What follows does not matter. */
  lemma PeekIff(b: seq<byte>, i: Instruction, total: nat)
    ensures Peeked(b) == Found(i, total)
       <==> && total <= |b| && Writes(b[..total], i)
            && |i.opcode| <= 1_000_000 && forall k :: 0 <= k < |i.args| ==> |i.args[k]| <= 1_000_000
  {
    if Peeked(b) == Found(i, total) {
      FoundIsWritten(b, i, total);
    }
    if total <= |b| && Writes(b[..total], i) && |i.opcode| <= MAX_LENGTH && AllShort(i.args) {
      WrittenIsFound(b[..total], i, b[total..]);
      WholeOf(b, total);
    }
  }

  lemma WholeOf(b: seq<byte>, n: nat)
    ensures n <= |b| ==> b == b[..n] + b[n..]
  {
  }

  // ------------------------------------------------------------------ what is refused, and what may still come

  /** Without a dot the parser waits, until there is a terminator. */
  lemma WithoutDot(b: seq<byte>)
    requires ELEM_SEP !in b
    ensures Peeked(b) == if ';' as int in b then InvalidFormat else Incomplete
  {
  }

  /** What is no length up to a million is refused as soon as a dot follows it. */
  lemma WithoutLength(d: seq<byte>, rest: seq<byte>)
    requires ELEM_SEP !in d && forall z: nat, n: nat :: IsLength(d, z, n) ==> n > 1_000_000
    ensures Peeked(d + ([ELEM_SEP] + rest)) == InvalidFormat
  {
    ElementOf(d, rest);
    if LengthRead(d).Some? {
      var z := ReadIsLength(d, MAX_LENGTH);
      assert false;
    }
  }

  lemma {:induction false} ExtractedFails(s: string, rest: seq<byte>, n: nat)
    requires |s| < n
    ensures rest == [] ==> Extracted(Utf8.Encode(s) + rest, n) == Incomplete
    ensures rest != [] && (0x80 <= rest[0] < 0xC0 || rest[0] >= 0xF8) ==>
              Extracted(Utf8.Encode(s) + rest, n) == Utf8Error
  {
    if s == "" {
      assert Utf8.Encode("") + rest == rest;
    } else {
      var e, tail := Utf8.EncodeChar(s[0]), Utf8.Encode(s[1..]);
      OneCharacter(s[0], tail + rest, n - 1);
      AppendAssoc(e, tail, rest);
      ExtractedFails(s[1..], rest, n - 1);
    }
  }

  /** Fewer characters than announced: the parser waits for more, but not behind a byte that starts none. */
  lemma WithoutText(z: nat, n: nat, s: string, rest: seq<byte>, d: seq<byte>)
    requires IsLength(d, z, n) && |s| < n <= 1_000_000
    ensures rest == [] ==> Peeked(d + ([ELEM_SEP] + (Utf8.Encode(s) + rest))) == Incomplete
    ensures rest != [] && (0x80 <= rest[0] < 0xC0 || rest[0] >= 0xF8) ==>
              Peeked(d + ([ELEM_SEP] + (Utf8.Encode(s) + rest))) == Utf8Error
  {
    LengthIsRead(z, n, d);
    ElementOf(d, Utf8.Encode(s) + rest);
    ExtractedFails(s, rest, n);
  }

  /** Behind a whole element comes a comma or the terminator; anything else is refused. */
  lemma WithoutTerminator(z: nat, opcode: string, rest: seq<byte>)
    requires |opcode| <= 1_000_000
    ensures rest == [] ==> Peeked(ZeroedElement(z, opcode) + rest) == Incomplete
    ensures rest != [] && rest[0] != ',' as int && rest[0] != ';' as int ==>
              Peeked(ZeroedElement(z, opcode) + rest) == InvalidFormat
  {
    ElementIsFound(z, opcode, rest, Zeros(z) + Utf8.Encode(NatToString(|opcode|)));
    OpcodeOfExtent(ZeroedElement(z, opcode), rest);
  }
}
