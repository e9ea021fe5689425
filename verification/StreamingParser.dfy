/**
 The streaming parser of the protocol: `length.value,length.value;`, where a length counts characters.

 A buffer is peeked at until it holds a whole instruction, whose content is then parsed once more. Peeking
 never changes its mind when more bytes come, the two parsers agree, and they read back what is encoded.
 */
module StreamingParser {
  import opened Decimal
  import opened Prelude
  import opened Text
  import Utf8

  const INST_TERM: byte := ';' as int
  const ARG_SEP: byte := ',' as int
  const ELEM_SEP: byte := '.' as int

  /** Peeking refuses greater lengths. */
  const MAX_LENGTH: nat := 1_000_000

  datatype Instruction = Instruction(opcode: string, args: seq<string>)

  /** What is found at the front of some bytes, and how many of them it takes. */
  datatype Peek<+T> = Found(value: T, total: nat) | Incomplete | InvalidFormat | Utf8Error

  // ------------------------------------------------------------------ encoding

  function ElementText(value: string): string {
    NatToString(|value|) + "." + value
  }

  function ArgsText(args: seq<string>): string {
    if args == [] then "" else "," + ElementText(args[0]) + ArgsText(args[1..])
  }

  /** An instruction without its terminator. */
  function InstructionText(i: Instruction): string {
    ElementText(i.opcode) + ArgsText(i.args)
  }

  function Encoded(i: Instruction): seq<byte> {
    Utf8.Encode(InstructionText(i)) + [INST_TERM]
  }

  function ElementBytes(value: string): seq<byte> {
    Utf8.Encode(NatToString(|value|)) + [ELEM_SEP] + Utf8.Encode(value)
  }

  function ArgsBytes(args: seq<string>): seq<byte> {
    if args == [] then [] else [ARG_SEP] + ElementBytes(args[0]) + ArgsBytes(args[1..])
  }

  lemma EncodeElement(value: string)
    ensures Utf8.Encode(ElementText(value)) == ElementBytes(value)
  {
    var n := NatToString(|value|);
    Utf8.EncodeAppend(n + ".", value);
    Utf8.EncodeAppend(n, ".");
    OneByte('.');
  }

  lemma OneByte(c: char)
    requires IsAsciiChar(c)
    ensures Utf8.Encode([c]) == [c as int]
  {
    assert [c][1..] == "";
  }

  lemma {:induction false} EncodeArgs(args: seq<string>)
    ensures Utf8.Encode(ArgsText(args)) == ArgsBytes(args)
  {
    if args != [] {
      EncodeArgs(args[1..]);
      EncodeElement(args[0]);
      OneByte(',');
      Utf8.EncodeAppend("," + ElementText(args[0]), ArgsText(args[1..]));
      Utf8.EncodeAppend(",", ElementText(args[0]));
    }
  }

  lemma EncodedBytes(i: Instruction)
    ensures Encoded(i) == ElementBytes(i.opcode) + ArgsBytes(i.args) + [INST_TERM]
  {
    Utf8.EncodeAppend(ElementText(i.opcode), ArgsText(i.args));
    EncodeElement(i.opcode);
    EncodeArgs(i.args);
  }

  method EncodeInstruction(i: Instruction) returns (buffer: seq<byte>)
    ensures buffer == Encoded(i)
  {
    EncodedBytes(i);
    buffer := PutElement([], i.opcode);
    var k := 0;
    while k < |i.args|
      invariant 0 <= k <= |i.args|
      invariant buffer == ElementBytes(i.opcode) + ArgsBytes(i.args[..k])
    {
      OneMoreEncoded(buffer, ElementBytes(i.opcode), i.args, k);
      buffer := buffer + [ARG_SEP];
      buffer := PutElement(buffer, i.args[k]);
      k := k + 1;
    }
    assert i.args[..k] == i.args;
    buffer := buffer + [INST_TERM];
  }

  lemma OneMoreEncoded(buffer: seq<byte>, opcode: seq<byte>, args: seq<string>, k: nat)
    requires k < |args| && buffer == opcode + ArgsBytes(args[..k])
    ensures (buffer + [ARG_SEP]) + ElementBytes(args[k]) == opcode + ArgsBytes(args[..k + 1])
  {
    ArgsSnoc(args[..k], args[k]);
    assert args[..k] + [args[k]] == args[..k + 1];
    AppendFour(opcode, ArgsBytes(args[..k]), [ARG_SEP], ElementBytes(args[k]));
    AppendAssoc(ArgsBytes(args[..k]), [ARG_SEP], ElementBytes(args[k]));
  }

  method PutElement(buffer: seq<byte>, value: string) returns (r: seq<byte>)
    ensures r == buffer + ElementBytes(value)
  {
    r := buffer + Utf8.Encode(NatToString(|value|));
    r := r + [ELEM_SEP];
    AppendFour(buffer, Utf8.Encode(NatToString(|value|)), [ELEM_SEP], Utf8.Encode(value));
    r := r + Utf8.Encode(value);
  }

  lemma AppendFour(a: seq<byte>, b: seq<byte>, c: seq<byte>, d: seq<byte>)
    ensures a + b + c + d == a + (b + (c + d)) == a + (b + c + d)
  {
  }

  lemma {:induction false} ArgsSnoc(args: seq<string>, arg: string)
    ensures ArgsBytes(args + [arg]) == ArgsBytes(args) + ([ARG_SEP] + ElementBytes(arg))
  {
    if args == [] {
      assert [arg][1..] == [] && [] + [arg] == [arg];
    } else {
      assert (args + [arg])[1..] == args[1..] + [arg];
      ArgsSnoc(args[1..], arg);
    }
  }

  // ------------------------------------------------------------------ lengths

  /** The value of some digits, where the limit is checked at each of them. */
  function DigitsRead(s: seq<byte>, limit: nat): Option<nat> {
    if s == [] then Some(0)
    else NextDigit(DigitsRead(s[..|s| - 1], limit), s[|s| - 1], limit)
  }

  function NextDigit(high: Option<nat>, c: byte, limit: nat): Option<nat> {
    var d := c - '0' as int;
    if high.Some? && 0 <= d < 10 && high.value * 10 + d <= limit then Some(high.value * 10 + d) else None
  }

  function LengthRead(s: seq<byte>): Option<nat> {
    if s == [] then None else DigitsRead(s, MAX_LENGTH)
  }

  method ParseLength(s: seq<byte>) returns (r: Option<nat>)
    ensures r == LengthRead(s)
  {
    if s == [] {
      return None;
    }
    var result := 0;
    var i := 0;
    while i < |s|
      invariant 0 <= i <= |s|
      invariant DigitsRead(s[..i], MAX_LENGTH) == Some(result)
    {
      assert s[..i + 1][..i] == s[..i];
      var d := s[i] - '0' as int;
      if !(0 <= d < 10) || result * 10 + d > MAX_LENGTH {
        RefusedEarly(s, i + 1, MAX_LENGTH);
        return None;
      }
      result := result * 10 + d;
      i := i + 1;
    }
    assert s[..i] == s;
    return Some(result);
  }

  lemma {:induction false} RefusedEarly(s: seq<byte>, i: nat, limit: nat)
    requires i <= |s| && DigitsRead(s[..i], limit) == None
    ensures DigitsRead(s, limit) == None
    decreases |s|
  {
    if i < |s| {
      assert s[..|s| - 1][..i] == s[..i];
      RefusedEarly(s[..|s| - 1], i, limit);
    } else {
      assert s[..i] == s;
    }
  }

  /** A printed number is read back exactly up to the limit. */
  lemma {:induction false} DigitsReadBack(n: nat, limit: nat)
    ensures DigitsRead(Utf8.Encode(NatToString(n)), limit) == if n <= limit then Some(n) else None
    ensures Utf8.Encode(NatToString(n)) != [] && Utf8.Encode(NatToString(n))[0] != '+' as int
    ensures ELEM_SEP !in Utf8.Encode(NatToString(n))
  {
    PrintedDigits(n);
    if n < 10 {
      DigitsSnoc([], n + '0' as int, limit);
      assert [] + [n + '0' as int] == [n + '0' as int];
    } else {
      DigitsReadBack(n / 10, limit);
      DigitsSnoc(Utf8.Encode(NatToString(n / 10)), n % 10 + '0' as int, limit);
    }
  }

  lemma PrintedDigits(n: nat)
    ensures Utf8.Encode(NatToString(n))
         == if n < 10 then [n + '0' as int] else Utf8.Encode(NatToString(n / 10)) + [n % 10 + '0' as int]
  {
    var last := DigitChar(n % 10);
    OneByte(last);
    if n >= 10 {
      Utf8.EncodeAppend(NatToString(n / 10), [last]);
    }
  }

  lemma DigitsSnoc(s: seq<byte>, last: byte, limit: nat)
    ensures DigitsRead(s + [last], limit) == NextDigit(DigitsRead(s, limit), last, limit)
  {
    assert (s + [last])[..|s|] == s;
  }

  lemma {:induction false} DigitsAreAscii(s: seq<byte>, limit: nat)
    requires DigitsRead(s, limit).Some?
    ensures forall k :: 0 <= k < |s| ==> '0' as int <= s[k] <= '9' as int
  {
    if s != [] {
      DigitsAreAscii(s[..|s| - 1], limit);
    }
  }

  /** A greater limit changes nothing. */
  lemma {:induction false} DigitsWithin(s: seq<byte>, limit: nat, greater: nat)
    requires DigitsRead(s, limit).Some? && limit <= greater
    ensures DigitsRead(s, greater) == DigitsRead(s, limit)
  {
    if s != [] {
      DigitsWithin(s[..|s| - 1], limit, greater);
    }
  }

  // ------------------------------------------------------------------ characters

  /** The width of a character by its first byte; 0 when no character starts with it. */
  function CharLen(b: byte): nat {
    if b < 0x80 then 1 else if b < 0xC0 then 0 else if b < 0xE0 then 2 else if b < 0xF0 then 3
    else if b < 0xF8 then 4 else 0
  }

  /** The first `count` characters. */
  function Extracted(b: seq<byte>, count: nat): (r: Peek<string>)
    ensures r.Found? ==> r.total <= |b|
  {
    if count == 0 then Found("", 0)
    else if b == [] then Incomplete
    else
      var k := CharLen(b[0]);
      if k == 0 then Utf8Error
      else if k > |b| then Incomplete
      else
        match Utf8.DecodeFirst(b[..k])
        case None => Utf8Error
        case Some((c, _)) => InFront([c], k, Extracted(b[k..], count - 1))
  }

  /** The same with something in front. */
  function InFront<T>(front: seq<T>, width: nat, p: Peek<seq<T>>): Peek<seq<T>> {
    match p
    case Found(rest, total) => Found(front + rest, width + total)
    case _ => p
  }

  lemma {:induction false} ExtractedAscii(b: seq<byte>, count: nat)
    requires count <= |b| && Utf8.AsciiBytes(b[..count])
    ensures Utf8.Decode(b[..count]).Some?
    ensures Extracted(b, count) == Found(Utf8.Decode(b[..count]).value, count)
  {
    if count > 0 {
      assert b[..count][1..] == b[1..][..count - 1] && b[..count][0] == b[0];
      ExtractedAscii(b[1..], count - 1);
    }
  }

  /** With its fast path for text that is ASCII, and the loop for other text. */
  method ExtractUtf8Chars(b: seq<byte>, count: nat) returns (r: Peek<string>)
    ensures r == Extracted(b, count)
  {
    if count == 0 {
      return Found("", 0);
    }
    if b == [] {
      return Incomplete;
    }
    if count <= |b| {
      var asciiEnd := 0;
      while asciiEnd < |b| && b[asciiEnd] < 0x80
        invariant asciiEnd <= |b| && Utf8.AsciiBytes(b[..asciiEnd])
      {
        asciiEnd := asciiEnd + 1;
      }
      if asciiEnd >= count {
        assert forall k :: 0 <= k < count ==> b[..asciiEnd][k] == b[..count][k];
        ExtractedAscii(b, count);
        return Found(Utf8.Decode(b[..count]).value, count);
      }
    }
    r := ExtractSlowly(b, count);
  }

  method ExtractSlowly(b: seq<byte>, count: nat) returns (r: Peek<string>)
    ensures r == Extracted(b, count)
  {
    ghost var whole := Extracted(b, count);
    var bytePos, charsFound, text := 0, 0, "";
    NothingInFront(b, whole);
    while bytePos < |b| && charsFound < count
      invariant bytePos <= |b| && charsFound <= count
      invariant TextContinues(b[bytePos..], count - charsFound, text, bytePos, whole)
    {
      var k := CharLen(b[bytePos]);
      TextEnds(b[bytePos..], count - charsFound, text, bytePos, whole);
      if k == 0 {
        return Utf8Error;
      }
      if bytePos + k > |b| {
        return Incomplete;
      }
      var next := bytePos + k;
      assert b[bytePos..][..k] == b[bytePos..next];
      var c := Utf8.DecodeFirst(b[bytePos..next]);
      if c.None? {
        return Utf8Error;
      }
      TwoSlices(b, bytePos, k);
      OneMoreChar(b[bytePos..], count - charsFound, text, bytePos, whole, c.value.0, b[next..], next);
      bytePos, charsFound, text := next, charsFound + 1, text + [c.value.0];
    }
    TextEnds(b[bytePos..], count - charsFound, text, bytePos, whole);
    return if charsFound < count then Incomplete else Found(text, bytePos);
  }

  lemma TwoSlices(b: seq<byte>, m: nat, n: nat)
    ensures m + n <= |b| ==> b[m..][n..] == b[m + n..]
  {
  }

  /** With this text found already, reading on at `b` gives `whole`. */
  predicate TextContinues(b: seq<byte>, count: nat, text: string, width: nat, whole: Peek<string>) {
    InFront(text, width, Extracted(b, count)) == whole
  }

  lemma OneMoreChar(b: seq<byte>, count: nat, text: string, width: nat, whole: Peek<string>, c: char,
                    tail: seq<byte>, wider: nat)
    requires TextContinues(b, count, text, width, whole) && count > 0 && b != []
    requires 0 < CharLen(b[0]) <= |b| && Utf8.DecodeFirst(b[..CharLen(b[0])]) == Some((c, CharLen(b[0])))
    requires tail == b[CharLen(b[0])..] && wider == width + CharLen(b[0])
    ensures TextContinues(tail, count - 1, text + [c], wider, whole)
  {
    InFrontTwice(text, [c], width, CharLen(b[0]), Extracted(tail, count - 1));
  }

  lemma TextEnds(b: seq<byte>, count: nat, text: string, width: nat, whole: Peek<string>)
    requires TextContinues(b, count, text, width, whole)
    ensures count == 0 ==> whole == Found(text, width)
    ensures count > 0 && b == [] ==> whole == Incomplete
    ensures count > 0 && b != [] ==>
              && (CharLen(b[0]) == 0 ==> whole == Utf8Error)
              && (CharLen(b[0]) > |b| ==> whole == Incomplete)
              && (0 < CharLen(b[0]) <= |b| ==>
                    var first := Utf8.DecodeFirst(b[..CharLen(b[0])]);
                    if first.None? then whole == Utf8Error else first.value.1 == CharLen(b[0]))
  {
    assert text + "" == text;
  }

  lemma NothingInFront<T>(b: seq<byte>, p: Peek<seq<T>>)
    ensures b[0..] == b && InFront([], 0, p) == p
  {
    if p.Found? {
      assert [] + p.value == p.value;
    }
  }

  lemma InFrontTwice<T>(a: seq<T>, b: seq<T>, m: nat, n: nat, p: Peek<seq<T>>)
    ensures InFront(a, m, InFront(b, n, p)) == InFront(a + b, m + n, p)
  {
    if p.Found? {
      AppendAssoc(a, b, p.value);
    }
  }

  lemma {:induction false} ExtractedStable(b: seq<byte>, x: seq<byte>, count: nat)
    requires !Extracted(b, count).Incomplete?
    ensures Extracted(b + x, count) == Extracted(b, count)
  {
    if count > 0 {
      var k := CharLen(b[0]);
      if 0 < k <= |b| {
        assert (b + x)[..k] == b[..k] && (b + x)[k..] == b[k..] + x;
        if Utf8.DecodeFirst(b[..k]).Some? {
          ExtractedStable(b[k..], x, count - 1);
        }
      }
    }
  }

  /** Only the bytes taken matter. */
  lemma {:induction false} ExtractedCut(b: seq<byte>, count: nat, m: nat)
    requires Extracted(b, count).Found? && Extracted(b, count).total <= m <= |b|
    ensures Extracted(b[..m], count) == Extracted(b, count)
  {
    if count > 0 {
      var k := CharLen(b[0]);
      assert b[..m][..k] == b[..k] && b[..m][k..] == b[k..][..m - k];
      ExtractedCut(b[k..], count - 1, m - k);
    }
  }

  /** The characters of a string are read back from its bytes, whatever follows. */
  lemma {:induction false} ExtractedString(s: string, rest: seq<byte>)
    ensures Extracted(Utf8.Encode(s) + rest, |s|) == Found(s, |Utf8.Encode(s)|)
  {
    if s != "" {
      var e, tail := Utf8.EncodeChar(s[0]), Utf8.Encode(s[1..]);
      OneCharacter(s[0], tail + rest, |s| - 1);
      AppendAssoc(e, tail, rest);
      ExtractedString(s[1..], rest);
      assert [s[0]] + s[1..] == s;
    }
  }

  lemma OneCharacter(c: char, rest: seq<byte>, count: nat)
    ensures Extracted(Utf8.EncodeChar(c) + rest, count + 1)
         == InFront([c], |Utf8.EncodeChar(c)|, Extracted(rest, count))
  {
    var e := Utf8.EncodeChar(c);
    FirstByte(c);
    assert (e + rest)[..|e|] == e && (e + rest)[|e|..] == rest && e + [] == e;
    Utf8.DecodeFirstEncodeChar(c, []);
  }

  lemma FirstByte(c: char)
    ensures CharLen(Utf8.EncodeChar(c)[0]) == |Utf8.EncodeChar(c)|
  {
  }

  // ------------------------------------------------------------------ peeking

  function Failure<T, U>(p: Peek<T>): Peek<U>
    requires !p.Found?
  {
    match p
    case Incomplete => Incomplete
    case InvalidFormat => InvalidFormat
    case Utf8Error => Utf8Error
  }

  /** A value behind its length and a dot. The dot is looked for in all of `b`, a terminator only when
      there is none. */
  function ElementAt(b: seq<byte>): (r: Peek<string>)
    ensures r.Found? ==> 0 < r.total <= |b|
  {
    var d := IndexOf(b, ELEM_SEP);
    if d == |b| then (if INST_TERM in b then InvalidFormat else Incomplete)
    else
      match LengthRead(b[..d])
      case None => InvalidFormat
      case Some(n) => InFront("", d + 1, Extracted(b[d + 1..], n))
  }

  /** Arguments, each behind a comma, up to the terminator. */
  function ArgsAt(b: seq<byte>): (r: Peek<seq<string>>)
    ensures r.Found? ==> 0 < r.total <= |b|
    decreases |b|
  {
    if b == [] then Incomplete
    else if b[0] == INST_TERM then Found([], 1)
    else if b[0] != ARG_SEP then InvalidFormat
    else
      var arg := ElementAt(b[1..]);
      if !arg.Found? then Failure(arg) else InFront([arg.value], 1 + arg.total, ArgsAt(b[1 + arg.total..]))
  }

  /** The first instruction. */
  function Peeked(b: seq<byte>): (r: Peek<Instruction>)
    ensures r.Found? ==> 0 < r.total <= |b|
  {
    var opcode := ElementAt(b);
    if !opcode.Found? then Failure(opcode) else Completed(opcode.value, opcode.total, ArgsAt(b[opcode.total..]))
  }

  function Completed(opcode: string, width: nat, args: Peek<seq<string>>): Peek<Instruction> {
    if args.Found? then Found(Instruction(opcode, args.value), width + args.total) else Failure(args)
  }

  method PeekElement(b: seq<byte>) returns (r: Peek<string>)
    ensures r == ElementAt(b)
  {
    var d := IndexOf(b, ELEM_SEP);
    if d == |b| {
      return if INST_TERM in b then InvalidFormat else Incomplete;
    }
    var length := ParseLength(b[..d]);
    if length.None? {
      return InvalidFormat;
    }
    var text := ExtractUtf8Chars(b[d + 1..], length.value);
    return InFront("", d + 1, text);
  }

  const SYNC: seq<byte> := ['4' as int, '.' as int, 's' as int, 'y' as int, 'n' as int, 'c' as int, ';' as int]

  method PeekInstruction(buffer: seq<byte>) returns (r: Peek<Instruction>)
    ensures r == Peeked(buffer)
  {
    if buffer == [] {
      return Incomplete;
    }
    if |buffer| >= 7 && buffer[..7] == SYNC {
      SyncIsPeeked(buffer);
      return Found(Instruction("sync", []), 7);
    }
    var opcode := PeekElement(buffer);
    if !opcode.Found? {
      return Failure(opcode);
    }
    var args := PeekArguments(buffer, opcode.total);
    return Completed(opcode.value, opcode.total, args);
  }

  method PeekArguments(buffer: seq<byte>, start: nat) returns (r: Peek<seq<string>>)
    requires start <= |buffer|
    ensures r == ArgsAt(buffer[start..])
  {
    ghost var whole := ArgsAt(buffer[start..]);
    var pos, args := start, [];
    NothingInFront(buffer, whole);
    while pos < |buffer| && buffer[pos] == ARG_SEP
      invariant start <= pos <= |buffer|
      invariant Continues(buffer[pos..], args, pos - start, whole)
    {
      var arg := PeekArgument(buffer, pos);
      if !arg.Found? {
        FailureEnds(buffer[pos..], args, pos - start, whole, arg);
        return Failure(arg);
      }
      var next := pos + 1 + arg.total;
      OneMoreArg(buffer[pos..], args, pos - start, whole, arg, buffer[next..], next - start);
      args, pos := args + [arg.value], next;
    }
    ArgsEnd(buffer[pos..], args, pos - start, whole);
    if pos == |buffer| {
      return Incomplete;
    }
    return if buffer[pos] == INST_TERM then Found(args, pos - start + 1) else InvalidFormat;
  }

  /** The argument behind the comma at `pos`. */
  method PeekArgument(buffer: seq<byte>, pos: nat) returns (arg: Peek<string>)
    requires pos < |buffer| && buffer[pos] == ARG_SEP
    ensures arg.Found? ==>
              pos + 1 + arg.total <= |buffer| && IsArgument(buffer[pos..], arg, buffer[pos + 1 + arg.total..])
    ensures !arg.Found? ==> ReadsArgs(buffer[pos..], Failure(arg))
  {
    TwoSlices(buffer, pos, 1);
    if pos + 1 >= |buffer| {
      assert buffer[pos..][1..] == [];
      return Incomplete;
    }
    arg := PeekElement(buffer[pos + 1..]);
    if arg.Found? {
      TwoSlices(buffer, pos, 1 + arg.total);
    } else {
      FailureRead(buffer[pos..], arg);
    }
  }

  lemma FailureEnds(b: seq<byte>, args: seq<string>, width: nat, whole: Peek<seq<string>>, arg: Peek<string>)
    requires Continues(b, args, width, whole) && !arg.Found? && ReadsArgs(b, Failure(arg))
    ensures whole == Failure(arg)
  {
  }

  /** With these arguments found already, reading on at `b` gives `whole`. */
  predicate Continues(b: seq<byte>, args: seq<string>, width: nat, whole: Peek<seq<string>>) {
    InFront(args, width, ArgsAt(b)) == whole
  }

  lemma OneMoreArg(b: seq<byte>, args: seq<string>, width: nat, whole: Peek<seq<string>>, arg: Peek<string>,
                   tail: seq<byte>, wider: nat)
    requires Continues(b, args, width, whole)
    requires IsArgument(b, arg, tail) && wider == width + 1 + arg.total
    ensures Continues(tail, args + [arg.value], wider, whole)
  {
    InFrontTwice(args, [arg.value], width, 1 + arg.total, ArgsAt(tail));
  }

  /** An argument behind a comma, and what follows it. */
  predicate IsArgument(b: seq<byte>, arg: Peek<string>, tail: seq<byte>) {
    && |b| > 1 && b[0] == ARG_SEP && arg == ElementAt(b[1..]) && arg.Found?
    && tail == b[1 + arg.total..]
  }

  lemma ArgsEnd(b: seq<byte>, args: seq<string>, width: nat, whole: Peek<seq<string>>)
    requires Continues(b, args, width, whole)
    ensures b == [] ==> whole == Incomplete
    ensures b != [] && b[0] == INST_TERM ==> whole == Found(args, width + 1)
    ensures b != [] && b[0] != INST_TERM && b[0] != ARG_SEP ==> whole == InvalidFormat
  {
    assert args + [] == args;
  }

  // ------------------------------------------------------------------ more bytes change nothing

  lemma ElementStable(b: seq<byte>, x: seq<byte>)
    requires !ElementAt(b).Incomplete?
    ensures ElementAt(b + x) == ElementAt(b)
  {
    var d := IndexOf(b, ELEM_SEP);
    if d < |b| {
      assert (b + x)[..d] == b[..d] && (b + x)[d + 1..] == b[d + 1..] + x;
      IndexOfUnique(b + x, ELEM_SEP, d);
      if LengthRead(b[..d]).Some? {
        ExtractedStable(b[d + 1..], x, LengthRead(b[..d]).value);
      }
    } else {
      TerminatorFirst(b, x);
    }
  }

  /** A terminator in front of the first dot makes the length invalid, if a dot still comes. */
  lemma TerminatorFirst(b: seq<byte>, x: seq<byte>)
    requires ELEM_SEP !in b && INST_TERM in b
    ensures ElementAt(b + x) == InvalidFormat
  {
    var d := IndexOf(b + x, ELEM_SEP);
    var k := IndexOf(b, INST_TERM);
    assert (b + x)[k] == INST_TERM;
    if d < |b + x| {
      assert d >= |b|;
      assert (b + x)[..d][k] == INST_TERM;
      if LengthRead((b + x)[..d]).Some? {
        DigitsAreAscii((b + x)[..d], MAX_LENGTH);
        assert false;
      }
    }
  }

  predicate ReadsArgs(b: seq<byte>, r: Peek<seq<string>>) {
    ArgsAt(b) == r
  }

  lemma ArgsOfArgument(b: seq<byte>, arg: Peek<string>, tail: seq<byte>, r: Peek<seq<string>>)
    requires IsArgument(b, arg, tail) && ReadsArgs(tail, r)
    ensures ReadsArgs(b, InFront([arg.value], 1 + arg.total, r))
  {
  }

  lemma ArgumentStable(b: seq<byte>, x: seq<byte>, arg: Peek<string>, tail: seq<byte>)
    requires IsArgument(b, arg, tail)
    ensures IsArgument(b + x, arg, tail + x)
  {
    DropAppend(b, x, 1);
    DropAppend(b, x, 1 + arg.total);
    ElementStable(b[1..], x);
  }

  lemma DropAppend(b: seq<byte>, x: seq<byte>, n: nat)
    ensures b <= b + x && (n <= |b| ==> (b + x)[n..] == b[n..] + x)
    ensures b != [] ==> (b + x)[0] == b[0]
  {
  }

  lemma FailureRead(b: seq<byte>, arg: Peek<string>)
    requires b != [] && b[0] == ARG_SEP && arg == ElementAt(b[1..]) && !arg.Found?
    ensures ReadsArgs(b, Failure(arg))
  {
  }

  lemma FailureStable(b: seq<byte>, x: seq<byte>)
    requires b != [] && b[0] == ARG_SEP && !ElementAt(b[1..]).Found? && !ElementAt(b[1..]).Incomplete?
    ensures ReadsArgs(b + x, Failure(ElementAt(b[1..])))
  {
    DropAppend(b, x, 1);
    ElementStable(b[1..], x);
    FailureRead(b + x, ElementAt(b[1..]));
  }

  lemma {:induction false} ArgsStable(b: seq<byte>, x: seq<byte>)
    requires !ArgsAt(b).Incomplete?
    ensures ReadsArgs(b + x, ArgsAt(b))
    decreases |b|
  {
    if b[0] == ARG_SEP {
      var arg := ElementAt(b[1..]);
      if arg.Found? {
        var tail := b[1 + arg.total..];
        ArgumentStable(b, x, arg, tail);
        ArgsStable(tail, x);
        ArgsOfArgument(b + x, arg, tail + x, ArgsAt(tail));
      } else {
        FailureStable(b, x);
      }
    }
  }

  /** Once something is found, be it an instruction or an error, later bytes do not change it. */
  lemma PeekStable(b: seq<byte>, x: seq<byte>)
    requires !Peeked(b).Incomplete?
    ensures Peeked(b + x) == Peeked(b)
  {
    ElementStable(b, x);
    var opcode := ElementAt(b);
    if opcode.Found? {
      assert (b + x)[opcode.total..] == b[opcode.total..] + x;
      ArgsStable(b[opcode.total..], x);
    }
  }

  // ------------------------------------------------------------------ reading back what is encoded

  lemma ElementOf(d: seq<byte>, rest: seq<byte>)
    requires ELEM_SEP !in d
    ensures ElementAt(d + ([ELEM_SEP] + rest))
         == match LengthRead(d)
            case None => InvalidFormat
            case Some(n) => InFront("", |d| + 1, Extracted(rest, n))
  {
    var b := d + ([ELEM_SEP] + rest);
    assert b[..|d|] == d && b[|d|] == ELEM_SEP && b[|d| + 1..] == rest;
    IndexOfUnique(b, ELEM_SEP, |d|);
  }

  lemma ElementReadBack(value: string, rest: seq<byte>)
    ensures ElementAt(ElementBytes(value) + rest)
         == if |value| <= MAX_LENGTH then Found(value, |ElementBytes(value)|) else InvalidFormat
  {
    var d := Utf8.Encode(NatToString(|value|));
    DigitsReadBack(|value|, MAX_LENGTH);
    AppendFour(d, [ELEM_SEP], Utf8.Encode(value), rest);
    AppendAssoc([ELEM_SEP], Utf8.Encode(value), rest);
    ElementOf(d, Utf8.Encode(value) + rest);
    ExtractedString(value, rest);
    assert "" + value == value;
  }

  predicate AllShort(args: seq<string>) {
    forall k :: 0 <= k < |args| ==> |args[k]| <= MAX_LENGTH
  }

  /** What is read from the encoded arguments. */
  function ArgsOrRefusal(args: seq<string>): Peek<seq<string>> {
    if AllShort(args) then Found(args, |ArgsBytes(args)| + 1) else InvalidFormat
  }

  lemma {:induction false} ArgsReadBack(args: seq<string>, rest: seq<byte>)
    ensures ReadsArgs(ArgsBytes(args) + ([INST_TERM] + rest), ArgsOrRefusal(args))
  {
    var end := [INST_TERM] + rest;
    if args == [] {
      assert [] + end == end;
    } else {
      ArgsReadBack(args[1..], rest);
      OneMoreReadBack(args, end);
    }
  }

  lemma OneMoreReadBack(args: seq<string>, end: seq<byte>)
    requires args != [] && ReadsArgs(ArgsBytes(args[1..]) + end, ArgsOrRefusal(args[1..]))
    ensures ReadsArgs(ArgsBytes(args) + end, ArgsOrRefusal(args))
  {
    var e, tail := ElementBytes(args[0]), ArgsBytes(args[1..]) + end;
    AppendFour([ARG_SEP], e, ArgsBytes(args[1..]), end);
    AppendAssoc([ARG_SEP], e, ArgsBytes(args[1..]));
    ElementReadBack(args[0], tail);
    ShortTail(args);
    ArgBehindComma(e, tail, ElementAt(e + tail), ArgsOrRefusal(args[1..]));
  }

  lemma BehindComma(e: seq<byte>, tail: seq<byte>)
    ensures var b := [ARG_SEP] + (e + tail);
            && |b| == 1 + |e| + |tail| && b[0] == ARG_SEP && b[1..] == e + tail && b[1 + |e|..] == tail
  {
  }

  /** An element of known extent, behind a comma. */
  lemma ArgBehindComma(e: seq<byte>, tail: seq<byte>, arg: Peek<string>, r: Peek<seq<string>>)
    requires arg == ElementAt(e + tail) && (arg.Found? ==> arg.total == |e|) && ReadsArgs(tail, r)
    ensures ReadsArgs([ARG_SEP] + (e + tail),
                      if arg.Found? then InFront([arg.value], 1 + |e|, r) else Failure(arg))
  {
    var b := [ARG_SEP] + (e + tail);
    BehindComma(e, tail);
    if arg.Found? {
      ArgsOfArgument(b, arg, tail, r);
    } else {
      FailureRead(b, arg);
    }
  }

  lemma ShortTail(args: seq<string>)
    ensures args != [] ==> args == [args[0]] + args[1..]
    ensures args != [] ==> (AllShort(args) <==> |args[0]| <= MAX_LENGTH && AllShort(args[1..]))
  {
    if args != [] {
      assert forall k :: 0 < k < |args| ==> args[k] == args[1..][k - 1];
    }
  }

  lemma OpcodeOfExtent(e: seq<byte>, tail: seq<byte>)
    ensures var opcode := ElementAt(e + tail);
            if opcode.Found? && opcode.total == |e| then Peeked(e + tail) == Completed(opcode.value, |e|, ArgsAt(tail))
            else !opcode.Found? ==> Peeked(e + tail) == Failure(opcode)
  {
    assert (e + tail)[|e|..] == tail;
  }

  /** Peeking finds exactly the instruction that was encoded, whatever follows, if and only if no
      element has more than a million characters. */
  lemma PeekReadsBackIff(i: Instruction, rest: seq<byte>)
    ensures Peeked(Encoded(i) + rest) == Found(i, |Encoded(i)|)
            <==> |i.opcode| <= MAX_LENGTH && AllShort(i.args)
  {
    var e, a := ElementBytes(i.opcode), ArgsBytes(i.args);
    EncodedBytes(i);
    AppendFour(e, a, [INST_TERM], rest);
    AppendAssoc(a, [INST_TERM], rest);
    ElementReadBack(i.opcode, a + ([INST_TERM] + rest));
    OpcodeOfExtent(e, a + ([INST_TERM] + rest));
    ArgsReadBack(i.args, rest);
  }

  lemma SyncEncoded()
    ensures Encoded(Instruction("sync", [])) == SYNC
  {
    var text := InstructionText(Instruction("sync", []));
    assert text == "4.sync";
    Utf8.EncodeAscii(text);
  }

  lemma SyncIsPeeked(buffer: seq<byte>)
    requires |buffer| >= 7 && buffer[..7] == SYNC
    ensures Peeked(buffer) == Found(Instruction("sync", []), 7)
  {
    SyncEncoded();
    assert buffer == SYNC + buffer[7..];
    PeekReadsBackIff(Instruction("sync", []), buffer[7..]);
  }
}
