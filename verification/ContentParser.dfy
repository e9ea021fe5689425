/** Parsing the content of an instruction that was found by peeking: everything but its terminator. */
module ContentParser {
  import opened Decimal
  import opened Prelude
  import opened StreamingParser
  import Utf8

  const USIZE_MAX: nat := 0xFFFF_FFFF_FFFF_FFFF

  // ------------------------------------------------------------------ the parser

  /** A value behind its length, which may be any `usize` here, and the bytes that both take. */
  datatype Element = Element(text: string, width: nat) | NoElement

  function ContentElement(b: seq<byte>): (r: Element)
    ensures r.Element? ==> 0 < r.width <= |b|
  {
    var d := IndexOf(b, ELEM_SEP);
    if d == |b| then NoElement
    else
      match UsizeOf(b[..d])
      case None => NoElement
      case Some(n) => Taken(d + 1, Extracted(b[d + 1..], n))
  }

  /** `str::parse::<usize>`: digits, perhaps behind a plus sign. What is not UTF-8 is no number either. */
  function UsizeOf(s: seq<byte>): Option<nat> {
    var digits := if s != [] && s[0] == '+' as int then s[1..] else s;
    if digits == [] then None else DigitsRead(digits, USIZE_MAX)
  }

  function Taken(width: nat, p: Peek<string>): Element {
    if p.Found? then Element(p.value, width + p.total) else NoElement
  }

  function ContentArgs(b: seq<byte>): Option<seq<string>>
    decreases |b|
  {
    if b == [] then Some([])
    else if b[0] != ARG_SEP then None
    else
      match ContentElement(b[1..])
      case NoElement => None
      case Element(arg, k) => Behind([arg], ContentArgs(b[1 + k..]))
  }

  function Behind(args: seq<string>, rest: Option<seq<string>>): Option<seq<string>> {
    if rest.Some? then Some(args + rest.value) else None
  }

  const ZERO: seq<byte> := ['0' as int, ELEM_SEP]

  function Content(b: seq<byte>): Option<Instruction> {
    if b == [] || b == ZERO then Some(Instruction("", []))
    else
      match ContentElement(b)
      case NoElement => None
      case Element(opcode, k) => Completed(opcode, ContentArgs(b[k..]))
  }

  function Completed(opcode: string, args: Option<seq<string>>): Option<Instruction> {
    if args.Some? then Some(Instruction(opcode, args.value)) else None
  }

  method ParseElement(b: seq<byte>) returns (r: Element)
    ensures r == ContentElement(b)
  {
    var d := IndexOf(b, ELEM_SEP);
    if d == |b| {
      return NoElement;
    }
    var length := UsizeOf(b[..d]);
    if length.None? {
      return NoElement;
    }
    var value := ExtractUtf8Chars(b[d + 1..], length.value);
    return Taken(d + 1, value);
  }

  method ParseInstructionContent(content: seq<byte>) returns (r: Option<Instruction>)
    ensures r == Content(content)
  {
    if content == [] || content == ZERO {
      return Some(Instruction("", []));
    }
    var opcode := ParseElement(content);
    if opcode.NoElement? {
      return None;
    }
    var args := ParseArguments(content[opcode.width..]);
    return Completed(opcode.text, args);
  }

  method ParseArguments(content: seq<byte>) returns (r: Option<seq<string>>)
    ensures r == ContentArgs(content)
  {
    ghost var whole := ContentArgs(content);
    var pos, args := 0, [];
    assert content[0..] == content && (whole.Some? ==> [] + whole.value == whole.value);
    while pos < |content|
      invariant pos <= |content|
      invariant Continues(content[pos..], args, whole)
    {
      if content[pos] != ARG_SEP {
        return None;
      }
      var arg := ParseArgument(content, pos);
      if arg.NoElement? {
        return None;
      }
      var next := pos + 1 + arg.width;
      OneMoreArg(content[pos..], args, whole, arg.text, arg.width, content[next..]);
      pos, args := next, args + [arg.text];
    }
    assert args + [] == args;
    return Some(args);
  }

  /** The argument behind the comma at `pos`, which must not end the content. */
  method ParseArgument(content: seq<byte>, pos: nat) returns (arg: Element)
    requires pos < |content| && content[pos] == ARG_SEP
    ensures arg == ContentElement(content[pos..][1..])
    ensures arg.Element? ==>
              pos + 1 + arg.width <= |content| && content[pos + 1 + arg.width..] == content[pos..][1 + arg.width..]
  {
    TwoSlices(content, pos, 1);
    if pos + 1 >= |content| {
      assert content[pos..][1..] == [];
      return NoElement;
    }
    arg := ParseElement(content[pos + 1..]);
    if arg.Element? {
      TwoSlices(content, pos, 1 + arg.width);
    }
  }

  /** With these arguments read already, reading on at `b` gives `whole`. */
  predicate Continues(b: seq<byte>, args: seq<string>, whole: Option<seq<string>>) {
    Behind(args, ContentArgs(b)) == whole
  }

  lemma OneMoreArg(b: seq<byte>, args: seq<string>, whole: Option<seq<string>>, arg: string, k: nat, tail: seq<byte>)
    requires Continues(b, args, whole)
    requires b != [] && b[0] == ARG_SEP && ContentElement(b[1..]) == Element(arg, k) && tail == b[1 + k..]
    ensures Continues(tail, args + [arg], whole)
  {
    var rest := ContentArgs(tail);
    if rest.Some? {
      AppendAssoc(args, [arg], rest.value);
    }
  }

  // ------------------------------------------------------------------ reading back what is encoded

  predicate TakesElement(b: seq<byte>, arg: string, k: nat) {
    ContentElement(b) == Element(arg, k)
  }

  predicate GivesArgs(b: seq<byte>, args: seq<string>) {
    ContentArgs(b) == Some(args)
  }

  /** A value behind digits and a dot. */
  lemma ContentElementOf(d: seq<byte>, rest: seq<byte>, n: nat, arg: string, width: nat)
    requires ELEM_SEP !in d && UsizeOf(d) == Some(n) && Extracted(rest, n) == Found(arg, width)
    ensures TakesElement(d + ([ELEM_SEP] + rest), arg, |d| + 1 + width)
  {
    var b := d + ([ELEM_SEP] + rest);
    BehindDot(d, rest);
    IndexOfUnique(b, ELEM_SEP, |d|);
  }

  lemma BehindDot(d: seq<byte>, rest: seq<byte>)
    ensures var b := d + ([ELEM_SEP] + rest);
            b[..|d|] == d && |d| < |b| && b[|d|] == ELEM_SEP && b[|d| + 1..] == rest
  {
  }

  lemma UsizeReadBack(n: nat)
    requires n <= USIZE_MAX
    ensures UsizeOf(Utf8.Encode(NatToString(n))) == Some(n) && ELEM_SEP !in Utf8.Encode(NatToString(n))
  {
    DigitsReadBack(n, USIZE_MAX);
  }

  lemma ElementParsed(value: string, rest: seq<byte>)
    requires |value| <= USIZE_MAX
    ensures TakesElement(ElementBytes(value) + rest, value, |ElementBytes(value)|)
  {
    var d, v := Utf8.Encode(NatToString(|value|)), Utf8.Encode(value);
    UsizeReadBack(|value|);
    AppendFour(d, [ELEM_SEP], v, rest);
    AppendAssoc([ELEM_SEP], v, rest);
    ExtractedString(value, rest);
    ContentElementOf(d, v + rest, |value|, value, |v|);
  }

  lemma ArgsOfElement(b: seq<byte>, e: seq<byte>, arg: string, tail: seq<byte>, args: seq<string>, all: seq<string>)
    requires b == [ARG_SEP] + (e + tail) && TakesElement(e + tail, arg, |e|)
    requires GivesArgs(tail, args) && all == [arg] + args
    ensures GivesArgs(b, all)
  {
    BehindComma(e, tail);
  }

  lemma ContentOfParts(e: seq<byte>, opcode: string, tail: seq<byte>, args: seq<string>)
    requires TakesElement(e + tail, opcode, |e|) && GivesArgs(tail, args)
    ensures Content(e + tail) == Some(Instruction(opcode, args))
  {
    assert (e + tail)[|e|..] == tail;
    if e + tail == ZERO {
      ZeroElement();
    }
  }

  lemma ZeroElement()
    ensures TakesElement(ZERO, "", 2) && GivesArgs(ZERO[2..], [])
  {
    var digits: seq<byte> := ['0' as int];
    assert [] + digits == digits && digits + ([ELEM_SEP] + []) == ZERO;
    DigitsSnoc([], digits[0], USIZE_MAX);
    ContentElementOf(digits, [], 0, "", 0);
  }

  predicate FitUsize(args: seq<string>) {
    forall k :: 0 <= k < |args| ==> |args[k]| <= USIZE_MAX
  }

  lemma {:induction false} ArgsParsed(args: seq<string>)
    requires FitUsize(args)
    ensures GivesArgs(ArgsBytes(args), args)
  {
    if args != [] {
      ArgsParsed(args[1..]);
      ElementParsed(args[0], ArgsBytes(args[1..]));
      ArgsBytesStep(args);
      ArgsOfElement(ArgsBytes(args), ElementBytes(args[0]), args[0], ArgsBytes(args[1..]), args[1..], args);
    }
  }

  lemma ArgsBytesStep(args: seq<string>)
    ensures args != [] ==>
              && ArgsBytes(args) == [ARG_SEP] + (ElementBytes(args[0]) + ArgsBytes(args[1..]))
              && args == [args[0]] + args[1..]
  {
    if args != [] {
      AppendAssoc([ARG_SEP], ElementBytes(args[0]), ArgsBytes(args[1..]));
    }
  }

  /** The content of every encoded instruction is parsed as that instruction; no string has 2^64
      characters. */
  lemma ContentReadsBack(i: Instruction)
    requires |i.opcode| <= USIZE_MAX && FitUsize(i.args)
    ensures Content(Utf8.Encode(InstructionText(i))) == Some(i)
  {
    var e, a := ElementBytes(i.opcode), ArgsBytes(i.args);
    Utf8.EncodeAppend(ElementText(i.opcode), ArgsText(i.args));
    EncodeElement(i.opcode);
    EncodeArgs(i.args);
    ElementParsed(i.opcode, a);
    ArgsParsed(i.args);
    ContentOfParts(e, i.opcode, a, i.args);
  }

  // ------------------------------------------------------------------ it agrees with peeking

  predicate IsElement(b: seq<byte>, arg: string, k: nat) {
    ElementAt(b) == Found(arg, k)
  }

  /** A length that peeking accepts is read as the same `usize`. */
  lemma LengthIsUsize(d: seq<byte>)
    requires LengthRead(d).Some?
    ensures UsizeOf(d) == LengthRead(d)
  {
    DigitsAreAscii(d, MAX_LENGTH);
    DigitsWithin(d, MAX_LENGTH, USIZE_MAX);
  }

  lemma ElementSplit(b: seq<byte>, arg: string, k: nat) returns (d: seq<byte>, rest: seq<byte>, n: nat, width: nat)
    requires IsElement(b, arg, k)
    ensures b == d + ([ELEM_SEP] + rest) && ELEM_SEP !in d && LengthRead(d) == Some(n)
    ensures Extracted(rest, n) == Found(arg, width) && k == |d| + 1 + width && width <= |rest|
  {
    var i := IndexOf(b, ELEM_SEP);
    d, rest := b[..i], b[i + 1..];
    n := LengthRead(d).value;
    width := Extracted(rest, n).total;
    CutAtDot(b, i);
    assert "" + Extracted(rest, n).value == Extracted(rest, n).value;
  }

  lemma CutAtDot(b: seq<byte>, i: nat)
    ensures i < |b| ==> b == b[..i] + ([b[i]] + b[i + 1..])
  {
  }

  lemma CutAgrees(d: seq<byte>, rest: seq<byte>, n: nat, arg: string, width: nat, short: seq<byte>, cut: seq<byte>)
    requires ELEM_SEP !in d && LengthRead(d) == Some(n) && Extracted(rest, n) == Found(arg, width)
    requires short <= rest && width <= |short| && cut == d + ([ELEM_SEP] + short)
    ensures TakesElement(cut, arg, |d| + 1 + width)
  {
    LengthIsUsize(d);
    PrefixExtracted(rest, short, n);
    ContentElementOf(d, short, n, arg, width);
  }

  lemma PrefixExtracted(rest: seq<byte>, short: seq<byte>, n: nat)
    requires short <= rest && Extracted(rest, n).Found? && Extracted(rest, n).total <= |short|
    ensures Extracted(short, n) == Extracted(rest, n)
  {
    ExtractedCut(rest, n, |short|);
    assert rest[..|short|] == short;
  }

  lemma ElementAgrees(b: seq<byte>, cut: seq<byte>, arg: string, k: nat)
    requires IsElement(b, arg, k) && cut <= b && k <= |cut|
    ensures TakesElement(cut, arg, k)
  {
    var d, rest, n, width := ElementSplit(b, arg, k);
    var short := rest[..|cut| - |d| - 1];
    PrefixBehindDot(d, rest, short, cut);
    CutAgrees(d, rest, n, arg, width, short, cut);
  }

  lemma PrefixBehindDot(d: seq<byte>, rest: seq<byte>, short: seq<byte>, cut: seq<byte>)
    requires cut <= d + ([ELEM_SEP] + rest) && |d| < |cut| && short <= rest && |short| == |cut| - |d| - 1
    ensures cut == d + ([ELEM_SEP] + short)
  {
  }

  lemma ArgsSplit(b: seq<byte>, args: seq<string>, n: nat)
    returns (e: seq<byte>, arg: string, tail: seq<byte>, rest: seq<string>, m: nat)
    requires ReadsArgs(b, Found(args, n)) && b != [] && b[0] == ARG_SEP
    ensures b == [ARG_SEP] + (e + tail) && IsElement(e + tail, arg, |e|) && ReadsArgs(tail, Found(rest, m))
    ensures args == [arg] + rest && n == 1 + |e| + m && 0 < m <= |tail|
  {
    var inner := b[1..];
    arg := ElementAt(inner).value;
    var k := ElementAt(inner).total;
    e, tail := inner[..k], inner[k..];
    assert inner == e + tail && b[1 + k..] == tail;
    rest, m := ArgsAt(tail).value, ArgsAt(tail).total;
  }

  lemma {:induction false} ArgsAgree(b: seq<byte>, cut: seq<byte>, args: seq<string>, n: nat)
    requires ReadsArgs(b, Found(args, n)) && cut <= b && |cut| + 1 == n
    ensures GivesArgs(cut, args)
    decreases |b|
  {
    if b[0] == ARG_SEP {
      var e, arg, tail, rest, m := ArgsSplit(b, args, n);
      ArgsAgree(tail, tail[..m - 1], rest, m);
      PrefixBehindComma(e, tail, tail[..m - 1], cut);
      OneArgAgrees(e, tail, tail[..m - 1], cut, arg, rest, args);
    } else {
      NoArgs(b, cut, args, n);
    }
  }

  lemma NoArgs(b: seq<byte>, cut: seq<byte>, args: seq<string>, n: nat)
    requires ReadsArgs(b, Found(args, n)) && b != [] && b[0] != ARG_SEP && |cut| + 1 == n
    ensures GivesArgs(cut, args)
  {
  }

  lemma PrefixBehindComma(e: seq<byte>, tail: seq<byte>, short: seq<byte>, cut: seq<byte>)
    requires cut <= [ARG_SEP] + (e + tail) && short <= tail && |cut| == 1 + |e| + |short|
    ensures cut == [ARG_SEP] + (e + short)
  {
  }

  lemma OneArgAgrees(e: seq<byte>, tail: seq<byte>, short: seq<byte>, cut: seq<byte>, arg: string, rest: seq<string>,
                     args: seq<string>)
    requires IsElement(e + tail, arg, |e|) && short <= tail && cut == [ARG_SEP] + (e + short)
    requires GivesArgs(short, rest) && args == [arg] + rest
    ensures GivesArgs(cut, args)
  {
    ElementAgrees(e + tail, e + short, arg, |e|);
    ArgsOfElement(cut, e, arg, short, rest, args);
  }

  predicate IsPeek(b: seq<byte>, i: Instruction, n: nat) {
    Peeked(b) == Found(i, n)
  }

  lemma PeekSplit(b: seq<byte>, i: Instruction, n: nat) returns (e: seq<byte>, tail: seq<byte>)
    requires IsPeek(b, i, n)
    ensures b == e + tail && IsElement(e + tail, i.opcode, |e|)
    ensures |e| < n <= |b| && ReadsArgs(tail, Found(i.args, n - |e|))
  {
    var k := ElementAt(b).total;
    e, tail := b[..k], b[k..];
    assert b == e + tail;
  }

  /** What was peeked at is always parsed, and as the same instruction. */
  lemma ContentAgrees(b: seq<byte>, i: Instruction, n: nat)
    requires IsPeek(b, i, n)
    ensures 0 < n <= |b| && Content(b[..n - 1]) == Some(i)
  {
    var e, tail := PeekSplit(b, i, n);
    var short := tail[..n - |e| - 1];
    ArgsAgree(tail, short, i.args, n - |e|);
    PrefixBehind(e, tail, short, b[..n - 1]);
    PartsAgree(e, tail, short, i);
  }

  lemma PrefixBehind(e: seq<byte>, tail: seq<byte>, short: seq<byte>, cut: seq<byte>)
    requires cut <= e + tail && short <= tail && |cut| == |e| + |short|
    ensures cut == e + short
  {
  }

  lemma PartsAgree(e: seq<byte>, tail: seq<byte>, short: seq<byte>, i: Instruction)
    requires IsElement(e + tail, i.opcode, |e|) && short <= tail && GivesArgs(short, i.args)
    ensures Content(e + short) == Some(i)
  {
    ElementAgrees(e + tail, e + short, i.opcode, |e|);
    ContentOfParts(e, i.opcode, short, i.args);
  }
}
