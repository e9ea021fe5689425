/**
 The other parser of the protocol, which the server uses: it takes the lengths for byte counts and cuts the
 instruction at its first semicolon. The printers count characters, so it reads back what they print exactly
 when the text is ASCII and free of semicolons.
 */
module GuacamoleParser {
  import opened Decimal
  import opened Prelude
  import opened StreamingParser
  import opened Text
  import Utf8

  /** One more than the greatest `usize`, and than the greatest length of a string. */
  const USIZE_END: nat := 0x1_0000_0000_0000_0000
  const STRING_END: nat := 0x8000_0000_0000_0000

  /** Slicing a string inside a character panics. */
  datatype Reading<+T> = Read(value: T) | Refused | Panicked

  /** A value, and the text behind it. */
  datatype Cut = Cut(value: string, rest: string)

  // ------------------------------------------------------------------ the parser

  /** The next `n` bytes of `text`, which starts `start` bytes into a string. An overflow of their sum
      panics, or wraps round to a slice that ends before it starts, which panics too. */
  function ValueBehind(start: nat, n: nat, text: string): (r: Reading<Cut>)
    ensures r.Read? ==> r.value.value + r.value.rest == text
  {
    if start + n >= USIZE_END then Panicked
    else if n > Utf8.Len(text) then Refused
    else
      match Utf8.CharIndex(text, n)
      case None => Panicked
      case Some(k) => Read(Cut(text[..k], text[k..]))
  }

  /** A value behind its length and a dot. */
  function LengthValue(text: string): (r: Reading<Cut>)
    ensures r.Read? ==> |r.value.rest| < |text|
  {
    var dot := IndexOf(text, '.');
    if dot == |text| then Refused
    else
      match ParseInt(text[..dot], 0, USIZE_END)
      case None => Refused
      case Some(n) => ValueBehind(Utf8.Len(text[..dot + 1]), n, text[dot + 1..])
  }

  function AfterComma(text: string): string {
    if text != "" && text[0] == ',' then text[1..] else text
  }

  /** Arguments, each perhaps behind a comma. */
  function ArgsIn(text: string): Reading<seq<string>>
    decreases |text|
  {
    if text == "" then Read([])
    else
      match LengthValue(AfterComma(text))
      case Read(cut) => InFront([cut.value], ArgsIn(cut.rest))
      case Refused => Refused
      case Panicked => Panicked
  }

  function InFront(args: seq<string>, r: Reading<seq<string>>): Reading<seq<string>> {
    if r.Read? then Read(args + r.value) else r
  }

  /** The text in front of the terminator. */
  function ParsedText(text: string): Reading<Instruction> {
    match LengthValue(text)
    case Read(cut) => Completed(cut.value, ArgsIn(cut.rest))
    case Refused => Refused
    case Panicked => Panicked
  }

  function Completed(opcode: string, args: Reading<seq<string>>): Reading<Instruction> {
    match args
    case Read(values) => Read(Instruction(opcode, values))
    case Refused => Refused
    case Panicked => Panicked
  }

  function Parsed(text: string): Reading<Instruction> {
    if ';' in text then ParsedText(UpTo(text, ';')) else Refused
  }

  method ParseInstruction(text: string) returns (r: Reading<Instruction>)
    ensures r == Parsed(text)
  {
    var end := IndexOf(text, ';');
    if end == |text| {
      return Refused;
    }
    var opcode := LengthValue(text[..end]);
    match opcode {
      case Refused => return Refused;
      case Panicked => return Panicked;
      case Read(cut) =>
        var args := ParseArguments(cut.rest);
        return Completed(cut.value, args);
    }
  }

  method ParseArguments(text: string) returns (r: Reading<seq<string>>)
    ensures r == ArgsIn(text)
  {
    ghost var whole := ArgsIn(text);
    var remaining, args := text, [];
    assert whole.Read? ==> [] + whole.value == whole.value;
    while remaining != ""
      invariant Continues(remaining, args, whole)
      decreases |remaining|
    {
      if remaining[0] == ',' {
        remaining := remaining[1..];
      }
      match LengthValue(remaining) {
        case Refused => return Refused;
        case Panicked => return Panicked;
        case Read(cut) =>
          OneMoreArg(args, cut, whole);
          args, remaining := args + [cut.value], cut.rest;
      }
    }
    assert args + [] == args;
    return Read(args);
  }

  /** With these arguments read already, reading on gives `whole`. */
  predicate Continues(remaining: string, args: seq<string>, whole: Reading<seq<string>>) {
    InFront(args, ArgsIn(remaining)) == whole
  }

  lemma OneMoreArg(args: seq<string>, cut: Cut, whole: Reading<seq<string>>)
    requires InFront(args, InFront([cut.value], ArgsIn(cut.rest))) == whole
    ensures Continues(cut.rest, args + [cut.value], whole)
  {
    if ArgsIn(cut.rest).Read? {
      AppendAssoc(args, [cut.value], ArgsIn(cut.rest).value);
    }
  }

  // ------------------------------------------------------------------ one printed element

  lemma DigitsText(n: nat)
    ensures IsAscii(NatToString(n)) && '.' !in NatToString(n) && ';' !in NatToString(n)
    ensures n < USIZE_END ==> ParseInt(NatToString(n), 0, USIZE_END) == Some(n)
  {
    if n < USIZE_END {
      ParseIntOfString(n, 0, USIZE_END);
    }
  }

  /** The length in front of a value counts its characters. */
  lemma ElementCut(value: string, rest: string)
    requires Utf8.Len(ElementText(value) + rest) < STRING_END
    ensures |value| <= Utf8.Len(value) <= Utf8.Len(value + rest) < STRING_END
    ensures LengthValue(ElementText(value) + rest) == ValueBehind(|NatToString(|value|)| + 1, |value|, value + rest)
    ensures |NatToString(|value|)| + 1 + |value| < USIZE_END
  {
    var n := NatToString(|value|);
    Utf8.LenAtLeast(value);
    DigitsText(|value|);
    Utf8.AsciiLen(n + ".");
    AppendAssoc(n + ".", value, rest);
    Utf8.LenAppend(n + ".", value + rest);
    Utf8.LenAppend(value, rest);
    LengthValueOf(n, |value|, value + rest, ".");
  }

  lemma LengthValueOf(digits: string, n: nat, tail: string, dot: string)
    requires IsAscii(digits) && dot == ['.'] && '.' !in digits && ParseInt(digits, 0, USIZE_END) == Some(n)
    ensures LengthValue((digits + dot) + tail) == ValueBehind(|digits| + 1, n, tail)
  {
    var text := (digits + dot) + tail;
    BehindDot(digits, dot, tail);
    IndexOfUnique(text, '.', |digits|);
    Utf8.AsciiLen(digits + dot);
  }

  lemma BehindDot(n: string, dot: string, tail: string)
    requires dot == ['.']
    ensures var text := (n + dot) + tail;
            && |n| < |text| && text[|n|] == '.'
            && text[..|n|] == n && text[..|n| + 1] == n + dot && text[|n| + 1..] == tail
  {
  }

  /** So an ASCII value is read back, and of another one too few bytes are taken. */
  lemma ElementReadIff(value: string, rest: string)
    requires Utf8.Len(ElementText(value) + rest) < STRING_END
    ensures var r := LengthValue(ElementText(value) + rest);
            && (IsAscii(value) ==> r == Read(Cut(value, rest)))
            && (r.Read? && !IsAscii(value) ==> r.value.value != value)
  {
    ElementCut(value, rest);
    Utf8.LenAtLeast(value);
    if IsAscii(value) {
      Utf8.IndexBetween(value, rest);
      assert (value + rest)[..|value|] == value && (value + rest)[|value|..] == rest;
    } else if Utf8.CharIndex(value + rest, |value|).Some? {
      Utf8.IndexLen(value + rest, |value|);
    }
  }

  /** A value of one longer character is cut inside that character. */
  lemma LongCharacterPanics(c: char, rest: string)
    requires !IsAsciiChar(c) && Utf8.Len(ElementText([c]) + rest) < STRING_END
    ensures LengthValue(ElementText([c]) + rest) == Panicked
  {
    ElementCut([c], rest);
    Utf8.NoIndexInside("", c, rest, 1);
    assert "" + ([c] + rest) == [c] + rest;
  }

  lemma LengthTaken(n: nat, text: string, dot: string)
    requires dot == ['.'] && n < STRING_END && Utf8.Len(NatToString(n) + dot + text) < STRING_END
    ensures LengthValue(NatToString(n) + dot + text) == ValueBehind(|NatToString(n)| + 1, n, text)
    ensures |NatToString(n)| + 1 + n < USIZE_END
  {
    var digits := NatToString(n);
    DigitsText(n);
    Utf8.AsciiLen(digits + dot);
    Utf8.LenAppend(digits + dot, text);
    LengthValueOf(digits, n, text, dot);
  }

  lemma CutBetween(start: nat, b: string, a: string)
    requires start + Utf8.Len(b) < USIZE_END
    ensures ValueBehind(start, Utf8.Len(b), b + a) == Read(Cut(b, a))
  {
    Utf8.LenAppend(b, a);
    Utf8.IndexBetween(b, a);
    assert (b + a)[..|b|] == b && (b + a)[|b|..] == a;
  }

  lemma CutInside(start: nat, n: nat, b: string, c: char, a: string)
    requires start + n < USIZE_END && Utf8.Len(b) < n < Utf8.Len(b) + Utf8.Width(c)
    ensures ValueBehind(start, n, b + ([c] + a)) == Panicked
  {
    Utf8.LenAppend(b, [c] + a);
    Utf8.LenCons(c, a);
    Utf8.NoIndexInside(b, c, a, n - Utf8.Len(b));
  }

  /** A printed length and a dot, in front of any text: the value ends behind that many bytes; it is refused when the
      text has fewer, and the parser panics when they end inside a character. */
  lemma ValueOutcome(n: nat, b: string, c: char, a: string, dot: string, text: string)
    requires dot == ['.'] && text == b + ([c] + a)
    requires n < STRING_END && Utf8.Len(NatToString(n) + dot + text) < STRING_END
    ensures var r := LengthValue(NatToString(n) + dot + text);
            && (n > Utf8.Len(text) ==> r == Refused)
            && (n == Utf8.Len(b) ==> r == Read(Cut(b, [c] + a)))
            && (Utf8.Len(b) < n < Utf8.Len(b) + Utf8.Width(c) ==> r == Panicked)
  {
    var start := |NatToString(n)| + 1;
    LengthTaken(n, text, dot);
    if n == Utf8.Len(b) {
      CutBetween(start, b, [c] + a);
    } else if Utf8.Len(b) < n < Utf8.Len(b) + Utf8.Width(c) {
      CutInside(start, n, b, c, a);
      Utf8.LenAppend(b, [c] + a);
      Utf8.LenCons(c, a);
    }
  }

  /** Without a dot, with no number in front of it, or without a terminator the text is refused. */
  lemma TextRefused(text: string)
    ensures ';' !in text ==> Parsed(text) == Refused
    ensures '.' !in text ==> LengthValue(text) == Refused
    ensures text != "" && !('0' <= text[0] <= '9') && text[0] != '+' ==> LengthValue(text) == Refused
  {
    var dot := IndexOf(text, '.');
    if dot > 0 && dot < |text| && !('0' <= text[0] <= '9') && text[0] != '+' {
      assert text[..dot][0] == text[0] && !IsDigit(text[..dot][0]);
    }
  }

  // ------------------------------------------------------------------ whole instructions

  /** Text whose characters are single bytes, without the terminator. */
  predicate Plain(s: string) {
    IsAscii(s) && ';' !in s
  }

  predicate AllPlain(args: seq<string>) {
    forall k :: 0 <= k < |args| ==> Plain(args[k])
  }

  predicate AllAscii(args: seq<string>) {
    forall k :: 0 <= k < |args| ==> IsAscii(args[k])
  }

  predicate NoTerminator(args: seq<string>) {
    forall k :: 0 <= k < |args| ==> ';' !in args[k]
  }

  lemma ArgsTextStep(args: seq<string>)
    requires args != []
    ensures ArgsText(args) != "" && AfterComma(ArgsText(args)) == ElementText(args[0]) + ArgsText(args[1..])
    ensures Utf8.Len(AfterComma(ArgsText(args))) < Utf8.Len(ArgsText(args))
    ensures Utf8.Len(ArgsText(args[1..])) < Utf8.Len(ArgsText(args))
  {
    var tail := ElementText(args[0]) + ArgsText(args[1..]);
    assert ArgsText(args) == [','] + tail && ([','] + tail)[1..] == tail;
    Utf8.LenCons(',', tail);
    Utf8.LenAppend(ElementText(args[0]), ArgsText(args[1..]));
  }

  predicate ReadWhole(args: seq<string>) {
    ArgsIn(ArgsText(args)) == Read(args)
  }

  lemma {:induction false} ArgsRead(args: seq<string>)
    requires Utf8.Len(ArgsText(args)) < STRING_END && AllAscii(args)
    ensures ReadWhole(args)
  {
    if args != [] {
      ArgsTextStep(args);
      ArgsRead(args[1..]);
      OneMoreRead(args);
    }
  }

  lemma OneMoreRead(args: seq<string>)
    requires args != [] && IsAscii(args[0]) && Utf8.Len(ArgsText(args)) < STRING_END && ReadWhole(args[1..])
    ensures ReadWhole(args)
  {
    FirstArgRead(args, ArgsText(args), ArgsText(args[1..]));
    ReadOn(ArgsText(args), Cut(args[0], ArgsText(args[1..])), Read(args[1..]));
    assert [args[0]] + args[1..] == args;
  }

  lemma FirstArgRead(args: seq<string>, text: string, tail: string)
    requires args != [] && IsAscii(args[0]) && Utf8.Len(text) < STRING_END
    requires text == ArgsText(args) && tail == ArgsText(args[1..])
    ensures text != "" && LengthValue(AfterComma(text)) == Read(Cut(args[0], tail))
  {
    ArgsTextStep(args);
    ElementReadIff(args[0], tail);
  }

  predicate ReadsArgs(text: string, r: Reading<seq<string>>) {
    ArgsIn(text) == r
  }

  lemma ReadOn(text: string, cut: Cut, r: Reading<seq<string>>)
    requires text != "" && LengthValue(AfterComma(text)) == Read(cut) && ReadsArgs(cut.rest, r)
    ensures ReadsArgs(text, InFront([cut.value], r))
  {
  }

  /** Where a value was changed on the way, or did not arrive at all. */
  predicate Lost(args: seq<string>, r: Reading<seq<string>>, k: nat)
  {
    k < |args| && (r.Read? && k < |r.value| ==> r.value[k] != args[k])
  }

  predicate LostOnTheWay(args: seq<string>, k: nat) {
    Lost(args, ArgsIn(ArgsText(args)), k)
  }

  /** The first value that is not ASCII is lost. */
  lemma {:induction false} NotAsciiIsLost(args: seq<string>) returns (k: nat)
    requires Utf8.Len(ArgsText(args)) < STRING_END && !AllAscii(args)
    ensures k < |args| && !IsAscii(args[k]) && LostOnTheWay(args, k)
  {
    if IsAscii(args[0]) {
      ArgsTextStep(args);
      k := NotAsciiIsLost(args[1..]);
      LostBehind(args, k);
      k := k + 1;
    } else {
      FirstIsLost(args);
      k := 0;
    }
  }

  lemma LostBehind(args: seq<string>, k: nat)
    requires args != [] && IsAscii(args[0]) && Utf8.Len(ArgsText(args)) < STRING_END && LostOnTheWay(args[1..], k)
    ensures LostOnTheWay(args, k + 1)
  {
    FirstArgRead(args, ArgsText(args), ArgsText(args[1..]));
    OneBehind(args, ArgsIn(ArgsText(args[1..])), k);
  }

  lemma OneBehind(args: seq<string>, r: Reading<seq<string>>, k: nat)
    requires args != [] && Lost(args[1..], r, k)
    ensures Lost(args, InFront([args[0]], r), k + 1)
  {
  }

  lemma FirstIsLost(args: seq<string>)
    requires args != [] && !IsAscii(args[0]) && Utf8.Len(ArgsText(args)) < STRING_END
    ensures LostOnTheWay(args, 0)
  {
    ArgsTextStep(args);
    ElementReadIff(args[0], ArgsText(args[1..]));
  }

  /** What is read has no semicolon, as the text has none. */
  lemma {:induction false} ArgsReadClean(text: string)
    requires ';' !in text && ArgsIn(text).Read?
    ensures NoTerminator(ArgsIn(text).value)
    decreases |text|
  {
    if text != "" {
      CutClean(AfterComma(text));
      ArgsReadClean(LengthValue(AfterComma(text)).value.rest);
    }
  }

  lemma CutClean(text: string)
    requires ';' !in text && LengthValue(text).Read?
    ensures ';' !in LengthValue(text).value.value && ';' !in LengthValue(text).value.rest
  {
    var cut := LengthValue(text).value;
    var tail := text[IndexOf(text, '.') + 1..];
    assert forall c <- cut.value :: c in cut.value + cut.rest;
    assert forall c <- cut.rest :: c in cut.value + cut.rest;
  }

  lemma {:induction false} ArgsTextClean(args: seq<string>)
    ensures ';' !in ArgsText(args) <==> NoTerminator(args)
  {
    if args != [] {
      ArgsTextClean(args[1..]);
      DigitsText(|args[0]|);
      assert NoTerminator(args) <==> ';' !in args[0] && NoTerminator(args[1..]) by {
        assert forall k :: 0 < k < |args| ==> args[k] == args[1..][k - 1];
      }
    }
  }

  /** Of an instruction with a plain opcode, the arguments are read as they stand in the text up to the
      first semicolon. */
  lemma OpcodeRead(i: Instruction, text: string)
    requires Utf8.Len(InstructionText(i)) < STRING_END && Plain(i.opcode)
    requires text == UpTo(InstructionText(i) + ";", ';')
    ensures ';' !in text
    ensures ParsedText(text).Read? ==> NoTerminator(ParsedText(text).value.args)
    ensures NoTerminator(i.args) ==> ParsedText(text) == Completed(i.opcode, ArgsIn(ArgsText(i.args)))
  {
    if ParsedText(text).Read? {
      CutClean(text);
      ArgsReadClean(LengthValue(text).value.rest);
    }
    if NoTerminator(i.args) {
      ArgsTextClean(i.args);
      DigitsText(|i.opcode|);
      NoCut(InstructionText(i));
      ElementReadIff(i.opcode, ArgsText(i.args));
    }
  }

  lemma NoCut(s: string)
    ensures ';' !in s ==> UpTo(s + ";", ';') == s
  {
    if ';' !in s {
      IndexOfUnique(s + ";", ';', |s|);
    }
  }

  /** A value that is not plain is lost. */
  lemma UnplainIsLost(i: Instruction, text: string) returns (k: nat)
    requires Utf8.Len(InstructionText(i)) < STRING_END && Plain(i.opcode) && !AllPlain(i.args)
    requires text == UpTo(InstructionText(i) + ";", ';')
    ensures k < |i.args| && !Plain(i.args[k])
    ensures ParsedText(text).Read? && k < |ParsedText(text).value.args| ==> ParsedText(text).value.args[k] != i.args[k]
  {
    OpcodeRead(i, text);
    if NoTerminator(i.args) {
      Utf8.LenAppend(ElementText(i.opcode), ArgsText(i.args));
      k := NotAsciiIsLost(i.args);
      LostFromWhole(i, ArgsIn(ArgsText(i.args)), k);
    } else {
      k :| 0 <= k < |i.args| && ';' in i.args[k];
    }
  }

  lemma LostFromWhole(i: Instruction, r: Reading<seq<string>>, k: nat)
    requires Lost(i.args, r, k)
    ensures var whole := Completed(i.opcode, r);
            whole.Read? && k < |whole.value.args| ==> whole.value.args[k] != i.args[k]
  {
  }

  /** An instruction is read back exactly when its arguments are plain. */
  lemma ReadBackIff(i: Instruction, text: string)
    requires Utf8.Len(InstructionText(i)) < STRING_END && Plain(i.opcode)
    requires text == UpTo(InstructionText(i) + ";", ';')
    ensures ParsedText(text) == Read(i) <==> AllPlain(i.args)
  {
    if AllPlain(i.args) {
      OpcodeRead(i, text);
      Utf8.LenAppend(ElementText(i.opcode), ArgsText(i.args));
      ArgsRead(i.args);
    } else {
      var k := UnplainIsLost(i, text);
    }
  }

  /** Whatever the arguments, the opcode is read as it was printed, if anything is. */
  lemma OpcodeKept(i: Instruction, text: string)
    requires Utf8.Len(InstructionText(i)) < STRING_END && Plain(i.opcode)
    requires text == UpTo(InstructionText(i) + ";", ';')
    ensures ParsedText(text).Read? ==> ParsedText(text).value.opcode == i.opcode
  {
    var e := ElementText(i.opcode);
    DigitsText(|i.opcode|);
    var part := CutBehind(e, ArgsText(i.args), ";");
    ElementReadIff(i.opcode, part);
  }

  /** The text up to the first terminator, when that is not in its first part. */
  lemma CutBehind(e: string, a: string, end: string) returns (part: string)
    requires ';' !in e && end == [';']
    ensures UpTo(e + a + end, ';') == e + part && Utf8.Len(e + part) <= Utf8.Len(e + a)
  {
    var k := IndexOf(a + end, ';');
    part := a[..k];
    CutAcross(e, a, end, k);
    IndexOfUnique(e + a + end, ';', |e| + k);
    Utf8.LenSplit(a, k);
    Utf8.LenAppend(e, part);
    Utf8.LenAppend(e, a);
  }

  lemma CutAcross(e: string, a: string, end: string, k: nat)
    requires ';' !in e && end == [';'] && k < |a + end| && (a + end)[k] == ';' && ';' !in (a + end)[..k]
    ensures k <= |a| && (e + a + end)[..|e| + k] == e + a[..k]
    ensures (e + a + end)[|e| + k] == ';' && ';' !in (e + a + end)[..|e| + k]
  {
    assert (a + end)[..k] == a[..k];
  }
}
