/**
 The instructions of a CSV transfer, read by the parser that counts characters, as a client does.

 The printers count bytes. So a value is delimited rightly exactly when it is ASCII: every blob and every end,
 and of the file and ack instructions those with an ASCII name and message.
 */
module CountedInstructions {
  import opened Decimal
  import opened Instructions
  import opened Prelude
  import opened StreamingParser
  import opened Text
  import Base64
  import Utf8

  // ------------------------------------------------------------------ with lengths in bytes

  function ByteCounted(args: seq<string>): string {
    if args == [] then "" else "," + Element(args[0]) + ByteCounted(args[1..])
  }

  /** An instruction whose arguments stand behind their lengths in bytes. */
  function Line(opcode: string, args: seq<string>): string {
    ElementText(opcode) + ByteCounted(args) + ";"
  }

  predicate AllAscii(args: seq<string>) {
    forall k :: 0 <= k < |args| ==> IsAscii(args[k])
  }

  function ByteElement(value: string): seq<byte> {
    Utf8.Encode(NatToString(|Utf8.Encode(value)|)) + [ELEM_SEP] + Utf8.Encode(value)
  }

  function ByteArgs(args: seq<string>): seq<byte> {
    if args == [] then [] else [ARG_SEP] + ByteElement(args[0]) + ByteArgs(args[1..])
  }

  lemma ElementEncoded(value: string)
    ensures Utf8.Encode(Element(value)) == ByteElement(value)
  {
    var n := NatToString(|Utf8.Encode(value)|);
    Utf8.EncodeAppend(n + ".", value);
    Utf8.EncodeAppend(n, ".");
    OneByte('.');
  }

  lemma {:induction false} ArgsEncoded(args: seq<string>)
    ensures Utf8.Encode(ByteCounted(args)) == ByteArgs(args)
  {
    if args != [] {
      ArgsEncoded(args[1..]);
      ElementEncoded(args[0]);
      OneByte(',');
      Utf8.EncodeAppend("," + Element(args[0]), ByteCounted(args[1..]));
      Utf8.EncodeAppend(",", Element(args[0]));
    }
  }

  lemma LineEncoded(opcode: string, args: seq<string>)
    ensures Utf8.Encode(Line(opcode, args)) == ElementBytes(opcode) + ByteArgs(args) + [INST_TERM]
  {
    Utf8.EncodeAppend(ElementText(opcode) + ByteCounted(args), ";");
    Utf8.EncodeAppend(ElementText(opcode), ByteCounted(args));
    EncodeElement(opcode);
    ArgsEncoded(args);
    OneByte(';');
  }

  // ------------------------------------------------------------------ read by characters

  lemma {:induction false} AsManyAsCounted(b: seq<byte>, count: nat)
    ensures Extracted(b, count).Found? ==> |Extracted(b, count).value| == count
  {
    if count > 0 && b != [] {
      var k := CharLen(b[0]);
      if 0 < k <= |b| {
        AsManyAsCounted(b[k..], count - 1);
      }
    }
  }

  lemma AsciiByLength(value: string)
    ensures |Utf8.Encode(value)| == |value| <==> IsAscii(value)
  {
    Utf8.LenIsLength(value);
    Utf8.LenAtLeast(value);
  }

  /** Behind a length in bytes, another value is read unless the two counts agree. */
  lemma NotAsciiNotRead(value: string, rest: seq<byte>)
    requires !IsAscii(value)
    ensures var r := ElementAt(ByteElement(value) + rest); r.Found? ==> r.value != value
  {
    var n, e := |Utf8.Encode(value)|, Utf8.Encode(value);
    var d := Utf8.Encode(NatToString(n));
    AsciiByLength(value);
    DigitsReadBack(n, MAX_LENGTH);
    AppendFour(d, [ELEM_SEP], e, rest);
    AppendAssoc([ELEM_SEP], e, rest);
    ElementOf(d, e + rest);
    AsManyAsCounted(e + rest, n);
  }

  lemma AsciiRead(value: string, rest: seq<byte>)
    requires IsAscii(value)
    ensures ElementAt(ByteElement(value) + rest)
         == if |value| <= MAX_LENGTH then Found(value, |ByteElement(value)|) else InvalidFormat
  {
    AsciiByLength(value);
    ElementReadBack(value, rest);
  }

  // ------------------------------------------------------------------ arguments

  lemma {:induction false} SameBytes(args: seq<string>)
    requires AllAscii(args)
    ensures ByteArgs(args) == ArgsBytes(args)
  {
    if args != [] {
      AsciiByLength(args[0]);
      assert AllAscii(args[1..]);
      SameBytes(args[1..]);
    }
  }

  predicate ReadsAs(b: seq<byte>, args: seq<string>) {
    ArgsAt(b).Found? && ArgsAt(b).value == args
  }

  lemma FirstValue(b: seq<byte>, args: seq<string>, arg: Peek<string>)
    requires args != [] && ReadsAs(b, args) && b != [] && b[0] == ARG_SEP && arg == ElementAt(b[1..])
    ensures arg.Found? && arg.value == args[0]
  {
  }

  lemma OthersRead(args: seq<string>, width: nat, r: Peek<seq<string>>)
    requires args != [] && InFront([args[0]], width, r).Found? && InFront([args[0]], width, r).value == args
    ensures r.Found? && r.value == args[1..]
  {
    assert args[1..] == r.value;
  }

  lemma FirstRead(args: seq<string>, e: seq<byte>, tail: seq<byte>)
    requires args != [] && e == ByteElement(args[0]) && ReadsAs([ARG_SEP] + (e + tail), args)
    ensures IsAscii(args[0]) && |args[0]| <= MAX_LENGTH && ReadsAs(tail, args[1..])
  {
    var arg := ElementAt(e + tail);
    BehindComma(e, tail);
    FirstValue([ARG_SEP] + (e + tail), args, arg);
    FirstIsAscii(args[0], e, tail, arg);
    ArgBehindComma(e, tail, arg, ArgsAt(tail));
    OthersRead(args, 1 + |e|, ArgsAt(tail));
  }

  lemma FirstIsAscii(value: string, e: seq<byte>, tail: seq<byte>, arg: Peek<string>)
    requires e == ByteElement(value) && arg == ElementAt(e + tail) && arg.Found? && arg.value == value
    ensures IsAscii(value) && |value| <= MAX_LENGTH && arg.total == |e|
  {
    if IsAscii(value) {
      AsciiRead(value, tail);
    } else {
      NotAsciiNotRead(value, tail);
    }
  }

  lemma {:induction false} OnlyAsciiRead(args: seq<string>, rest: seq<byte>)
    requires ReadsAs(ByteArgs(args) + rest, args)
    ensures AllAscii(args) && AllShort(args)
  {
    if args != [] {
      var e, tail := ByteElement(args[0]), ByteArgs(args[1..]);
      AppendFour([ARG_SEP], e, tail, rest);
      FirstRead(args, e, tail + rest);
      OnlyAsciiRead(args[1..], rest);
      ShortTail(args);
      assert forall k :: 0 < k < |args| ==> args[k] == args[1..][k - 1];
    }
  }

  lemma OpcodeRead(opcode: string, tail: seq<byte>)
    requires |opcode| <= MAX_LENGTH
    ensures Peeked(ElementBytes(opcode) + tail) == Completed(opcode, |ElementBytes(opcode)|, ArgsAt(tail))
  {
    ElementReadBack(opcode, tail);
    OpcodeOfExtent(ElementBytes(opcode), tail);
  }

  /** A line with lengths in bytes is read as its opcode and arguments, up to its own end and whatever follows,
      if and only if all arguments are ASCII and of at most a million characters. */
  lemma LineReadIff(opcode: string, args: seq<string>, rest: seq<byte>)
    requires |opcode| <= MAX_LENGTH
    ensures IsRead(Line(opcode, args), rest, opcode, args) <==> AllAscii(args) && AllShort(args)
  {
    var e, a, end := ElementBytes(opcode), ByteArgs(args), [INST_TERM] + rest;
    LineEncoded(opcode, args);
    AppendFour(e, a, [INST_TERM], rest);
    AppendAssoc(a, [INST_TERM], rest);
    OpcodeRead(opcode, a + end);
    if AllAscii(args) {
      SameBytes(args);
      ArgsReadBack(args, rest);
    }
    if ReadsAs(a + end, args) {
      OnlyAsciiRead(args, end);
    }
  }

  /** Peeking finds this instruction at the front, and `text` is what it takes. */
  predicate IsRead(text: string, rest: seq<byte>, opcode: string, args: seq<string>) {
    Peeked(Utf8.Encode(text) + rest) == Found(Instruction(opcode, args), |Utf8.Encode(text)|)
  }

  // ------------------------------------------------------------------ the instructions of a transfer

  function PowerOfTen(k: nat): (p: nat)
    ensures p > 0
  {
    if k == 0 then 1 else 10 * PowerOfTen(k - 1)
  }

  lemma {:induction false} DigitCount(n: nat, k: nat)
    requires 0 < k && n < PowerOfTen(k)
    ensures |NatToString(n)| <= k
  {
    if n >= 10 {
      DigitCount(n / 10, k - 1);
    }
  }

  lemma ShortNumber(n: int)
    requires -0x8000_0000 <= n < 0x8000_0000
    ensures Countable(IntToString(n))
  {
    IntToStringChars(n);
    assert PowerOfTen(10) == 10_000_000_000;
    DigitCount(if n < 0 then -n else n, 10);
  }

  lemma LineOfOne(opcode: string, a: string)
    ensures Line(opcode, [a]) == ElementText(opcode) + ("," + Element(a)) + ";"
  {
    assert [a][1..] == [];
    assert ByteCounted([a]) == "," + Element(a);
  }

  lemma ByteCountedCons(a: string, args: seq<string>)
    ensures ByteCounted([a] + args) == "," + Element(a) + ByteCounted(args)
  {
    assert ([a] + args)[1..] == args;
  }

  lemma ByteCountedTwo(a: string, b: string)
    ensures ByteCounted([a, b]) == "," + Element(a) + ("," + Element(b))
  {
    ByteCountedCons(b, []);
    ByteCountedCons(a, [b]);
    assert [a, b] == [a] + [b] && [b] == [b] + [];
    assert "," + Element(b) + "" == "," + Element(b);
  }

  lemma ByteCountedThree(a: string, b: string, c: string)
    ensures ByteCounted([a, b, c]) == "," + Element(a) + ("," + Element(b) + ("," + Element(c)))
  {
    ByteCountedTwo(b, c);
    ByteCountedCons(a, [b, c]);
    assert [a, b, c] == [a] + [b, c];
  }

  lemma Opcodes()
    ensures ElementText("blob") == "4.blob" && ElementText("file") == "4.file"
    ensures ElementText("end") == "3.end" && ElementText("ack") == "3.ack"
    ensures Element("text/csv") == "8.text/csv"
  {
    assert IsAscii("text/csv");
    AsciiByLength("text/csv");
  }

  lemma Chain(o: string, c: string, a: string, b: string, e: string)
    ensures (o + c) + (a + ((c + b) + e)) == o + (c + a + (c + b)) + e
    ensures (o + c) + a + e == o + (c + a) + e
  {
  }

  lemma LongChain(o: string, c: string, x: string, y: string, z: string, e: string)
    ensures (o + c) + (x + (c + y + c + z + e)) == o + (c + x + (c + y + (c + z))) + e
    ensures o + c + (x + c + (y + (c + z))) + e == o + (c + x + (c + y + (c + z))) + e
  {
  }

  lemma BlobLine(stream: int32, payload: string)
    ensures PayloadText(stream, payload) == Line("blob", [IntToString(stream), payload])
  {
    Opcodes();
    ByteCountedTwo(IntToString(stream), payload);
    Chain("4.blob", ",", Element(IntToString(stream)), Element(payload), ";");
  }

  lemma EndLine(stream: int32)
    ensures EndText(stream) == Line("end", [IntToString(stream)])
  {
    Opcodes();
    LineOfOne("end", IntToString(stream));
    Chain("3.end", ",", Element(IntToString(stream)), "", ";");
  }

  lemma FileLine(stream: int32, filename: string)
    ensures FileText(stream, filename) == Line("file", [IntToString(stream), "text/csv", filename])
  {
    Opcodes();
    ByteCountedThree(IntToString(stream), "text/csv", filename);
    LongChain("4.file", ",", Element(IntToString(stream)), "8.text/csv", Element(filename), ";");
  }

  lemma AckLineOf(stream: int32, message: string, status: int)
    requires 0 <= status < 0x1_0000
    ensures AckText(stream, message, status) == Line("ack", [IntToString(stream), message, IntToString(status)])
  {
    Opcodes();
    ByteCountedThree(IntToString(stream), message, IntToString(status));
    LongChain("3.ack", ",", Element(IntToString(stream)), Element(message), Element(IntToString(status)), ";");
  }

  /** Every blob is read as its stream and the base64 text of its bytes, up to the parser's limit for a value. */
  lemma BlobIsCounted(stream: int32, data: seq<byte>, rest: seq<byte>)
    ensures IsRead(BlobText(stream, data), rest, "blob", [IntToString(stream), Base64.Encoded(data)])
            <==> |Base64.Encoded(data)| <= 1_000_000
  {
    var payload := Base64.Encoded(data);
    BlobLine(stream, payload);
    Base64.EncodedChars(data);
    ShortNumber(stream);
    LineReadIff("blob", [IntToString(stream), payload], rest);
    assert [IntToString(stream), payload][1] == payload;
  }

  lemma EndIsCounted(stream: int32, rest: seq<byte>)
    ensures IsRead(EndText(stream), rest, "end", [IntToString(stream)])
  {
    EndLine(stream);
    ShortNumber(stream);
    LineReadIff("end", [IntToString(stream)], rest);
  }

  predicate Countable(value: string) {
    IsAscii(value) && |value| <= 1_000_000
  }

  /** Of three arguments two may be in doubt. */
  lemma ThreeReadIff(text: string, opcode: string, a: string, b: string, c: string, rest: seq<byte>)
    requires |opcode| <= MAX_LENGTH && Countable(a) && text == Line(opcode, [a, b, c])
    ensures IsRead(text, rest, opcode, [a, b, c]) <==> Countable(b) && Countable(c)
  {
    var args := [a, b, c];
    LineReadIff(opcode, args, rest);
    assert args[0] == a && args[1] == b && args[2] == c;
  }

  lemma MimetypeIsCountable()
    ensures Countable("text/csv")
  {
  }

  /** A name outside ASCII is counted wrongly, every other name of at most a million characters arrives. */
  lemma FileIsCountedIff(stream: int32, filename: string, rest: seq<byte>)
    ensures IsRead(FileText(stream, filename), rest, "file", [IntToString(stream), "text/csv", filename])
            <==> Countable(filename)
  {
    FileLine(stream, filename);
    ShortNumber(stream);
    MimetypeIsCountable();
    ThreeReadIff(FileText(stream, filename), "file", IntToString(stream), "text/csv", filename, rest);
  }

  lemma AckIsCountedIff(stream: int32, message: string, status: int, rest: seq<byte>)
    requires 0 <= status < 0x1_0000
    ensures IsRead(AckText(stream, message, status), rest, "ack", [IntToString(stream), message, IntToString(status)])
            <==> Countable(message)
  {
    AckLineOf(stream, message, status);
    ShortNumber(stream);
    ShortNumber(status);
    ThreeReadIff(AckText(stream, message, status), "ack", IntToString(stream), message, IntToString(status), rest);
  }
}
