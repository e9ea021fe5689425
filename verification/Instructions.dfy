/**
 The Guacamole stream instructions of a CSV transfer, as text: `opcode,len.value,len.value;`.

 The printers put a length before every value; the parsers ignore the lengths and split at commas
 and dots. The lemmas say for which values a parser still reads back what a printer wrote.
 */
module Instructions {
  import opened Prelude
  import opened Text
  import opened Decimal
  import Base64
  import Utf8

  /** One element: the length of the value in bytes, a dot, the value. */
  function Element(value: string): string {
    NatToString(|Utf8.Encode(value)|) + "." + value
  }

  function FileText(stream: int32, filename: string): string {
    "4.file," + (Element(IntToString(stream)) + ("," + "8.text/csv" + "," + Element(filename) + ";"))
  }

  function PayloadText(stream: int32, payload: string): string {
    "4.blob," + (Element(IntToString(stream)) + ("," + Element(payload) + ";"))
  }

  function BlobText(stream: int32, data: seq<byte>): string {
    PayloadText(stream, Base64.Encoded(data))
  }

  function EndText(stream: int32): string {
    "3.end," + Element(IntToString(stream)) + ";"
  }

  function AckText(stream: int32, message: string, status: int): string
    requires 0 <= status < 0x1_0000
  {
    var index, code := Element(IntToString(stream)), Element(IntToString(status));
    AckLine(index, Element(message), code)
  }

  function AckLine(index: string, message: string, code: string): string {
    "3.ack" + "," + (index + "," + (message + "," + code)) + ";"
  }

  /** `part.split('.').nth(1)` */
  function AfterDot(part: string): Option<string> {
    var pieces := Split(part, '.');
    if |pieces| < 2 then None else Some(pieces[1])
  }

  /** What follows the opcode, split at commas. */
  function Parts(s: string, opcode: string): seq<string>
    requires opcode != ""
  {
    Split(TrimEndChar(TrimStartMatches(s, opcode), ';'), ',')
  }

  function FileOf(index: string, mimetype: string, filename: string): Option<(int, string, string)> {
    match ParseI32(index)
    case None => None
    case Some(stream) => Some((stream, mimetype, filename))
  }

  function FileOfParts(parts: seq<string>): Option<(int, string, string)> {
    if |parts| < 3 then None
    else
      match (AfterDot(parts[0]), AfterDot(parts[1]), AfterDot(parts[2]))
      case (Some(index), Some(mimetype), Some(filename)) => FileOf(index, mimetype, filename)
      case _ => None
  }

  function ParseFile(data: seq<byte>): Option<(int, string, string)> {
    match Utf8.Decode(data)
    case None => None
    case Some(s) => if "4.file," <= s then FileOfParts(Parts(s, "4.file,")) else None
  }

  function BlobOf(index: string, payload: string): Option<(int, seq<byte>)> {
    match (ParseI32(index), Base64.Decoded(Utf8.Encode(payload)))
    case (Some(stream), Ok(bytes)) => Some((stream, bytes))
    case _ => None
  }

  function BlobOfParts(parts: seq<string>): Option<(int, seq<byte>)> {
    if |parts| < 2 then None
    else
      match (AfterDot(parts[0]), AfterDot(parts[1]))
      case (Some(index), Some(payload)) => BlobOf(index, payload)
      case _ => None
  }

  function ParseBlob(data: seq<byte>): Option<(int, seq<byte>)> {
    match Utf8.Decode(data)
    case None => None
    case Some(s) => if "4.blob," <= s then BlobOfParts(Parts(s, "4.blob,")) else None
  }

  function AckParts(s: string): seq<string> {
    Split(TrimEndChar(s, ';'), ',')
  }

  function AckOf(index: string, code: string): Option<(int, int)> {
    match (ParseI32(index), ParseU16(code))
    case (Some(stream), Some(status)) => Some((stream, status))
    case _ => None
  }

  function AckOfParts(parts: seq<string>): Option<(int, int)> {
    if |parts| < 3 then None
    else
      match (AfterDot(parts[1]), AfterDot(parts[|parts| - 1]))
      case (Some(index), Some(code)) => AckOf(index, code)
      case _ => None
  }

  function ParseAck(data: seq<byte>): Option<(int, int)> {
    match Utf8.Decode(data)
    case None => None
    case Some(s) => if "3.ack," <= s then AckOfParts(AckParts(s)) else None
  }

  /** Each parser refuses what does not start with its opcode, and bytes that are no text. */
  lemma OnlyWithOpcode(data: seq<byte>, s: string)
    ensures Utf8.Decode(data) == None ==> ParseBlob(data) == None && ParseFile(data) == None && ParseAck(data) == None
    ensures !("4.blob," <= s) ==> ParseBlob(Utf8.Encode(s)) == None
    ensures !("4.file," <= s) ==> ParseFile(Utf8.Encode(s)) == None
    ensures !("3.ack," <= s) ==> ParseAck(Utf8.Encode(s)) == None
  {
    Utf8.DecodeEncode(s);
  }

  // ------------------------------------------------------------------ reading elements

  lemma NatToStringClean(n: nat)
    ensures ',' !in NatToString(n) && '.' !in NatToString(n) && ';' !in NatToString(n)
  {
  }

  lemma IntToStringClean(i: int)
    ensures ',' !in IntToString(i) && '.' !in IntToString(i) && ';' !in IntToString(i)
  {
    IntToStringChars(i);
  }

  /** The value of an element is read back up to its first dot. */
  lemma AfterDotElement(value: string)
    ensures AfterDot(Element(value)) == Some(Split(value, '.')[0])
    ensures '.' !in value ==> AfterDot(Element(value)) == Some(value)
  {
    var n := NatToString(|Utf8.Encode(value)|);
    NatToStringClean(|Utf8.Encode(value)|);
    SplitHead(n, '.', value);
    assert Element(value) == n + ['.'] + value;
  }

  lemma ElementClean(value: string)
    requires ',' !in value
    ensures ',' !in Element(value)
  {
    NatToStringClean(|Utf8.Encode(value)|);
  }

  /** The stream index comes back from its element, negative or not. */
  lemma StreamElement(stream: int32)
    ensures ',' !in Element(IntToString(stream))
    ensures AfterDot(Element(IntToString(stream))) == Some(IntToString(stream))
    ensures ParseI32(IntToString(stream)) == Some(stream)
  {
    IntToStringClean(stream);
    ElementClean(IntToString(stream));
    AfterDotElement(IntToString(stream));
    ParseIntOfString(stream, -0x8000_0000, 0x8000_0000);
  }

  /** After its opcode an instruction goes on with digits, so the opcode is removed once only. */
  lemma OpcodeOnce(opcode: string, stream: int32, rest: string)
    requires |opcode| == 7 && opcode[1] == '.' && opcode[2] in "fb"
    ensures TrimStartMatches(opcode + (Element(IntToString(stream)) + rest), opcode)
            == Element(IntToString(stream)) + rest
  {
    var value := IntToString(stream);
    var n := NatToString(|Utf8.Encode(value)|);
    var body := Element(value) + rest;
    assert (opcode + body)[|opcode|..] == body;
    IntToStringChars(stream);
    assert body == n + "." + value + rest;
    if |n| == 1 {
      assert body[2] == value[0] && value[0] in value;
      assert body[2] != opcode[2];
    } else {
      assert IsDigit(body[1]) && body[1] != opcode[1];
    }
    assert !(opcode <= body);
  }

  lemma TrimSemicolon(body: string)
    requires body != "" && body[|body| - 1] != ';'
    ensures TrimEndChar(body + ";", ';') == body
  {
    TrimEndCharAppend(body, ";", ';');
    assert ";"[..0] == "" && TrimEndChar(";", ';') == "" && body + "" == body;
  }

  // ------------------------------------------------------------------ round trips

  lemma TwoParts(a: string, b: string)
    requires ',' !in a && ',' !in b && b != "" && b[|b| - 1] != ';'
    ensures Split(TrimEndChar(a + ("," + b + ";"), ';'), ',') == [a, b]
  {
    assert a + ("," + b + ";") == (a + "," + b) + ";";
    TrimSemicolon(a + "," + b);
    SplitHead(a, ',', b);
    SplitNone(b, ',');
  }

  lemma ReadBlob(data: seq<byte>, s: string, parts: seq<string>, index: string, payload: string)
    requires Utf8.Decode(data) == Some(s) && "4.blob," <= s && parts == Parts(s, "4.blob,")
    requires |parts| == 2 && AfterDot(parts[0]) == Some(index) && AfterDot(parts[1]) == Some(payload)
    ensures ParseBlob(data) == BlobOf(index, payload)
  {
  }

  lemma BlobParts(stream: int32, index: string, payload: string)
    requires index == Element(IntToString(stream)) && ',' !in index
    requires ',' !in payload && payload != "" && payload[|payload| - 1] != ';'
    ensures Parts("4.blob," + (index + ("," + payload + ";")), "4.blob,") == [index, payload]
  {
    OpcodeOnce("4.blob,", stream, "," + payload + ";");
    TwoParts(index, payload);
  }

  /** Every blob is read back: the stream it belongs to and its bytes. */
  lemma BlobRoundTrip(stream: int32, data: seq<byte>)
    ensures ParseBlob(Utf8.Encode(BlobText(stream, data))) == Some((stream, data))
  {
    var index, payload := Element(IntToString(stream)), Element(Base64.Encoded(data));
    Utf8.DecodeEncode(BlobText(stream, data));
    StreamElement(stream);
    PayloadElement(data);
    BlobParts(stream, index, payload);
    ReadBlob(Utf8.Encode(BlobText(stream, data)), BlobText(stream, data), [index, payload],
             IntToString(stream), Base64.Encoded(data));
  }

  lemma PayloadElement(data: seq<byte>)
    ensures var payload := Element(Base64.Encoded(data));
            && ',' !in payload && payload != "" && payload[|payload| - 1] != ';'
            && AfterDot(payload) == Some(Base64.Encoded(data))
    ensures Base64.Decoded(Utf8.Encode(Base64.Encoded(data))) == Ok(data)
  {
    Base64.EncodedChars(data);
    ElementClean(Base64.Encoded(data));
    AfterDotElement(Base64.Encoded(data));
    Base64.RoundTrip(data);
  }

  /** First, second and last part, whatever stands in the middle. */
  lemma OuterParts(a: string, b: string, middle: string, z: string, sep: string)
    requires ',' !in a && ',' !in b && ',' !in z && z != "" && z[|z| - 1] != ';' && sep == [',']
    ensures var parts := AckParts(a + sep + (b + sep + (middle + sep + z)) + ";");
            |parts| >= 4 && parts[1] == b && parts[|parts| - 1] == z
  {
    var tail := middle + sep + z;
    var body := a + sep + (b + sep + tail);
    assert body != "" && body[|body| - 1] == z[|z| - 1];
    TrimSemicolon(body);
    SplitHead(a, ',', b + sep + tail);
    SplitHead(b, ',', tail);
    assert Split(body, ',') == [a] + ([b] + Split(tail, ','));
    var rest := LastPart(middle, z, sep, tail);
    SecondAndLast(a, b, rest, AckParts(body + ";"));
  }

  lemma LastPart(middle: string, z: string, sep: string, tail: string) returns (rest: seq<string>)
    requires ',' !in z && sep == [','] && tail == middle + sep + z
    ensures rest == Split(tail, ',') && |rest| >= 2 && rest[|rest| - 1] == z
  {
    rest := Split(tail, ',');
    SplitLast(middle, ',', z);
  }

  lemma SecondAndLast(a: string, b: string, rest: seq<string>, parts: seq<string>)
    requires |rest| >= 2 && parts == [a] + ([b] + rest)
    ensures |parts| >= 4 && parts[1] == b && parts[|parts| - 1] == rest[|rest| - 1]
  {
  }

  /** An `ack` whose outer parts are these. */
  predicate IsAck(s: string, index: string, code: string) {
    var parts := AckParts(s);
    && "3.ack," <= s && |parts| >= 4
    && AfterDot(parts[1]) == Some(index)
    && AfterDot(parts[|parts| - 1]) == Some(code)
  }

  lemma ReadAck(data: seq<byte>, s: string, index: string, code: string)
    requires Utf8.Decode(data) == Some(s) && IsAck(s, index, code)
    ensures ParseAck(data) == AckOf(index, code)
  {
    assert AckOfParts(AckParts(s)) == AckOf(index, code);
  }

  lemma AckElements(stream: int32, message: string, status: int)
    requires 0 <= status < 0x1_0000
    ensures IsAck(AckText(stream, message, status), IntToString(stream), IntToString(status))
  {
    var index, code := Element(IntToString(stream)), Element(IntToString(status));
    StreamElement(stream);
    StatusElement(status);
    AckLineParts(index, Element(message), code);
  }

  lemma AckLineParts(index: string, message: string, code: string)
    requires ',' !in index && ',' !in code && code != "" && code[|code| - 1] != ';'
    ensures var s := AckLine(index, message, code);
            var parts := AckParts(s);
            "3.ack," <= s && |parts| >= 4 && parts[1] == index && parts[|parts| - 1] == code
  {
    OuterParts("3.ack", index, message, code, ",");
    AckPrefix(index + "," + (message + "," + code));
  }

  lemma AckPrefix(rest: string)
    ensures "3.ack," <= "3.ack" + "," + rest + ";"
  {
    assert ("3.ack" + "," + rest + ";")[..6] == "3.ack,";
  }

  /** Every acknowledgement is read back, whatever its message holds. */
  lemma AckRoundTrip(stream: int32, message: string, status: int)
    requires 0 <= status < 0x1_0000
    ensures ParseAck(Utf8.Encode(AckText(stream, message, status))) == Some((stream, status))
  {
    var s := AckText(stream, message, status);
    Utf8.DecodeEncode(s);
    AckElements(stream, message, status);
    ParseIntOfString(stream, -0x8000_0000, 0x8000_0000);
    ParseIntOfString(status, 0, 0x1_0000);
    assert AckOf(IntToString(stream), IntToString(status)) == Some((stream, status));
    ReadAck(Utf8.Encode(s), s, IntToString(stream), IntToString(status));
  }

  lemma StatusElement(status: int)
    requires 0 <= status < 0x1_0000
    ensures var code := Element(IntToString(status));
            && ',' !in code && code != "" && code[|code| - 1] != ';'
            && AfterDot(code) == Some(IntToString(status))
    ensures ParseU16(IntToString(status)) == Some(status)
  {
    IntToStringClean(status);
    ElementClean(IntToString(status));
    AfterDotElement(IntToString(status));
    ParseIntOfString(status, 0, 0x1_0000);
  }

  /** The part of a file name that the parser keeps. */
  function ReadableName(filename: string): string {
    UpTo(UpTo(TrimEndChar(filename, ';'), ','), '.')
  }

  lemma TrimValue(head: string, value: string)
    requires head != "" && head[|head| - 1] != ';'
    ensures TrimEndChar(head + (value + ";"), ';') == head + TrimEndChar(value, ';')
  {
    TrimEndCharAppend(head, value + ";", ';');
    assert (value + ";")[..|value|] == value;
  }

  lemma ThreeParts(a: string, b: string, n: string, value: string)
    requires ',' !in a && ',' !in b && ',' !in n
    ensures var parts := Split(TrimEndChar(a + ("," + b + "," + (n + "." + value) + ";"), ';'), ',');
            && |parts| >= 3 && parts[0] == a && parts[1] == b
            && parts[2] == n + "." + UpTo(TrimEndChar(value, ';'), ',')
  {
    var t := TrimEndChar(value, ';');
    var head := a + "," + (b + "," + (n + "."));
    Regroup(a, b, n, value);
    TrimValue(head, value);
    assert head + t == a + "," + (b + "," + (n + "." + t));
    SplitTwo(a, b, n + "." + t);
    UpToAfter(n + ".", t, ',');
  }

  lemma Regroup(a: string, b: string, n: string, value: string)
    ensures a + ("," + b + "," + (n + "." + value) + ";") == (a + "," + (b + "," + (n + "."))) + (value + ";")
  {
  }

  lemma SplitTwo(a: string, b: string, c: string)
    requires ',' !in a && ',' !in b
    ensures Split(a + "," + (b + "," + c), ',') == [a, b] + Split(c, ',')
  {
    SplitHead(a, ',', b + "," + c);
    SplitHead(b, ',', c);
  }

  lemma NamedElement(element: string, n: string, name: string)
    requires element == n + "." + name && ',' !in n && ',' !in name && '.' !in n && '.' !in name
    ensures ',' !in element && AfterDot(element) == Some(name)
  {
    SplitHead(n, '.', name);
    SplitNone(name, '.');
  }

  lemma MimetypeElement()
    ensures ',' !in "8.text/csv" && AfterDot("8.text/csv") == Some("text/csv")
  {
    NamedElement("8.text/csv", "8", "text/csv");
  }

  lemma FileParts(stream: int32, index: string, mimetype: string, n: string, filename: string)
    requires index == Element(IntToString(stream))
    requires ',' !in index && ',' !in mimetype && ',' !in n
    ensures var parts := Parts("4.file," + (index + ("," + mimetype + "," + (n + "." + filename) + ";")), "4.file,");
            && |parts| >= 3 && parts[0] == index && parts[1] == mimetype
            && parts[2] == n + "." + UpTo(TrimEndChar(filename, ';'), ',')
  {
    OpcodeOnce("4.file,", stream, "," + mimetype + "," + (n + "." + filename) + ";");
    ThreeParts(index, mimetype, n, filename);
  }

  lemma NameElement(n: nat, value: string)
    ensures AfterDot(NatToString(n) + "." + value) == Some(UpTo(value, '.'))
  {
    NatToStringClean(n);
    SplitHead(NatToString(n), '.', value);
  }

  lemma FileParts3(stream: int32, filename: string)
    ensures var s := FileText(stream, filename);
            var parts := Parts(s, "4.file,");
            && "4.file," <= s && |parts| >= 3
            && parts[0] == Element(IntToString(stream))
            && parts[1] == "8.text/csv"
            && parts[2] == NatToString(|Utf8.Encode(filename)|) + "." + UpTo(TrimEndChar(filename, ';'), ',')
  {
    var n := |Utf8.Encode(filename)|;
    StreamElement(stream);
    MimetypeElement();
    NatToStringClean(n);
    FileParts(stream, Element(IntToString(stream)), "8.text/csv", NatToString(n), filename);
  }

  lemma FileElements(stream: int32, filename: string)
    ensures var s := FileText(stream, filename);
            var parts := Parts(s, "4.file,");
            && "4.file," <= s && |parts| >= 3
            && AfterDot(parts[0]) == Some(IntToString(stream))
            && AfterDot(parts[1]) == Some("text/csv")
            && AfterDot(parts[2]) == Some(ReadableName(filename))
  {
    FileParts3(stream, filename);
    StreamElement(stream);
    MimetypeElement();
    NameElement(|Utf8.Encode(filename)|, UpTo(TrimEndChar(filename, ';'), ','));
  }

  /** What is read from a `file` instruction, for every file name. */
  lemma FileRead(stream: int32, filename: string)
    ensures ParseFile(Utf8.Encode(FileText(stream, filename)))
            == Some((stream, "text/csv", ReadableName(filename)))
  {
    var s := FileText(stream, filename);
    Utf8.DecodeEncode(s);
    FileElements(stream, filename);
    ParseIntOfString(stream, -0x8000_0000, 0x8000_0000);
    assert ParseFile(Utf8.Encode(s)) == FileOf(IntToString(stream), "text/csv", ReadableName(filename));
  }

  lemma UpToAfter(a: string, s: string, c: char)
    requires c !in a
    ensures UpTo(a + s, c) == a + UpTo(s, c)
  {
    var i := IndexOf(s, c);
    if i < |s| {
      assert c !in (a + s)[..|a| + i] by {
        assert (a + s)[..|a| + i] == a + s[..i];
      }
      IndexOfUnique(a + s, c, |a| + i);
    }
  }

  /** A file name is read back exactly when it has no comma, no dot and no semicolon at its end. */
  lemma FileRoundTripIff(stream: int32, filename: string)
    ensures ParseFile(Utf8.Encode(FileText(stream, filename))) == Some((stream, "text/csv", filename))
            <==> ',' !in filename && '.' !in filename && (filename == "" || filename[|filename| - 1] != ';')
  {
    FileRead(stream, filename);
    TrimEndCharSame(filename, ';');
  }

  /** So the name of an export file, which ends in `.csv`, never comes back whole. */
  lemma ExportNameIsCut(stream: int32, stem: string)
    ensures ParseFile(Utf8.Encode(FileText(stream, stem + ".csv"))) != Some((stream, "text/csv", stem + ".csv"))
  {
    FileRoundTripIff(stream, stem + ".csv");
    assert (stem + ".csv")[|stem|] == '.';
  }
}
