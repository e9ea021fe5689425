/**
 The handshake on the wire between the two sides of this repository: what the server reads of what the
 gateway sends for a new session, however the bytes are cut into pieces.
 */
module Wire {
  import opened GuacamoleParser
  import opened Handshake
  import opened Prelude
  import opened StreamingParser
  import opened Text
  import Framing
  import Utf8

  // ------------------------------------------------------------------ the server reads an instruction

  /** The next instruction that the server reads off the pieces of a stream. */
  function ServerRead(chunks: seq<seq<byte>>): Reading<Instruction> {
    match Framing.ReadFrom(chunks, []).0
    case Failed(_) => Refused
    case Frame(bytes) => FrameRead(bytes)
  }

  function FrameRead(bytes: seq<byte>): Reading<Instruction> {
    match Utf8.Decode(bytes)
    case None => Refused
    case Some(text) => Parsed(text)
  }

  method ReadInstruction(stream: Framing.BufReader) returns (r: Reading<Instruction>)
    requires Framing.Pieces(stream.chunks)
    modifies stream
    ensures r == ServerRead(old(stream.chunks))
  {
    var frame := Framing.ReadInstruction(stream);
    if frame.Failed? {
      return Refused;
    }
    var text := Utf8.Decode(frame.text);
    if text.None? {
      return Refused;
    }
    r := ParseInstruction(text.value);
  }

  /** What is left of an instruction at its first semicolon. */
  function CutText(i: Instruction): string {
    UpTo(InstructionText(i) + ";", ';')
  }

  lemma FirstFrameOf(s: string, rest: seq<byte>, end: string)
    requires end == [';']
    ensures var frame := Utf8.Encode(UpTo(s + end, ';')) + [INST_TERM];
            && Framing.FirstFrame(Utf8.Encode(s) + [INST_TERM] + rest) == frame
            && Framing.SEMICOLON in Utf8.Encode(s) + [INST_TERM] + rest
  {
    var k := IndexOf(s + end, ';');
    BeforeEnd(s, end, k);
    if k < |s| {
      EncodedAt(s, k, rest);
      CutAtTerminator(s[..k], Utf8.Encode(s[k + 1..]) + [INST_TERM] + rest, Utf8.Encode(s) + [INST_TERM] + rest);
    } else {
      AppendAssoc(Utf8.Encode(s), [INST_TERM], rest);
      CutAtTerminator(s, rest, Utf8.Encode(s) + [INST_TERM] + rest);
    }
  }

  lemma BeforeEnd(s: string, end: string, k: nat)
    requires end == [';'] && k == IndexOf(s + end, ';')
    ensures k <= |s| && UpTo(s + end, ';') == s[..k] && ';' !in s[..k]
    ensures k < |s| ==> s[k] == ';'
    ensures k == |s| ==> s[..k] == s
  {
    assert k <= |s| && (s + end)[..k] == s[..k];
    if k < |s| {
      assert s[k] == (s + end)[k];
    }
  }

  lemma EncodedAt(s: string, k: nat, rest: seq<byte>)
    requires k < |s| && s[k] == ';'
    ensures Utf8.Encode(s) + [INST_TERM] + rest
         == Utf8.Encode(s[..k]) + ([INST_TERM] + (Utf8.Encode(s[k + 1..]) + [INST_TERM] + rest))
  {
    var x, y := s[..k], s[k + 1..];
    assert s == x + ([';'] + y);
    Utf8.EncodeAppend(x, [';'] + y);
    Utf8.EncodeAppend([';'], y);
    OneByte(';');
    Regrouped(Utf8.Encode(x), Utf8.Encode(y), rest);
  }

  lemma Regrouped(x: seq<byte>, y: seq<byte>, rest: seq<byte>)
    ensures x + ([INST_TERM] + y) + [INST_TERM] + rest == x + ([INST_TERM] + (y + [INST_TERM] + rest))
  {
  }

  lemma CutAtTerminator(x: string, rest: seq<byte>, all: seq<byte>)
    requires ';' !in x && all == Utf8.Encode(x) + ([INST_TERM] + rest)
    ensures Framing.FirstFrame(all) == Utf8.Encode(x) + [INST_TERM] && Framing.SEMICOLON in all
  {
    var b := Utf8.Encode(x);
    Utf8.AsciiByteIn(x, ';');
    assert all[..|b|] == b && all[|b|] == INST_TERM && all[..|b| + 1] == b + [INST_TERM];
    IndexOfUnique(all, Framing.SEMICOLON, |b|);
  }

  /** A stream that starts with this instruction, in pieces as the network cuts it. */
  predicate Arrives(chunks: seq<seq<byte>>, i: Instruction, rest: seq<byte>) {
    Framing.Pieces(chunks) && Flatten(chunks) == Encoded(i) + rest
  }

  /** The instruction and one more piece are within the size limit of the server. */
  predicate Fits(chunks: seq<seq<byte>>, i: Instruction, limit: nat) {
    && (forall k :: 0 <= k < |chunks| ==> |chunks[k]| <= limit)
    && |Encoded(i)| + limit <= Framing.MAX_INSTRUCTION_SIZE + 1
  }

  /** The server reads what is left at the first semicolon, if it reads anything. */
  lemma ServerReadText(chunks: seq<seq<byte>>, i: Instruction, rest: seq<byte>)
    requires Arrives(chunks, i, rest)
    ensures ServerRead(chunks) == Refused || ServerRead(chunks) == ParsedText(CutText(i))
    ensures Framing.ReadFrom(chunks, []).0.Frame? ==> ServerRead(chunks) == ParsedText(CutText(i))
  {
    if Framing.ReadFrom(chunks, []).0.Frame? {
      Framing.ReadTakesFirstFrame(chunks, []);
      FirstFrameOf(InstructionText(i), rest, ";");
      var frame := Framing.FirstFrame(Flatten(chunks));
      assert [] + frame == frame;
      FrameOfCut(CutText(i));
    }
  }

  lemma FrameOfCut(x: string)
    requires ';' !in x
    ensures FrameRead(Utf8.Encode(x) + [INST_TERM]) == ParsedText(x)
  {
    OneByte(';');
    Utf8.EncodeAppend(x, ";");
    Utf8.DecodeEncode(x + ";");
    NoCut(x);
  }

  /** ASCII without semicolons is read by itself, whatever the pieces. */
  lemma PlainIsFramed(chunks: seq<seq<byte>>, i: Instruction, rest: seq<byte>, limit: nat)
    requires Arrives(chunks, i, rest) && Fits(chunks, i, limit) && Plain(i.opcode) && AllPlain(i.args)
    ensures Framing.ReadFrom(chunks, []).0.Frame?
  {
    var s := InstructionText(i);
    PlainText(i);
    NoCut(s);
    FirstFrameOf(s, rest, ";");
    Utf8.EncodeAscii(s);
    Framing.ChunkingDoesNotMatter(chunks, limit);
  }

  lemma PlainText(i: Instruction)
    requires Plain(i.opcode) && AllPlain(i.args)
    ensures Plain(InstructionText(i))
  {
    DigitsText(|i.opcode|);
    PlainArgs(i.args);
  }

  lemma {:induction false} PlainArgs(args: seq<string>)
    requires AllPlain(args)
    ensures Plain(ArgsText(args))
  {
    if args != [] {
      DigitsText(|args[0]|);
      PlainArgs(args[1..]);
      PlainJoin(ElementText(args[0]), ArgsText(args[1..]));
    }
  }

  lemma PlainJoin(a: string, b: string)
    requires Plain(a) && Plain(b)
    ensures Plain("," + a + b)
  {
  }

  lemma WithinStrings(i: Instruction, limit: nat)
    requires |Encoded(i)| + limit <= Framing.MAX_INSTRUCTION_SIZE + 1
    ensures Utf8.Len(InstructionText(i)) < STRING_END
  {
    Utf8.LenIsLength(InstructionText(i));
  }

  /** Within the size limit, an instruction of the gateway arrives at the server unchanged, in whatever
      pieces, exactly when its values are ASCII and free of semicolons. */
  lemma ArrivesUnchangedIff(chunks: seq<seq<byte>>, i: Instruction, rest: seq<byte>, limit: nat)
    requires Arrives(chunks, i, rest) && Fits(chunks, i, limit) && Plain(i.opcode)
    ensures ServerRead(chunks) == Read(i) <==> AllPlain(i.args)
  {
    WithinStrings(i, limit);
    ServerReadText(chunks, i, rest);
    ReadBackIff(i, CutText(i));
    if AllPlain(i.args) {
      PlainIsFramed(chunks, i, rest, limit);
    }
  }

  // ------------------------------------------------------------------ a new session

  function Setting(params: map<string, string>, key: string, fallback: string): string {
    if key in params then params[key] else fallback
  }

  function SizeArgs(params: map<string, string>): seq<string> {
    Split(Setting(params, "width", "1024"), ',') + Split(Setting(params, "height", "768"), ',')
    + [Setting(params, "dpi", "96")]
  }

  /** What the gateway sends in answer to `args`, with the media types that it was configured with. */
  function NewSession(params: map<string, string>, audio: seq<string>, video: seq<string>, image: seq<string>,
                      values: seq<string>): seq<Instruction> {
    [Instruction("size", SizeArgs(params)), Instruction("audio", audio), Instruction("video", video),
     Instruction("image", image), Instruction("connect", values)]
  }

  function Sent(instructions: seq<Instruction>): seq<byte> {
    if instructions == [] then [] else Encoded(instructions[0]) + Sent(instructions[1..])
  }

  /** What comes of the server's `read_connect`. */
  function ServerConnect(names: seq<string>, required: seq<string>, chunks: seq<seq<byte>>): Reading<Connected> {
    match ServerRead(chunks)
    case Read(i) => Read(ConnectedBy(names, required, i))
    case Refused => Refused
    case Panicked => Panicked
  }

  method AnswerConnect(names: seq<string>, required: seq<string>, stream: Framing.BufReader)
    returns (r: Reading<Connected>)
    requires Framing.Pieces(stream.chunks)
    modifies stream
    ensures r == ServerConnect(names, required, old(stream.chunks))
  {
    var i := ReadInstruction(stream);
    match i {
      case Refused => return Refused;
      case Panicked => return Panicked;
      case Read(instruction) =>
        var connected := ReadConnect(names, required, instruction);
        return Read(connected);
    }
  }

  /** For every configuration, every protocol and in whatever pieces, the server expects `connect` when the
      gateway sends `size`, and refuses it: no new session between the two sides gets further. */
  lemma SizeIsRefused(params: map<string, string>, audio: seq<string>, video: seq<string>, image: seq<string>,
                      values: seq<string>, names: seq<string>, required: seq<string>, chunks: seq<seq<byte>>)
    requires Framing.Pieces(chunks) && Flatten(chunks) == Sent(NewSession(params, audio, video, image, values))
    requires Utf8.Len(InstructionText(Instruction("size", SizeArgs(params)))) < STRING_END
    ensures var r := ServerConnect(names, required, chunks);
            r == Read(NotConnect("size")) || r == Refused || r == Panicked
  {
    var all := NewSession(params, audio, video, image, values);
    var size := all[0];
    ServerReadText(chunks, size, Sent(all[1..]));
    PlainLiteral();
    OpcodeKept(size, CutText(size));
  }

  lemma PlainLiteral()
    ensures Plain("size") && Plain("connect")
  {
  }

  /** A size that is not configured is 1024 by 768 at 96, and any other is cut at its commas. */
  lemma SizeValues(width: string, height: string, dpi: string)
    requires ',' !in width && ',' !in height
    ensures SizeArgs(map[]) == ["1024", "768", "96"]
    ensures SizeArgs(map["width" := width, "height" := height, "dpi" := dpi]) == [width, height, dpi]
  {
    SplitNone(width, ',');
    SplitNone(height, ',');
  }

  /** With numbers for its width, height and resolution, the answer is that `size` was not expected. */
  lemma SizeIsNotConnect(params: map<string, string>, audio: seq<string>, video: seq<string>, image: seq<string>,
                         values: seq<string>, names: seq<string>, required: seq<string>, chunks: seq<seq<byte>>,
                         limit: nat)
    requires Framing.Pieces(chunks) && Flatten(chunks) == Sent(NewSession(params, audio, video, image, values))
    requires Fits(chunks, Instruction("size", SizeArgs(params)), limit) && AllPlain(SizeArgs(params))
    ensures ServerConnect(names, required, chunks) == Read(NotConnect("size"))
  {
    var all := NewSession(params, audio, video, image, values);
    PlainLiteral();
    ArrivesUnchangedIff(chunks, all[0], Sent(all[1..]), limit);
  }

  // ------------------------------------------------------------------ a server that skips to `connect`

  /** The server finds every parameter as it is configured. */
  predicate Agrees(names: seq<string>, m: map<string, string>, r: Reading<Instruction>) {
    r.Read? && forall k :: 0 <= k < |names| ==> Sees(ServerParams(names, r.value.args), names[k], ValueOf(m, names[k]))
  }

  /** The values that the gateway sends for these names are plain exactly when the configured ones are,
      which do not include the first. */
  lemma PlainValuesIff(names: seq<string>, m: map<string, string>)
    requires names != [] && Plain(names[0])
    ensures AllPlain(ConnectValues(names, m)) <==> forall k :: 1 <= k < |names| ==> Plain(ValueOf(m, names[k]))
  {
    var values := ConnectValues(names, m);
    assert values[0] == names[0];
    forall k | 1 <= k < |names|
      ensures values[k] == ValueOf(m, names[k])
    {
      SentValue(names, m, k);
    }
  }

  /** Even for a server that skipped the instructions before `connect`: the server sends no version, its
      first name is taken for one and comes back as a value. The first parameter is set to its own
      name, and only the others get the configured values, if these are plain. */
  lemma NoVersionLosesFirst(names: seq<string>, m: map<string, string>, chunks: seq<seq<byte>>, rest: seq<byte>,
                            limit: nat)
    requires Distinct(names) && names != [] && Plain(names[0])
    requires var i := Instruction("connect", ConnectValues(names, m)); Arrives(chunks, i, rest) && Fits(chunks, i, limit)
    requires forall k :: 1 <= k < |names| ==> Plain(ValueOf(m, names[k]))
    ensures ServerRead(chunks).Read?
    ensures var params := ServerParams(names, ServerRead(chunks).value.args);
            && Sees(params, names[0], names[0])
            && forall k :: 1 <= k < |names| ==> Sees(params, names[k], ValueOf(m, names[k]))
  {
    var i := Instruction("connect", ConnectValues(names, m));
    PlainLiteral();
    PlainValuesIff(names, m);
    ArrivesUnchangedIff(chunks, i, rest, limit);
    FirstIsItsName(names, m);
  }

  /** A value that did not arrive is not seen. */
  lemma LostIsNotSeen(names: seq<string>, args: seq<string>, k: nat, v: string)
    requires Distinct(names) && k < |names| && v != "" && (k < |args| ==> args[k] != v)
    ensures !Sees(ServerParams(names, args), names[k], v)
  {
    ParamAtPosition(names, args);
  }

  lemma UnplainDisagrees(names: seq<string>, m: map<string, string>, r: Reading<Instruction>)
    requires Distinct(names) && names != [] && Plain(names[0]) && !AllPlain(ConnectValues(names, m))
    requires var i := Instruction("connect", ConnectValues(names, m));
             Utf8.Len(InstructionText(i)) < STRING_END && (r == Refused || r == ParsedText(CutText(i)))
    ensures !Agrees(names, m, r)
  {
    var i := Instruction("connect", ConnectValues(names, m));
    PlainLiteral();
    var k := UnplainIsLost(i, CutText(i));
    assert k > 0;
    SentValue(names, m, k);
    if r.Read? {
      LostIsNotSeen(names, r.value.args, k, ValueOf(m, names[k]));
    }
  }

  /** So such a server agrees with the configuration exactly when the first parameter happens to be
      configured with its own name, and all others with ASCII free of semicolons. */
  lemma NoVersionAgreesIff(names: seq<string>, m: map<string, string>, chunks: seq<seq<byte>>, rest: seq<byte>,
                           limit: nat)
    requires Distinct(names) && names != [] && names[0] != "" && Plain(names[0])
    requires var i := Instruction("connect", ConnectValues(names, m)); Arrives(chunks, i, rest) && Fits(chunks, i, limit)
    ensures Agrees(names, m, ServerRead(chunks))
            <==> ValueOf(m, names[0]) == names[0] && forall k :: 1 <= k < |names| ==> Plain(ValueOf(m, names[k]))
  {
    var i := Instruction("connect", ConnectValues(names, m));
    PlainValuesIff(names, m);
    if AllPlain(ConnectValues(names, m)) {
      NoVersionLosesFirst(names, m, chunks, rest, limit);
    } else {
      WithinStrings(i, limit);
      ServerReadText(chunks, i, rest);
      UnplainDisagrees(names, m, ServerRead(chunks));
    }
  }
}
