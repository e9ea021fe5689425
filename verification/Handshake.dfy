/**
 The gateway's side of the handshake with guacd: reading the next instruction, and answering `args` with
 `connect`. What a server makes of that answer is told in terms of the values sent; the module
 `Wire` adds how they get there.

 The reader works with every pair of parsers that is `WellBehaved`. The parsers of the gateway are.
 */
module Handshake {
  import opened Prelude
  import opened StreamingParser
  import opened Text
  import ContentParser

  const EXPECTED_GUACD_VERSION: string := "VERSION_1_5_0"

  type Peeker = seq<byte> -> Peek<Instruction>
  type Parser = seq<byte> -> Option<Instruction>

  datatype Outcome =
    | Received(instruction: Instruction)
    | InvalidLength
    | ParseFailed
    | PeekFailed
    | GuacdError(args: seq<string>)
    | UnexpectedOpcode(opcode: string)
    | EndOfStream

  /** The parser finds what is there, and finding something does not depend on later bytes. */
  ghost predicate WellBehaved(peek: Peeker) {
    && (forall b :: peek(b).Found? ==> 0 < peek(b).total <= |b|)
    && (forall b, x :: !peek(b).Incomplete? ==> peek(b + x) == peek(b))
  }

  // ------------------------------------------------------------------ the next instruction of a stream

  /** The outcome and the bytes used, once the parser no longer asks for more. */
  function Judge(peek: Peeker, content: Parser, b: seq<byte>, expected: string): (Outcome, nat) {
    match peek(b)
    case Incomplete => (EndOfStream, 0)
    case InvalidFormat => (PeekFailed, 0)
    case Utf8Error => (PeekFailed, 0)
    case Found(peeked, total) =>
      if total == 0 || total > |b| then (InvalidLength, 0)
      else
        match content(b[..total - 1])
        case None => (ParseFailed, 0)
        case Some(i) =>
          if i.opcode == "error" then (GuacdError(i.args), total)
          else if peeked.opcode == expected then (Received(i), total)
          else (UnexpectedOpcode(i.opcode), total)
  }

  /** The buffer of the handshake, its tracked length, and what the peer still sends. */
  class HandshakeReader {
    var buffer: seq<byte>
    var bufferLen: nat
    var incoming: seq<seq<byte>>

    ghost predicate Valid()
      reads this
    {
      bufferLen == |buffer| && forall i :: 0 <= i < |incoming| ==> incoming[i] != []
    }

    /** All bytes that were not consumed yet. */
    ghost function Unread(): seq<byte>
      reads this
    {
      buffer + Flatten(incoming)
    }

    constructor (incoming: seq<seq<byte>>)
      requires forall i :: 0 <= i < |incoming| ==> incoming[i] != []
      ensures Valid() && Unread() == Flatten(incoming)
    {
      buffer, bufferLen, this.incoming := [], 0, incoming;
      new;
      assert [] + Flatten(incoming) == Flatten(incoming);
    }

    /** The outcome is that of the whole stream, and exactly the instruction read is taken off it,
        however the stream was cut into reads. */
    method ReadExpectedInstruction(peek: Peeker, content: Parser, expected: string) returns (r: Outcome)
      requires Valid() && WellBehaved(peek)
      modifies this
      ensures Valid()
      ensures var (outcome, used) := Judge(peek, content, old(Unread()), expected);
              r == outcome && used <= |old(Unread())| && Unread() == old(Unread())[used..]
    {
      ghost var stream := Unread();
      while true
        invariant Valid() && Unread() == stream
        decreases |incoming|
      {
        var view := buffer[..bufferLen];
        assert view == buffer;
        match peek(view) {
          case Found(peeked, total) =>
            JudgeStable(peek, content, view, Flatten(incoming), expected);
            r := TakeFound(peek, content, expected, peeked, total);
            return;
          case Incomplete =>
            if incoming == [] {
              assert Unread() == view;
              return EndOfStream;
            }
            ReadMore();
          case _ =>
            JudgeStable(peek, content, view, Flatten(incoming), expected);
            return PeekFailed;
        }
      }
    }

    /** What the parser found at the front of the buffer. */
    method TakeFound(peek: Peeker, content: Parser, expected: string, peeked: Instruction, total: nat)
      returns (r: Outcome)
      requires Valid() && WellBehaved(peek) && peek(buffer) == Found(peeked, total)
      modifies this`buffer, this`bufferLen
      ensures Valid()
      ensures var (outcome, used) := Judge(peek, content, old(buffer), expected);
              r == outcome && used <= |old(buffer)| && Unread() == old(Unread())[used..]
    {
      if total == 0 || total > bufferLen {
        return InvalidLength;
      }
      var instruction := content(buffer[..total - 1]);
      if instruction.None? {
        return ParseFailed;
      }
      Advance(total);
      if instruction.value.opcode == "error" {
        return GuacdError(instruction.value.args);
      }
      return if peeked.opcode == expected then Received(instruction.value) else UnexpectedOpcode(instruction.value.opcode);
    }

    /** Takes an instruction off the front. */
    method Advance(n: nat)
      requires Valid() && n <= bufferLen
      modifies this`buffer, this`bufferLen
      ensures Valid() && Unread() == old(Unread())[n..]
    {
      assert Unread()[n..] == buffer[n..] + Flatten(incoming);
      buffer := buffer[n..];
      bufferLen := bufferLen - n;
    }

    /** One read from the peer. */
    method ReadMore()
      requires Valid() && incoming != []
      modifies this
      ensures Valid() && Unread() == old(Unread()) && |incoming| == old(|incoming|) - 1
    {
      AppendAssoc(buffer, incoming[0], Flatten(incoming[1..]));
      buffer := buffer + incoming[0];
      bufferLen := bufferLen + |incoming[0]|;
      incoming := incoming[1..];
    }
  }

  /** Once the parser found something, later bytes change neither the outcome nor the bytes used. */
  lemma JudgeStable(peek: Peeker, content: Parser, b: seq<byte>, x: seq<byte>, expected: string)
    requires WellBehaved(peek) && !peek(b).Incomplete?
    ensures Judge(peek, content, b + x, expected) == Judge(peek, content, b, expected)
  {
    assert peek(b + x) == peek(b);
    if peek(b).Found? {
      assert (b + x)[..peek(b).total - 1] == b[..peek(b).total - 1];
    }
  }

  /** The parser of the gateway is well-behaved. */
  lemma PeekIsWellBehaved()
    ensures WellBehaved(Peeked)
  {
    forall b: seq<byte>, x: seq<byte> | !Peeked(b).Incomplete?
      ensures Peeked(b + x) == Peeked(b)
    {
      PeekStable(b, x);
    }
  }

  /** What the reader makes of an instruction that both parsers find. */
  function Verdict(i: Instruction, expected: string): Outcome {
    if i.opcode == "error" then GuacdError(i.args)
    else if i.opcode == expected then Received(i)
    else UnexpectedOpcode(i.opcode)
  }

  lemma JudgeFound(peek: Peeker, content: Parser, b: seq<byte>, i: Instruction, total: nat, expected: string)
    requires 0 < total <= |b| && peek(b) == Found(i, total) && content(b[..total - 1]) == Some(i)
    ensures Judge(peek, content, b, expected) == (Verdict(i, expected), total)
  {
  }

  /** With the parsers of the gateway, what was found is always taken, and for what it was found to be. */
  lemma FoundIsTaken(b: seq<byte>, i: Instruction, total: nat, expected: string)
    requires Peeked(b) == Found(i, total)
    ensures Judge(Peeked, ContentParser.Content, b, expected) == (Verdict(i, expected), total)
  {
    ContentParser.ContentAgrees(b, i, total);
    JudgeFound(Peeked, ContentParser.Content, b, i, total, expected);
  }

  /** So the gateway reads every instruction that was encoded as it is, whatever follows it and however
      it was cut into reads, as long as no element has more than a million characters. */
  lemma ReadsWhatIsSent(i: Instruction, rest: seq<byte>, expected: string)
    requires |i.opcode| <= MAX_LENGTH && AllShort(i.args)
    ensures var outcome := if i.opcode == "error" then GuacdError(i.args)
                           else if i.opcode == expected then Received(i)
                           else UnexpectedOpcode(i.opcode);
            Judge(Peeked, ContentParser.Content, Encoded(i) + rest, expected) == (outcome, |Encoded(i)|)
  {
    PeekReadsBackIff(i, rest);
    FoundIsTaken(Encoded(i) + rest, i, |Encoded(i)|, expected);
  }

  // ------------------------------------------------------------------ parameter names

  predicate IsSeparator(c: char) {
    c == '-' || c == '_'
  }

  /** Without hyphens and underscores, in lower case. */
  function Normalized(name: string): string {
    if name == "" then ""
    else (if IsSeparator(name[0]) then "" else [AsciiLower(name[0])]) + Normalized(name[1..])
  }

  datatype Entry = Entry(key: string, value: string)

  /** The configuration under normalised names; `items` is in the order of the hash map's iteration. */
  function NormalizedMap(items: seq<Entry>): map<string, string> {
    if items == [] then map[]
    else
      var last := items[|items| - 1];
      NormalizedMap(items[..|items| - 1])[Normalized(last.key) := last.value]
  }

  function ValueOf(m: map<string, string>, name: string): string {
    if Normalized(name) in m then m[Normalized(name)] else ""
  }

  /** The arguments of `connect` for a new session: the version, then a value for every name. The
      configuration `m` is under normalised names. */
  function ConnectValues(args: seq<string>, m: map<string, string>): seq<string> {
    if args == [] then [EXPECTED_GUACD_VERSION]
    else seq(|args|, i requires 0 <= i < |args| => if i == 0 then args[0] else ValueOf(m, args[i]))
  }

  method ConnectArgs(args: seq<string>, items: seq<Entry>) returns (values: seq<string>)
    ensures values == ConnectValues(args, NormalizedMap(items))
  {
    var m: map<string, string> := map[];
    var j := 0;
    while j < |items|
      invariant 0 <= j <= |items|
      invariant m == NormalizedMap(items[..j])
    {
      assert items[..j + 1][..j] == items[..j];
      m := m[Normalized(items[j].key) := items[j].value];
      j := j + 1;
    }
    assert items[..j] == items;
    values := [if args == [] then EXPECTED_GUACD_VERSION else args[0]];
    var i := 1;
    while i < |args|
      invariant 1 <= i <= Max(|args|, 1)
      invariant values == ConnectValues(args, m)[..i]
    {
      values := values + [ValueOf(m, args[i])];
      i := i + 1;
    }
  }

  predicate Matches(e: Entry, name: string) {
    Normalized(e.key) == Normalized(name)
  }

  /** The same character, or the same ASCII letter in the other case. */
  predicate SameLetter(c: char, d: char) {
    || c == d
    || ('A' <= c <= 'Z' && d as int == c as int + 32)
    || ('A' <= d <= 'Z' && c as int == d as int + 32)
  }

  /** Character by character, stepping over hyphens and underscores on either side. */
  predicate SameName(a: string, b: string)
    decreases |a| + |b|
  {
    if a != "" && a[0] in "-_" then SameName(a[1..], b)
    else if b != "" && b[0] in "-_" then SameName(a, b[1..])
    else if a == "" || b == "" then a == b
    else SameLetter(a[0], b[0]) && SameName(a[1..], b[1..])
  }

  /** An entry matches a name exactly when the two are the same, but for case, `-` and `_`. */
  lemma {:induction false} SameNameIff(a: string, b: string)
    ensures Normalized(a) == Normalized(b) <==> SameName(a, b)
    decreases |a| + |b|
  {
    if a != "" && a[0] in "-_" {
      SameNameIff(a[1..], b);
    } else if b != "" && b[0] in "-_" {
      SameNameIff(a, b[1..]);
    } else if a != "" && b != "" {
      SameNameIff(a[1..], b[1..]);
      FirstLetters(AsciiLower(a[0]), Normalized(a[1..]), AsciiLower(b[0]), Normalized(b[1..]));
      SameLetterIff(a[0], b[0]);
    }
  }

  lemma FirstLetters(c: char, s: string, d: char, t: string)
    ensures [c] + s == [d] + t <==> c == d && s == t
  {
    assert ([c] + s)[0] == c && ([c] + s)[1..] == s;
    assert ([d] + t)[0] == d && ([d] + t)[1..] == t;
  }

  lemma SameLetterIff(c: char, d: char)
    ensures AsciiLower(c) == AsciiLower(d) <==> SameLetter(c, d)
  {
  }

  ghost predicate IsLastMatch(items: seq<Entry>, i: int, name: string) {
    0 <= i < |items| && Matches(items[i], name) && forall j :: i < j < |items| ==> !Matches(items[j], name)
  }

  lemma {:induction false} NoMatchNoValue(items: seq<Entry>, name: string)
    requires forall i :: 0 <= i < |items| ==> !Matches(items[i], name)
    ensures ValueOf(NormalizedMap(items), name) == ""
  {
    if items != [] {
      NoMatchNoValue(items[..|items| - 1], name);
    }
  }

  lemma {:induction false} LastMatchValue(items: seq<Entry>, name: string, i: nat)
    requires IsLastMatch(items, i, name)
    ensures ValueOf(NormalizedMap(items), name) == items[i].value
  {
    var n := |items| - 1;
    if i < n {
      var init := items[..n];
      assert forall j :: i <= j < n ==> init[j] == items[j];
      LastMatchValue(init, name, i);
    }
  }

  /** The last entry whose name matches decides. */
  lemma LastMatchDecides(items: seq<Entry>, name: string)
    ensures (forall i :: 0 <= i < |items| ==> !Matches(items[i], name)) ==> ValueOf(NormalizedMap(items), name) == ""
    ensures forall i :: IsLastMatch(items, i, name) ==> ValueOf(NormalizedMap(items), name) == items[i].value
  {
    if forall i :: 0 <= i < |items| ==> !Matches(items[i], name) {
      NoMatchNoValue(items, name);
    }
    forall i | IsLastMatch(items, i, name)
      ensures ValueOf(NormalizedMap(items), name) == items[i].value
    {
      LastMatchValue(items, name, i);
    }
  }

  /** All entries that match `name` agree. */
  ghost predicate Agree(items: seq<Entry>, name: string) {
    forall i, j :: 0 <= i < |items| && 0 <= j < |items| && Matches(items[i], name) && Matches(items[j], name) ==>
      items[i].value == items[j].value
  }

  lemma LastMatch(items: seq<Entry>, name: string) returns (i: int)
    ensures -1 <= i < |items|
    ensures if i >= 0 then IsLastMatch(items, i, name) else forall j :: 0 <= j < |items| ==> !Matches(items[j], name)
  {
    i := |items| - 1;
    while i >= 0 && !Matches(items[i], name)
      invariant -1 <= i < |items|
      invariant forall j :: i < j < |items| ==> !Matches(items[j], name)
    {
      i := i - 1;
    }
  }

  /** When the matching entries agree, their value is sent, in whatever order the map is walked. */
  lemma AgreeingValueIsSent(items: seq<Entry>, name: string)
    requires Agree(items, name)
    ensures forall i :: 0 <= i < |items| && Matches(items[i], name) ==>
              ValueOf(NormalizedMap(items), name) == items[i].value
  {
    var last := LastMatch(items, name);
    LastMatchDecides(items, name);
  }

  /** The value sent for a name is the same for every order of the configuration exactly when the
      entries that match the name agree: names that differ only in case, `-` and `_` collide. */
  lemma OrderMattersIff(items: seq<Entry>, name: string)
    ensures (forall order :: multiset(order) == multiset(items) ==>
               ValueOf(NormalizedMap(order), name) == ValueOf(NormalizedMap(items), name))
            <==> Agree(items, name)
  {
    if Agree(items, name) {
      forall order | multiset(order) == multiset(items)
        ensures ValueOf(NormalizedMap(order), name) == ValueOf(NormalizedMap(items), name)
      {
        SameValue(items, order, name);
      }
    } else {
      var i, j :| 0 <= i < |items| && 0 <= j < |items| && Matches(items[i], name) && Matches(items[j], name)
                  && items[i].value != items[j].value;
      MovedToEnd(items, i, name);
      MovedToEnd(items, j, name);
    }
  }

  function ToEnd(items: seq<Entry>, i: nat): seq<Entry>
    requires i < |items|
  {
    items[..i] + items[i + 1..] + [items[i]]
  }

  lemma MovedToEnd(items: seq<Entry>, i: nat, name: string)
    requires i < |items| && Matches(items[i], name)
    ensures multiset(ToEnd(items, i)) == multiset(items)
    ensures ValueOf(NormalizedMap(ToEnd(items, i)), name) == items[i].value
  {
    assert items == items[..i] + [items[i]] + items[i + 1..];
    var moved := ToEnd(items, i);
    assert moved[..|moved| - 1] == items[..i] + items[i + 1..];
  }

  lemma SameValue(items: seq<Entry>, order: seq<Entry>, name: string)
    requires multiset(order) == multiset(items) && Agree(items, name)
    ensures ValueOf(NormalizedMap(order), name) == ValueOf(NormalizedMap(items), name)
  {
    var i := LastMatch(items, name);
    var k := LastMatch(order, name);
    LastMatchDecides(items, name);
    LastMatchDecides(order, name);
    if i >= 0 {
      assert items[i] in multiset(order);
      assert items[i] in order;
    }
    if k >= 0 {
      assert order[k] in multiset(items);
      var j :| 0 <= j < |items| && items[j] == order[k];
      assert i >= 0;
    }
  }

  // ------------------------------------------------------------------ the server's side

  /** The server gives the values the names it asked for, by position; empty values are left out. */
  function ServerParams(names: seq<string>, values: seq<string>): map<string, string> {
    if values == [] then map[]
    else
      var i := |values| - 1;
      var m := ServerParams(names, values[..i]);
      if i < |names| && values[i] != "" then m[names[i] := values[i]] else m
  }

  datatype Connected =
    | Params(params: map<string, string>)
    | NotConnect(opcode: string)
    | MissingArgument(name: string)

  /** The first required argument without a value. */
  function Missing(required: seq<string>, params: map<string, string>): Option<string> {
    if required == [] then None
    else if required[0] !in params then Some(required[0])
    else Missing(required[1..], params)
  }

  lemma {:induction false} MissingFrom(required: seq<string>, params: map<string, string>, k: nat)
    requires k <= |required| && forall j :: 0 <= j < k ==> required[j] in params
    ensures Missing(required, params) == Missing(required[k..], params)
  {
    if k == 0 {
      assert required[0..] == required;
    } else {
      MissingFrom(required[1..], params, k - 1);
      assert required[1..][k - 1..] == required[k..];
    }
  }

  function ConnectedBy(names: seq<string>, required: seq<string>, i: Instruction): Connected {
    if i.opcode != "connect" then NotConnect(i.opcode)
    else
      match Missing(required, ServerParams(names, i.args))
      case None => Params(ServerParams(names, i.args))
      case Some(name) => MissingArgument(name)
  }

  /** Any other instruction is refused; otherwise the parameters are there, or the first required one
      that has no value is reported. */
  method ReadConnect(names: seq<string>, required: seq<string>, i: Instruction) returns (r: Connected)
    ensures r == ConnectedBy(names, required, i)
    ensures r.NotConnect? <==> i.opcode != "connect"
    ensures r.NotConnect? ==> r.opcode == i.opcode
    ensures r.Params? ==> r.params == ServerParams(names, i.args)
    ensures r.Params? <==>
              i.opcode == "connect" && forall k :: 0 <= k < |required| ==> required[k] in ServerParams(names, i.args)
    ensures r.MissingArgument? ==>
              exists k :: 0 <= k < |required| && FirstMissing(required, ServerParams(names, i.args), k) && r.name == required[k]
  {
    if i.opcode != "connect" {
      return NotConnect(i.opcode);
    }
    var values := i.args;
    var params: map<string, string> := map[];
    var n := 0;
    while n < |values|
      invariant 0 <= n <= |values|
      invariant params == ServerParams(names, values[..n])
    {
      assert values[..n + 1][..n] == values[..n];
      if n < |names| && values[n] != "" {
        params := params[names[n] := values[n]];
      }
      n := n + 1;
    }
    assert values[..n] == values;
    var k := 0;
    while k < |required|
      invariant 0 <= k <= |required|
      invariant forall j :: 0 <= j < k ==> required[j] in params
    {
      MissingFrom(required, params, k);
      if required[k] !in params {
        assert FirstMissing(required, params, k);
        return MissingArgument(required[k]);
      }
      k := k + 1;
    }
    MissingFrom(required, params, k);
    return Params(params);
  }

  predicate FirstMissing(required: seq<string>, params: map<string, string>, k: nat)
    requires k < |required|
  {
    required[k] !in params && forall j :: 0 <= j < k ==> required[j] in params
  }

  predicate Distinct(names: seq<string>) {
    forall i, j :: 0 <= i < j < |names| ==> names[i] != names[j]
  }

  /** The parameter has the value `v`, or is absent when that is empty. */
  predicate Sees(params: map<string, string>, name: string, v: string) {
    if v != "" then name in params && params[name] == v else name !in params
  }

  /** With distinct names, every name gets the value at its position. */
  lemma {:induction false} ParamAtPosition(names: seq<string>, values: seq<string>)
    requires Distinct(names)
    ensures forall i :: 0 <= i < |names| && i < |values| ==> Sees(ServerParams(names, values), names[i], values[i])
    ensures forall i :: |values| <= i < |names| ==> names[i] !in ServerParams(names, values)
  {
    if values != [] {
      ParamAtPosition(names, values[..|values| - 1]);
    }
  }

  /** A guacd that puts its version first, and takes it off the answer, gets every configured value; one that asks for
      nothing is answered with a version of the protocol. */
  lemma VersionFirstRoundTrip(version: string, names: seq<string>, m: map<string, string>)
    requires Distinct(names)
    ensures forall i :: 0 <= i < |names| ==>
              Sees(ServerParams(names, ConnectValues([version] + names, m)[1..]), names[i],
                   ValueOf(m, names[i]))
    ensures ConnectValues([], m) == ["VERSION_1_5_0"]
  {
    var sent := ConnectValues([version] + names, m)[1..];
    SentTail([version] + names, names, m, sent);
    SentIsSeen(names, m, sent);
  }

  lemma SentTail(args: seq<string>, names: seq<string>, m: map<string, string>, sent: seq<string>)
    requires |args| == |names| + 1 && args[1..] == names
    requires |ConnectValues(args, m)| == |args| && sent == ConnectValues(args, m)[1..]
    ensures |sent| == |names| && forall i :: 0 <= i < |names| ==> sent[i] == ValueOf(m, names[i])
  {
    forall i | 0 <= i < |names|
      ensures sent[i] == ValueOf(m, names[i])
    {
      SentValue(args, m, i + 1);
    }
  }

  lemma SentIsSeen(names: seq<string>, m: map<string, string>, sent: seq<string>)
    requires Distinct(names) && |sent| == |names| && forall i :: 0 <= i < |names| ==> sent[i] == ValueOf(m, names[i])
    ensures forall i :: 0 <= i < |names| ==> Sees(ServerParams(names, sent), names[i], ValueOf(m, names[i]))
  {
    ParamAtPosition(names, sent);
  }

  /** Behind the first position every name is answered with its value. */
  lemma SentValue(args: seq<string>, m: map<string, string>, i: nat)
    requires 0 < i < |args|
    ensures |ConnectValues(args, m)| == |args| && ConnectValues(args, m)[i] == ValueOf(m, args[i])
  {
  }

  /** Without a version in front, the first name is taken for one and comes back as a value: the first
      parameter is set to its own name, and only the others get the configured values. */
  lemma FirstIsItsName(names: seq<string>, m: map<string, string>)
    requires Distinct(names) && names != []
    ensures Sees(ServerParams(names, ConnectValues(names, m)), names[0], names[0])
    ensures forall i :: 1 <= i < |names| ==>
              Sees(ServerParams(names, ConnectValues(names, m)), names[i], ValueOf(m, names[i]))
  {
    var values := ConnectValues(names, m);
    ParamAtPosition(names, values);
    assert values[0] == names[0];
    forall i | 1 <= i < |names|
      ensures values[i] == ValueOf(m, names[i])
    {
      SentValue(names, m, i);
    }
  }
}
