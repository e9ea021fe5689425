/**
 Reading instructions from a byte stream: the handshake reader and the relay of the interactive phase.

 The stream arrives in pieces that the network cuts anywhere. On ASCII the pieces do not matter; each
 reader decodes every piece for itself, so on other text they do, and the lemmas say exactly how.
 */
module Framing {
  import opened Environment
  import opened Prelude
  import Utf8

  const MAX_INSTRUCTION_SIZE: nat := 65536
  const SEMICOLON: byte := ';' as int

  datatype HandshakeError = ConnectionClosed | TooLarge | InvalidUtf8

  datatype Frame = Frame(text: seq<byte>) | Failed(error: HandshakeError)

  /** A buffered reader: what is still to come, as the pieces in which it arrives. */
  class BufReader {
    var chunks: seq<seq<byte>>
    /** The first piece is in the reader's own buffer; the others are not read yet. */
    var filled: bool

    constructor (chunks: seq<seq<byte>>)
      ensures this.chunks == chunks && !filled
    {
      this.chunks, filled := chunks, false;
    }

    /** The bytes at hand; none at the end of the stream. */
    method FillBuf() returns (b: seq<byte>)
      modifies this`filled
      ensures b == if chunks == [] then [] else chunks[0]
      ensures filled <==> chunks != []
    {
      b := if chunks == [] then [] else chunks[0];
      filled := chunks != [];
    }

    method Consume(n: nat)
      requires chunks != [] && n <= |chunks[0]|
      modifies this
      ensures chunks == Consumed(old(chunks), n)
      ensures filled <==> n < |old(chunks)[0]|
    {
      filled := n < |chunks[0]|;
      chunks := if n < |chunks[0]| then [chunks[0][n..]] + chunks[1..] else chunks[1..];
    }

    /** Gives the stream back, without what is in the buffer. */
    method IntoInner() returns (inner: seq<seq<byte>>)
      requires filled ==> chunks != []
      ensures inner == if filled then chunks[1..] else chunks
    {
      inner := if filled then chunks[1..] else chunks;
    }
  }

  function Consumed(chunks: seq<seq<byte>>, n: nat): seq<seq<byte>>
    requires chunks != [] && n <= |chunks[0]|
  {
    if n < |chunks[0]| then [chunks[0][n..]] + chunks[1..] else chunks[1..]
  }

  /** Pieces are never empty: an empty piece means the end of the stream. */
  predicate Pieces(chunks: seq<seq<byte>>) {
    forall i :: 0 <= i < |chunks| ==> chunks[i] != []
  }

  lemma ConsumedBytes(chunks: seq<seq<byte>>, n: nat)
    requires Pieces(chunks) && chunks != [] && 0 < n <= |chunks[0]|
    ensures Pieces(Consumed(chunks, n))
    ensures Flatten(chunks) == chunks[0][..n] + Flatten(Consumed(chunks, n))
    ensures |Flatten(Consumed(chunks, n))| < |Flatten(chunks)|
  {
    var b, rest := chunks[0], chunks[1..];
    assert Pieces(Consumed(chunks, n));
    SplitAppend(b, n, Flatten(rest));
    if n < |b| {
      FlattenCons(b[n..], rest);
    }
  }

  lemma SplitAppend(b: seq<byte>, n: nat, rest: seq<byte>)
    ensures n <= |b| ==> b + rest == b[..n] + (b[n..] + rest)
    ensures n == |b| ==> b[..n] == b
  {
  }

  lemma FlattenCons(b: seq<byte>, rest: seq<seq<byte>>)
    ensures Flatten([b] + rest) == b + Flatten(rest)
  {
    assert ([b] + rest)[1..] == rest;
  }

  // ------------------------------------------------------------------ the handshake reader

  /** What the handshake reader makes of the pieces, with `buf` read already, and what it leaves. */
  function ReadFrom(chunks: seq<seq<byte>>, buf: seq<byte>): (Frame, seq<seq<byte>>)
    decreases |chunks|
  {
    if chunks == [] || chunks[0] == [] then (Failed(ConnectionClosed), chunks)
    else
      var b := chunks[0];
      var pos := IndexOf(b, SEMICOLON);
      var piece := if pos < |b| then b[..pos + 1] else b;
      if |buf| + |b| > MAX_INSTRUCTION_SIZE then (Failed(TooLarge), chunks)
      else if Utf8.Decode(piece).None? then (Failed(InvalidUtf8), chunks)
      else if pos < |b| then (Frame(buf + piece), Consumed(chunks, pos + 1))
      else ReadFrom(chunks[1..], buf + piece)
  }

  /** Behind the first frame: what is left of the piece that it ends in, and the pieces after that. */
  function AfterFrame(chunks: seq<seq<byte>>): (seq<byte>, seq<seq<byte>>)
    requires SEMICOLON in Flatten(chunks)
  {
    if SEMICOLON in chunks[0] then (chunks[0][IndexOf(chunks[0], SEMICOLON) + 1..], chunks[1..])
    else AfterFrame(chunks[1..])
  }

  method ReadInstruction(stream: BufReader) returns (r: Frame)
    requires Pieces(stream.chunks)
    modifies stream
    ensures (r, stream.chunks) == ReadFrom(old(stream.chunks), [])
    ensures r.Frame? ==> SEMICOLON in Flatten(old(stream.chunks))
    ensures r.Frame? ==>
              var (buffered, unread) := AfterFrame(old(stream.chunks));
              stream.chunks == (if buffered == [] then unread else [buffered] + unread) && (stream.filled <==> buffered != [])
  {
    ghost var all := stream.chunks;
    var buf: seq<byte> := [];
    while true
      invariant Pieces(stream.chunks)
      invariant ReadFrom(stream.chunks, buf) == ReadFrom(all, [])
      invariant SEMICOLON in Flatten(stream.chunks) <==> SEMICOLON in Flatten(all)
      invariant SEMICOLON in Flatten(all) ==> AfterFrame(stream.chunks) == AfterFrame(all)
      decreases |stream.chunks|
    {
      var byteBuf := stream.FillBuf();
      if byteBuf == [] {
        return Failed(ConnectionClosed);
      }
      if |buf| + |byteBuf| > MAX_INSTRUCTION_SIZE {
        return Failed(TooLarge);
      }
      var pos := IndexOf(byteBuf, SEMICOLON);
      if pos < |byteBuf| {
        var chunk := byteBuf[..pos + 1];
        if Utf8.Decode(chunk).None? {
          return Failed(InvalidUtf8);
        }
        buf := buf + chunk;
        stream.Consume(pos + 1);
        return Frame(buf);
      }
      if Utf8.Decode(byteBuf).None? {
        return Failed(InvalidUtf8);
      }
      buf := buf + byteBuf;
      stream.Consume(|byteBuf|);
    }
  }

  /** The bytes up to and including the first semicolon; all of them when there is none. */
  function FirstFrame(stream: seq<byte>): (frame: seq<byte>)
    ensures frame <= stream
  {
    var pos := IndexOf(stream, SEMICOLON);
    if pos < |stream| then stream[..pos + 1] else stream
  }

  /** Every piece up to the first semicolon is well-formed by itself. */
  predicate PiecesDecode(chunks: seq<seq<byte>>) {
    if chunks == [] then true
    else
      Utf8.Decode(FirstFrame(chunks[0])).Some? && (SEMICOLON in chunks[0] || PiecesDecode(chunks[1..]))
  }

  /** The bytes at hand when the first semicolon is found: the limit is checked against all of them. */
  function BytesAtHand(chunks: seq<seq<byte>>): nat {
    if chunks == [] then 0
    else if SEMICOLON in chunks[0] then |chunks[0]|
    else |chunks[0]| + BytesAtHand(chunks[1..])
  }

  lemma FrameInFirst(a: seq<byte>, b: seq<byte>)
    requires SEMICOLON in a
    ensures FirstFrame(a + b) == FirstFrame(a) && SEMICOLON in a + b
  {
    var i := IndexOf(a, SEMICOLON);
    assert (a + b)[..i] == a[..i];
    IndexOfUnique(a + b, SEMICOLON, i);
  }

  lemma FrameAcross(a: seq<byte>, b: seq<byte>)
    requires SEMICOLON !in a
    ensures FirstFrame(a + b) == a + FirstFrame(b)
    ensures SEMICOLON in a + b <==> SEMICOLON in b
  {
    InEither(a, b, SEMICOLON);
    if SEMICOLON in b {
      IndexAcross(a, b);
      TakeAcross(a, b, IndexOf(b, SEMICOLON) + 1);
    }
  }

  lemma InEither<T>(a: seq<T>, b: seq<T>, x: T)
    ensures x in a + b <==> x in a || x in b
  {
  }

  lemma IndexAcross(a: seq<byte>, b: seq<byte>)
    requires SEMICOLON !in a && SEMICOLON in b
    ensures IndexOf(a + b, SEMICOLON) == |a| + IndexOf(b, SEMICOLON)
  {
    var j := IndexOf(b, SEMICOLON);
    TakeAcross(a, b, j);
    InEither(a, b[..j], SEMICOLON);
    IndexOfUnique(a + b, SEMICOLON, |a| + j);
  }

  lemma TakeAcross<T>(a: seq<T>, b: seq<T>, j: nat)
    ensures j <= |b| ==> (a + b)[..|a| + j] == a + b[..j]
  {
  }

  lemma FirstFrameAppend(a: seq<byte>, b: seq<byte>)
    ensures SEMICOLON in a ==> FirstFrame(a + b) == FirstFrame(a) && SEMICOLON in a + b
    ensures SEMICOLON !in a ==> FirstFrame(a + b) == a + FirstFrame(b) && (SEMICOLON in a + b <==> SEMICOLON in b)
  {
    if SEMICOLON in a {
      FrameInFirst(a, b);
    } else {
      FrameAcross(a, b);
    }
  }

  /** The reader succeeds exactly when the stream has a semicolon, every piece up to it is
      well-formed by itself, and the bytes at hand fit. */
  lemma {:induction false} ReadSucceedsIff(chunks: seq<seq<byte>>, buf: seq<byte>)
    requires Pieces(chunks)
    ensures ReadFrom(chunks, buf).0.Frame?
            <==> SEMICOLON in Flatten(chunks) && PiecesDecode(chunks)
                 && |buf| + BytesAtHand(chunks) <= MAX_INSTRUCTION_SIZE
    decreases |chunks|
  {
    if chunks != [] {
      FirstFrameAppend(chunks[0], Flatten(chunks[1..]));
      if SEMICOLON !in chunks[0] {
        assert Pieces(chunks[1..]);
        ReadSucceedsIff(chunks[1..], buf + chunks[0]);
      }
    }
  }

  /** The bytes at hand with `k` pieces. */
  function Through(chunks: seq<seq<byte>>, buf: seq<byte>, k: nat): nat
    requires k <= |chunks|
  {
    |buf| + |Flatten(chunks[..k])|
  }

  lemma ThroughStep(chunks: seq<seq<byte>>, buf: seq<byte>, k: nat)
    requires k < |chunks|
    ensures Through(chunks, buf, k + 1) == Through(chunks[1..], buf + chunks[0], k)
  {
    assert chunks[..k + 1] == [chunks[0]] + chunks[1..][..k];
    FlattenCons(chunks[0], chunks[1..][..k]);
  }

  /** Why it fails: piece `i` is the first that is missing, too much for the limit or ill-formed, in this order, and no
      piece before it has a semicolon. */
  predicate FailsAt(chunks: seq<seq<byte>>, buf: seq<byte>, i: nat, e: HandshakeError) {
    && i <= |chunks|
    && (forall k :: 0 <= k < i ==> SEMICOLON !in chunks[k] && Utf8.Decode(chunks[k]).Some?)
    && (forall k :: 0 < k <= i ==> Through(chunks, buf, k) <= 65536)
    && if i == |chunks| then e == ConnectionClosed
       else if Through(chunks, buf, i + 1) > 65536 then e == TooLarge
       else Utf8.Decode(FirstFrame(chunks[i])).None? && e == InvalidUtf8
  }

  lemma {:induction false} FailureExplained(chunks: seq<seq<byte>>, buf: seq<byte>) returns (i: nat)
    requires Pieces(chunks) && ReadFrom(chunks, buf).0.Failed?
    ensures FailsAt(chunks, buf, i, ReadFrom(chunks, buf).0.error)
    decreases |chunks|
  {
    i := 0;
    if chunks != [] {
      ThroughStep(chunks, buf, 0);
      if |buf| + |chunks[0]| <= MAX_INSTRUCTION_SIZE && Utf8.Decode(FirstFrame(chunks[0])).Some? {
        var j := FailureExplained(chunks[1..], buf + chunks[0]);
        i := j + 1;
        OnePieceMore(chunks, buf, j, ReadFrom(chunks, buf).0.error);
      }
    }
  }

  lemma OnePieceMore(chunks: seq<seq<byte>>, buf: seq<byte>, j: nat, e: HandshakeError)
    requires chunks != [] && SEMICOLON !in chunks[0] && Utf8.Decode(chunks[0]).Some?
    requires |buf| + |chunks[0]| <= 65536 && FailsAt(chunks[1..], buf + chunks[0], j, e)
    ensures FailsAt(chunks, buf, j + 1, e)
  {
    forall k | 0 <= k < |chunks|
      ensures Through(chunks, buf, k + 1) == Through(chunks[1..], buf + chunks[0], k)
    {
      ThroughStep(chunks, buf, k);
    }
    assert Through(chunks[1..], buf + chunks[0], 0) == |buf| + |chunks[0]|;
    forall k | 0 < k <= j + 1
      ensures Through(chunks, buf, k) <= 65536
    {
      ThroughStep(chunks, buf, k - 1);
    }
    assert forall k :: 0 < k < |chunks| ==> chunks[k] == chunks[1..][k - 1];
  }

  /** When it succeeds, it takes exactly the first frame of the stream and leaves the rest. */
  lemma {:induction false} ReadTakesFirstFrame(chunks: seq<seq<byte>>, buf: seq<byte>)
    requires Pieces(chunks) && ReadFrom(chunks, buf).0.Frame?
    ensures var (r, rest) := ReadFrom(chunks, buf);
            var frame := FirstFrame(Flatten(chunks));
            r.text == buf + frame && Pieces(rest) && Flatten(chunks) == frame + Flatten(rest)
    decreases |chunks|
  {
    var b, later := chunks[0], Flatten(chunks[1..]);
    FirstFrameAppend(b, later);
    if SEMICOLON in b {
      ConsumedBytes(chunks, IndexOf(b, SEMICOLON) + 1);
    } else {
      assert Pieces(chunks[1..]);
      ReadTakesFirstFrame(chunks[1..], buf + b);
      AppendAssoc(buf, b, FirstFrame(later));
      AppendAssoc(b, FirstFrame(later), Flatten(ReadFrom(chunks[1..], buf + b).1));
    }
  }

  lemma {:induction false} AsciiPieces(chunks: seq<seq<byte>>)
    requires Utf8.AsciiBytes(FirstFrame(Flatten(chunks)))
    ensures PiecesDecode(chunks)
  {
    if chunks != [] {
      var b, later := chunks[0], Flatten(chunks[1..]);
      FirstFrameAppend(b, later);
      var frame := FirstFrame(b + later);
      assert forall i :: 0 <= i < |FirstFrame(b)| ==> FirstFrame(b)[i] == frame[i];
      Utf8.DecodeAscii(FirstFrame(b));
      if SEMICOLON !in b {
        assert forall i :: 0 <= i < |FirstFrame(later)| ==> FirstFrame(later)[i] == frame[|b| + i];
        AsciiPieces(chunks[1..]);
      }
    }
  }

  /** The last piece looked at adds at most its own length to the frame. */
  lemma {:induction false} BytesAtHandBound(chunks: seq<seq<byte>>, limit: nat)
    requires Pieces(chunks) && forall i :: 0 <= i < |chunks| ==> |chunks[i]| <= limit
    requires SEMICOLON in Flatten(chunks)
    ensures BytesAtHand(chunks) < |FirstFrame(Flatten(chunks))| + limit
  {
    var b, later := chunks[0], Flatten(chunks[1..]);
    FirstFrameAppend(b, later);
    if SEMICOLON !in b {
      BytesAtHandBound(chunks[1..], limit);
    }
  }

  /** An ASCII frame that fits with one more piece is read, whatever the pieces, and the rest stays. */
  lemma ChunkingDoesNotMatter(chunks: seq<seq<byte>>, limit: nat)
    requires Pieces(chunks) && forall i :: 0 <= i < |chunks| ==> |chunks[i]| <= limit
    requires var frame := FirstFrame(Flatten(chunks));
             SEMICOLON in Flatten(chunks) && Utf8.AsciiBytes(frame) && |frame| + limit <= MAX_INSTRUCTION_SIZE + 1
    ensures var (r, rest) := ReadFrom(chunks, []);
            && r == Frame(FirstFrame(Flatten(chunks)))
            && Flatten(chunks) == FirstFrame(Flatten(chunks)) + Flatten(rest)
  {
    AsciiPieces(chunks);
    BytesAtHandBound(chunks, limit);
    ReadSucceedsIff(chunks, []);
    ReadTakesFirstFrame(chunks, []);
    assert [] + FirstFrame(Flatten(chunks)) == FirstFrame(Flatten(chunks));
  }

  /** A two-byte character split between pieces makes the reader fail, although it reads the same
      bytes in one piece. */
  lemma SplitCharacterFails()
    ensures Flatten<byte>([[0xC3, 0xA9, 0x3B]]) == Flatten<byte>([[0xC3], [0xA9, 0x3B]])
    ensures ReadFrom([[0xC3, 0xA9, 0x3B]], []).0.Frame?
    ensures ReadFrom([[0xC3], [0xA9, 0x3B]], []).0 == Failed(InvalidUtf8)
  {
    var w: seq<byte>, a: seq<byte>, b: seq<byte> := [0xC3, 0xA9, 0x3B], [0xC3], [0xA9, 0x3B];
    assert [w][1..] == [] && [a, b][1..] == [b] && [b][1..] == [];
    assert Flatten([w]) == w + Flatten<byte>([]) && Flatten([b]) == b + Flatten<byte>([]);
    assert Flatten([a, b]) == a + Flatten([b]);
    IndexOfUnique(w, SEMICOLON, 2);
    assert w[..3] == w;
    EacuteSemicolon(w);
    assert SEMICOLON !in a && Utf8.DecodeFirst(a) == None;
  }

  lemma EacuteSemicolon(w: seq<byte>)
    requires w == [0xC3, 0xA9, 0x3B]
    ensures Utf8.Decode(w).Some?
  {
    var e := 0xE9 as char;
    assert Utf8.EncodeChar(e) == [0xC3, 0xA9] && Utf8.EncodeChar(';') == [0x3B];
    Utf8.DecodeEncode([e, ';']);
    assert [e, ';'][1..] == ";" && ";"[1..] == "";
    assert Utf8.Encode(";") == [0x3B] + Utf8.Encode("");
    assert Utf8.Encode([e, ';']) == [0xC3, 0xA9] + Utf8.Encode(";");
    assert Utf8.Encode([e, ';']) == w;
  }

  // ------------------------------------------------------------------ the relay

  /** The piece that the relay takes next, up to a semicolon or whole. */
  function NextPiece(chunks: seq<seq<byte>>): seq<byte>
    requires chunks != []
  {
    FirstFrame(chunks[0])
  }

  /** What the relay keeps of a piece: a piece that is not well-formed by itself is dropped. */
  function Kept(piece: seq<byte>): seq<byte> {
    if Utf8.Decode(piece).Some? then piece else []
  }

  function AfterPiece(chunks: seq<seq<byte>>): (rest: seq<seq<byte>>)
    requires Pieces(chunks) && chunks != []
    ensures Pieces(rest) && |Flatten(rest)| < |Flatten(chunks)|
    ensures Flatten(chunks) == NextPiece(chunks) + Flatten(rest)
  {
    ConsumedBytes(chunks, |NextPiece(chunks)|);
    Consumed(chunks, |NextPiece(chunks)|)
  }

  /** The messages forwarded to the handler, with `buf` collected already. */
  function RelayFrom(chunks: seq<seq<byte>>, buf: seq<byte>): seq<seq<byte>>
    requires Pieces(chunks)
    decreases |Flatten(chunks)|
  {
    if chunks == [] then []
    else
      var message := buf + Kept(NextPiece(chunks));
      if SEMICOLON in chunks[0] then [message] + RelayFrom(AfterPiece(chunks), [])
      else RelayFrom(AfterPiece(chunks), message)
  }

  /** Forwards one message after the other, until the stream ends or the handler is gone. */
  method Relay(stream: BufReader, toHandler: Channel)
    requires Pieces(stream.chunks)
    modifies stream, toHandler
    ensures var messages := RelayFrom(old(stream.chunks), []);
            var n := Min(|messages|, old(toHandler.room));
            toHandler.sent == old(toHandler.sent) + messages[..n]
  {
    ghost var messages, n := RelayFrom(stream.chunks, []), 0;
    ghost var sent0, room0 := toHandler.sent, toHandler.room;
    while true
      invariant Pieces(stream.chunks)
      invariant n <= |messages| && RelayFrom(stream.chunks, []) == messages[n..]
      invariant toHandler.sent == sent0 + messages[..n]
      invariant toHandler.room == room0 - n
      decreases |Flatten(stream.chunks)|
    {
      var message := CollectMessage(stream);
      if message.None? {
        AllTaken(messages, n);
        return;
      }
      FirstOfRest(messages, n, message.value, RelayFrom(stream.chunks, []));
      var ok := toHandler.Send(message.value);
      if !ok {
        return;
      }
      AppendAssoc(sent0, messages[..n], [message.value]);
      n := n + 1;
    }
  }

  /** The inner loop of the relay: the next message, or nothing at the end of the stream. */
  method CollectMessage(stream: BufReader) returns (message: Option<seq<byte>>)
    requires Pieces(stream.chunks)
    modifies stream
    ensures Pieces(stream.chunks)
    ensures message.None? ==> RelayFrom(old(stream.chunks), []) == []
    ensures message.Some? ==>
              && RelayFrom(old(stream.chunks), []) == [message.value] + RelayFrom(stream.chunks, [])
              && |Flatten(stream.chunks)| < |Flatten(old(stream.chunks))|
  {
    var buf: seq<byte> := [];
    while true
      invariant Pieces(stream.chunks)
      invariant RelayFrom(stream.chunks, buf) == RelayFrom(old(stream.chunks), [])
      invariant |Flatten(stream.chunks)| <= |Flatten(old(stream.chunks))|
      decreases |Flatten(stream.chunks)|
    {
      var byteBuf := stream.FillBuf();
      if byteBuf == [] {
        return None;
      }
      ghost var rest := AfterPiece(stream.chunks);
      var chunk := FirstFrame(byteBuf);
      buf := buf + Kept(chunk);
      stream.Consume(|chunk|);
      assert stream.chunks == rest;
      if SEMICOLON in byteBuf {
        return Some(buf);
      }
    }
  }

  lemma AllTaken<T>(all: seq<T>, n: nat)
    ensures n <= |all| && all[n..] == [] ==> n == |all| && all[..n] == all
  {
  }

  lemma FirstOfRest<T>(all: seq<T>, n: nat, x: T, rest: seq<T>)
    requires n <= |all| && all[n..] == [x] + rest
    ensures n < |all| && all[n + 1..] == rest && all[..n + 1] == all[..n] + [x]
  {
    assert all[n..][0] == all[n] && all[n..][1..] == all[n + 1..];
  }

  lemma ConsumedThen(a: seq<seq<byte>>, b: seq<seq<byte>>, n: nat)
    requires a != [] && n <= |a[0]|
    ensures Consumed(a + b, n) == Consumed(a, n) + b
  {
    assert (a + b)[1..] == a[1..] + b;
    if n < |a[0]| {
      AppendAssoc([a[0][n..]], a[1..], b);
    }
  }

  /** A piece that is ill-formed by itself, wherever in the stream, is relayed as if it were not there. */
  lemma {:induction false} IllFormedIsSkipped(a: seq<seq<byte>>, p: seq<byte>, b: seq<seq<byte>>, buf: seq<byte>)
    requires Pieces(a) && p != [] && Pieces(b) && SEMICOLON !in p && Utf8.Decode(p) == None
    requires Pieces(a + ([p] + b)) && Pieces(a + b)
    ensures RelayFrom(a + ([p] + b), buf) == RelayFrom(a + b, buf)
    decreases |Flatten(a)|
  {
    if a == [] {
      assert a + ([p] + b) == [p] + b && a + b == b && ([p] + b)[1..] == b;
      assert buf + [] == buf;
    } else {
      var n := |FirstFrame(a[0])|;
      ConsumedBytes(a, n);
      ConsumedThen(a, [p] + b, n);
      ConsumedThen(a, b, n);
      var message := buf + Kept(FirstFrame(a[0]));
      IllFormedIsSkipped(Consumed(a, n), p, b, if SEMICOLON in a[0] then [] else message);
    }
  }

  /** Where it would end a message, the message is what was collected before. */
  lemma IllFormedEnd(p: seq<byte>, b: seq<seq<byte>>, buf: seq<byte>)
    requires Pieces([p] + b) && IndexOf(p, SEMICOLON) + 1 == |p| && Utf8.Decode(p) == None
    ensures Pieces(b) && RelayFrom([p] + b, buf) == [buf] + RelayFrom(b, [])
  {
    assert ([p] + b)[1..] == b && FirstFrame(p) == p;
    assert forall i :: 0 <= i < |b| ==> b[i] == ([p] + b)[i + 1];
    assert buf + [] == buf;
  }

  /** The frames of a stream: it is cut after every semicolon. */
  function Frames(stream: seq<byte>): seq<seq<byte>>
    decreases |stream|
  {
    if SEMICOLON !in stream then []
    else [FirstFrame(stream)] + Frames(stream[|FirstFrame(stream)|..])
  }

  /** The frames, put together again, are the stream up to its last semicolon. */
  lemma {:induction false} FramesCutTheStream(stream: seq<byte>)
    ensures Flatten(Frames(stream)) <= stream
    ensures SEMICOLON !in stream[|Flatten(Frames(stream))|..]
    decreases |stream|
  {
    if SEMICOLON in stream {
      var f := FirstFrame(stream);
      var rest := stream[|f|..];
      FramesCutTheStream(rest);
      FramesStep(stream);
      assert stream == f + rest;
      DropTwo(f, rest, |Flatten(Frames(rest))|);
    }
  }

  /** Every frame ends in a semicolon and holds no other. */
  lemma {:induction false} FramesEndInSemicolon(stream: seq<byte>)
    ensures forall i :: 0 <= i < |Frames(stream)| ==>
              Frames(stream)[i] != [] && IndexOf(Frames(stream)[i], SEMICOLON) == |Frames(stream)[i]| - 1
    decreases |stream|
  {
    if SEMICOLON in stream {
      var f := FirstFrame(stream);
      var rest := Frames(stream[|f|..]);
      FramesEndInSemicolon(stream[|f|..]);
      FramesStep(stream);
      PieceIsFrame(stream);
      forall i | 0 <= i < |Frames(stream)|
        ensures Frames(stream)[i] != [] && IndexOf(Frames(stream)[i], SEMICOLON) == |Frames(stream)[i]| - 1
      {
        if i > 0 {
          assert Frames(stream)[i] == rest[i - 1];
        } else {
          LastIsFirst(f, stream);
        }
      }
    }
  }

  lemma LastIsFirst(f: seq<byte>, stream: seq<byte>)
    requires SEMICOLON in stream && f == FirstFrame(stream)
    ensures f != [] && IndexOf(f, SEMICOLON) == |f| - 1
  {
    assert f[..|f| - 1] == stream[..|f| - 1];
    IndexOfUnique(f, SEMICOLON, |f| - 1);
  }

  /** The pieces up to the last semicolon, as the relay takes them, are well-formed one by one. */
  predicate AllPiecesDecode(chunks: seq<seq<byte>>)
    requires Pieces(chunks)
    decreases |Flatten(chunks)|
  {
    SEMICOLON in Flatten(chunks) ==>
      Utf8.Decode(NextPiece(chunks)).Some? && AllPiecesDecode(AfterPiece(chunks))
  }

  /** `buf` in front of the first frame. */
  function WithPrefix(buf: seq<byte>, frames: seq<seq<byte>>): seq<seq<byte>> {
    if frames == [] then [] else [buf + frames[0]] + frames[1..]
  }

  /** The frames of a stream, told by its next piece. */
  lemma FramesByPiece(chunks: seq<seq<byte>>)
    requires Pieces(chunks) && SEMICOLON in Flatten(chunks)
    ensures var piece, later := NextPiece(chunks), Flatten(AfterPiece(chunks));
            Frames(Flatten(chunks)) ==
              if SEMICOLON in chunks[0] then [piece] + Frames(later) else WithPrefix(piece, Frames(later))
    ensures SEMICOLON !in chunks[0] ==> SEMICOLON in Flatten(AfterPiece(chunks))
  {
    var piece, later := NextPiece(chunks), Flatten(AfterPiece(chunks));
    PieceIsFrame(chunks[0]);
    if SEMICOLON in chunks[0] {
      FrameInFirst(piece, later);
      assert (piece + later)[|piece|..] == later;
      assert Frames(piece + later) == [piece] + Frames(later);
    } else {
      FramesAcrossPiece(piece, later);
    }
  }

  lemma FramesAcrossPiece(piece: seq<byte>, later: seq<byte>)
    requires SEMICOLON !in piece && SEMICOLON in piece + later
    ensures SEMICOLON in later
    ensures Frames(piece + later) == WithPrefix(piece, Frames(later))
  {
    FrameAcross(piece, later);
    PrefixFrame(piece, later, piece + later);
  }

  lemma PrefixFrame(piece: seq<byte>, later: seq<byte>, stream: seq<byte>)
    requires stream == piece + later && SEMICOLON in later && SEMICOLON in stream
    requires FirstFrame(stream) == piece + FirstFrame(later)
    ensures Frames(stream) == WithPrefix(piece, Frames(later))
  {
    var f := FirstFrame(later);
    var rest := later[|f|..];
    assert later == f + later[|f|..];
    AppendAssoc(piece, f, rest);
    FramesCut(later, f, rest);
    FramesCut(stream, piece + f, rest);
    assert ([f] + Frames(rest))[1..] == Frames(rest);
    assert WithPrefix(piece, [f] + Frames(rest)) == [piece + f] + Frames(rest);
  }

  lemma FramesCut(stream: seq<byte>, f: seq<byte>, rest: seq<byte>)
    requires SEMICOLON in stream && f == FirstFrame(stream) && stream == f + rest
    ensures Frames(stream) == [f] + Frames(rest)
  {
    assert stream[|f|..] == rest;
  }

  lemma DropTwo(a: seq<byte>, b: seq<byte>, n: nat)
    ensures n <= |b| ==> (a + b)[|a| + n..] == b[n..]
  {
  }

  lemma FramesStep(stream: seq<byte>)
    requires SEMICOLON in stream
    ensures var rest := Frames(stream[|FirstFrame(stream)|..]);
            && Frames(stream) == [FirstFrame(stream)] + rest
            && Frames(stream)[1..] == rest
  {
  }

  lemma PieceIsFrame(b: seq<byte>)
    ensures SEMICOLON in b ==> SEMICOLON in FirstFrame(b) && FirstFrame(FirstFrame(b)) == FirstFrame(b)
    ensures SEMICOLON !in b ==> FirstFrame(b) == b
  {
    var pos := IndexOf(b, SEMICOLON);
    if pos < |b| {
      var f := b[..pos + 1];
      assert f[..pos] == b[..pos] && f[pos] == SEMICOLON;
      IndexOfUnique(f, SEMICOLON, pos);
    }
  }

  lemma NoFrames(chunks: seq<seq<byte>>, buf: seq<byte>)
    requires Pieces(chunks) && SEMICOLON !in Flatten(chunks)
    ensures RelayFrom(chunks, buf) == []
    decreases |Flatten(chunks)|
  {
    if chunks != [] {
      assert SEMICOLON !in chunks[0];
      NoFrames(AfterPiece(chunks), buf + Kept(NextPiece(chunks)));
    }
  }

  lemma {:induction false} RelayKeepsFrames(chunks: seq<seq<byte>>, buf: seq<byte>)
    requires Pieces(chunks) && AllPiecesDecode(chunks)
    ensures RelayFrom(chunks, buf) == WithPrefix(buf, Frames(Flatten(chunks)))
    decreases |Flatten(chunks)|
  {
    if SEMICOLON !in Flatten(chunks) {
      NoFrames(chunks, buf);
    } else {
      var piece, rest := NextPiece(chunks), AfterPiece(chunks);
      FramesByPiece(chunks);
      if SEMICOLON in chunks[0] {
        RelayKeepsFrames(rest, []);
        WithEmptyPrefix(Frames(Flatten(rest)));
      } else {
        RelayKeepsFrames(rest, buf + piece);
        var later := Frames(Flatten(rest));
        AppendAssoc(buf, piece, later[0]);
      }
    }
  }

  lemma WithEmptyPrefix(frames: seq<seq<byte>>)
    ensures WithPrefix([], frames) == frames
  {
    if frames != [] {
      assert [] + frames[0] == frames[0];
      assert frames == [frames[0]] + frames[1..];
    }
  }

  /** The relay never adds bytes, and a dropped piece is missing from what it forwards. */
  lemma {:induction false} RelayLoses(chunks: seq<seq<byte>>, buf: seq<byte>)
    requires Pieces(chunks) && SEMICOLON in Flatten(chunks)
    ensures var sent, all := |Flatten(RelayFrom(chunks, buf))|, |buf| + |Flatten(Frames(Flatten(chunks)))|;
            sent <= all && (!AllPiecesDecode(chunks) ==> sent < all)
    decreases |Flatten(chunks)|
  {
    var piece, rest := NextPiece(chunks), AfterPiece(chunks);
    var message := buf + Kept(piece);
    FramesByPiece(chunks);
    if SEMICOLON in chunks[0] {
      assert RelayFrom(chunks, buf)[1..] == RelayFrom(rest, []);
      assert Frames(Flatten(chunks))[1..] == Frames(Flatten(rest));
      if SEMICOLON in Flatten(rest) {
        RelayLoses(rest, []);
      } else {
        NoFrames(rest, []);
        assert AllPiecesDecode(rest) && piece != [];
        assert Flatten(RelayFrom(chunks, buf)) == message + Flatten<byte>([]);
        assert Flatten(Frames(Flatten(chunks))) == piece + Flatten<byte>([]);
      }
    } else {
      RelayLoses(rest, message);
      var later := Frames(Flatten(rest));
      assert WithPrefix(piece, later)[1..] == later[1..];
    }
  }

  /** The relay forwards exactly the frames of the stream when every piece is well-formed by itself,
      and only then. */
  lemma RelayExact(chunks: seq<seq<byte>>)
    requires Pieces(chunks)
    ensures RelayFrom(chunks, []) == Frames(Flatten(chunks)) <==> AllPiecesDecode(chunks)
  {
    if AllPiecesDecode(chunks) {
      RelayKeepsFrames(chunks, []);
      WithEmptyPrefix(Frames(Flatten(chunks)));
    } else {
      RelayLoses(chunks, []);
    }
  }

  /** The bytes of all frames are the next piece and the bytes of the frames behind it. */
  lemma FrameBytesByPiece(chunks: seq<seq<byte>>)
    requires Pieces(chunks) && SEMICOLON in Flatten(chunks)
    ensures Flatten(Frames(Flatten(chunks))) == NextPiece(chunks) + Flatten(Frames(Flatten(AfterPiece(chunks))))
  {
    var piece, later := NextPiece(chunks), Frames(Flatten(AfterPiece(chunks)));
    FramesByPiece(chunks);
    if SEMICOLON in chunks[0] {
      assert ([piece] + later)[1..] == later;
    } else {
      assert WithPrefix(piece, later)[1..] == later[1..];
      AppendAssoc(piece, later[0], Flatten(later[1..]));
      assert Flatten(WithPrefix(piece, later)) == piece + Flatten(later);
    }
  }

  lemma {:induction false} AsciiAllPieces(chunks: seq<seq<byte>>)
    requires Pieces(chunks) && Utf8.AsciiBytes(Flatten(Frames(Flatten(chunks))))
    ensures AllPiecesDecode(chunks)
    decreases |Flatten(chunks)|
  {
    if SEMICOLON in Flatten(chunks) {
      var piece, rest := NextPiece(chunks), AfterPiece(chunks);
      FrameBytesByPiece(chunks);
      AsciiParts(piece, Flatten(Frames(Flatten(rest))));
      Utf8.DecodeAscii(piece);
      AsciiAllPieces(rest);
    }
  }

  lemma AsciiParts(a: seq<byte>, b: seq<byte>)
    requires Utf8.AsciiBytes(a + b)
    ensures Utf8.AsciiBytes(a) && Utf8.AsciiBytes(b)
  {
    assert forall i :: 0 <= i < |b| ==> b[i] == (a + b)[|a| + i];
    assert forall i :: 0 <= i < |a| ==> a[i] == (a + b)[i];
  }

  /** So for an ASCII stream the messages do not depend on how the network cut it. */
  lemma RelayIgnoresChunking(a: seq<seq<byte>>, b: seq<seq<byte>>)
    requires Pieces(a) && Pieces(b) && Flatten(a) == Flatten(b) && Utf8.AsciiBytes(Flatten(a))
    ensures RelayFrom(a, []) == RelayFrom(b, []) == Frames(Flatten(a))
  {
    FramesCutTheStream(Flatten(a));
    assert forall i :: 0 <= i < |Flatten(Frames(Flatten(a)))| ==> Flatten(Frames(Flatten(a)))[i] == Flatten(a)[i];
    AsciiAllPieces(a);
    AsciiAllPieces(b);
    RelayExact(a);
    RelayExact(b);
  }

  // ------------------------------------------------------------------ exactly when cutting does not matter

  /** The first byte outside ASCII. */
  function FirstLong(b: seq<byte>): (j: nat)
    requires !Utf8.AsciiBytes(b)
    ensures j < |b| && b[j] >= 0x80 && Utf8.AsciiBytes(b[..j])
  {
    if b[0] >= 0x80 then 0
    else
      var j := FirstLong(b[1..]);
      assert b[..j + 1] == [b[0]] + b[1..][..j];
      j + 1
  }

  /** ASCII up to the first byte of a longer character. */
  predicate EndsInside(a: seq<byte>) {
    a != [] && Utf8.AsciiBytes(a[..|a| - 1]) && a[|a| - 1] >= 0x80
  }

  /** Bytes that stop behind the first byte of a longer character are not UTF-8. */
  lemma {:induction false} CutInside(a: seq<byte>)
    requires EndsInside(a)
    ensures Utf8.Decode(a) == None
  {
    if |a| > 1 {
      assert a[0] == a[..|a| - 1][0];
      assert a[1..][..|a| - 2] == a[..|a| - 1][1..];
      CutInside(a[1..]);
    }
  }

  /** The pieces of a stream that is cut once. */
  lemma TwoPieces(w: seq<byte>, j: nat)
    requires 0 < j < |w|
    ensures Pieces([w[..j], w[j..]]) && Flatten([w[..j], w[j..]]) == w
  {
    assert w == w[..j] + w[j..];
    FlattenTwo(w[..j], w[j..]);
  }

  lemma FlattenTwo(a: seq<byte>, b: seq<byte>)
    ensures Flatten([a, b]) == a + b && [a, b][1..] == [b] && Flatten([b]) == b
  {
    FlattenCons(b, []);
    FlattenCons(a, [b]);
    assert [a] + [b] == [a, b] && [b] + [] == [b];
  }

  lemma {:induction false} AtHandAtMostAll(chunks: seq<seq<byte>>)
    ensures BytesAtHand(chunks) <= |Flatten(chunks)|
  {
    if chunks != [] {
      AtHandAtMostAll(chunks[1..]);
    }
  }

  /** The handshake reader takes the first frame from every cutting of the stream. */
  ghost predicate ReadFromEveryCutting(w: seq<byte>) {
    forall chunks: seq<seq<byte>> :: Pieces(chunks) && Flatten(chunks) == w ==> ReadFrom(chunks, []).0.Frame?
  }

  /** Within the size limit, a frame is read however the stream is cut exactly when it is ASCII. */
  lemma EveryCuttingIff(w: seq<byte>)
    requires SEMICOLON in w && |w| <= MAX_INSTRUCTION_SIZE
    ensures ReadFromEveryCutting(w) <==> Utf8.AsciiBytes(FirstFrame(w))
  {
    if Utf8.AsciiBytes(FirstFrame(w)) {
      forall chunks: seq<seq<byte>> | Pieces(chunks) && Flatten(chunks) == w
        ensures ReadFrom(chunks, []).0.Frame?
      {
        AsciiPieces(chunks);
        AtHandAtMostAll(chunks);
        ReadSucceedsIff(chunks, []);
      }
    } else {
      var n := BadCutOfFrame(w);
      TwoPieces(w, n);
      CutInside(w[..n]);
      assert !ReadFrom([w[..n], w[n..]], []).0.Frame?;
    }
  }

  /** Where to cut a frame with a longer character. */
  lemma BadCutOfFrame(w: seq<byte>) returns (n: nat)
    requires SEMICOLON in w && !Utf8.AsciiBytes(FirstFrame(w))
    ensures 0 < n < |FirstFrame(w)| && SEMICOLON !in w[..n] && EndsInside(w[..n])
  {
    var frame := FirstFrame(w);
    var j := FirstLong(frame);
    LastIsFirst(frame, w);
    n := j + 1;
    PrefixCut(frame, w, j);
  }

  ghost predicate RelayedFromEveryCutting(w: seq<byte>) {
    forall chunks: seq<seq<byte>> :: Pieces(chunks) && Flatten(chunks) == w ==> RelayFrom(chunks, []) == Frames(w)
  }

  lemma InsideTail(a: seq<byte>, f: seq<byte>)
    requires EndsInside(a) && f <= a && f != [] && f[|f| - 1] == SEMICOLON
    ensures |f| < |a| && EndsInside(a[|f|..])
  {
    var b := a[|f|..];
    assert f[|f| - 1] == a[|f| - 1];
    assert b[..|b| - 1] == a[..|a| - 1][|f|..];
  }

  /** A stream cut inside a character in front of a semicolon is not relayed whole. */
  lemma {:induction false} BadCut(a: seq<byte>, rest: seq<byte>)
    requires EndsInside(a) && SEMICOLON in rest
    ensures Pieces([a, rest]) && !AllPiecesDecode([a, rest])
    decreases |a|
  {
    var chunks := [a, rest];
    FlattenTwo(a, rest);
    if SEMICOLON in a {
      var f := FirstFrame(a);
      LastIsFirst(f, a);
      InsideTail(a, f);
      assert AfterPiece(chunks) == [a[|f|..], rest];
      BadCut(a[|f|..], rest);
    } else {
      CutInside(a);
    }
  }

  /** `f` is `w` up to its last semicolon. */
  predicate UpToLast(w: seq<byte>, f: seq<byte>) {
    f <= w && SEMICOLON !in w[|f|..] && (f == [] || f[|f| - 1] == SEMICOLON)
  }

  lemma {:induction false} FrameBytesEnd(w: seq<byte>)
    ensures UpToLast(w, Flatten(Frames(w)))
    decreases |w|
  {
    if SEMICOLON in w {
      var f := FirstFrame(w);
      FramesStep(w);
      LastIsFirst(f, w);
      FrameBytesEnd(w[|f|..]);
      var framed := Flatten(Frames(w[|f|..]));
      assert Flatten(Frames(w)) == f + framed;
      assert w == f + w[|f|..] && w[|f + framed|..] == w[|f|..][|framed|..];
      assert UpToLast(w, f + framed);
    }
  }

  /** The relay forwards the frames of a stream however it is cut exactly when they are ASCII. */
  lemma EveryRelayIff(w: seq<byte>)
    ensures RelayedFromEveryCutting(w) <==> Utf8.AsciiBytes(Flatten(Frames(w)))
  {
    if Utf8.AsciiBytes(Flatten(Frames(w))) {
      forall chunks: seq<seq<byte>> | Pieces(chunks) && Flatten(chunks) == w
        ensures RelayFrom(chunks, []) == Frames(w)
      {
        AsciiAllPieces(chunks);
        RelayExact(chunks);
      }
    } else {
      FrameBytesEnd(w);
      var n := BadCutOfFrames(w, Flatten(Frames(w)));
      TwoPieces(w, n);
      BadCut(w[..n], w[n..]);
      RelayExact([w[..n], w[n..]]);
    }
  }

  /** Where to cut frames with a longer character. */
  lemma BadCutOfFrames(w: seq<byte>, f: seq<byte>) returns (n: nat)
    requires UpToLast(w, f) && !Utf8.AsciiBytes(f)
    ensures 0 < n < |w| && SEMICOLON in w[n..] && EndsInside(w[..n])
  {
    var j := FirstLong(f);
    n := j + 1;
    PrefixCut(f, w, j);
    StillIn(w, n, |f| - 1);
    assert n < |w| && SEMICOLON in w[n..];
  }

  lemma PrefixCut(f: seq<byte>, w: seq<byte>, j: nat)
    requires f <= w && j < |f| && Utf8.AsciiBytes(f[..j]) && f[j] >= 0x80
    ensures EndsInside(w[..j + 1])
  {
    assert w[..j + 1][..j] == f[..j];
  }

  // ------------------------------------------------------------------ from the handshake to the relay

  /** The handshake's reader is taken apart behind the last instruction of the handshake, and a new one is
      put on the stream: what is left in the old buffer is neither returned nor relayed. */
  lemma {:induction false} HandoverBytes(chunks: seq<seq<byte>>)
    requires Pieces(chunks) && SEMICOLON in Flatten(chunks)
    ensures var (buffered, unread) := AfterFrame(chunks);
            Pieces(unread) && Flatten(chunks) == FirstFrame(Flatten(chunks)) + (buffered + Flatten(unread))
  {
    FirstFrameAppend(chunks[0], Flatten(chunks[1..]));
    if SEMICOLON in chunks[0] {
      var f := FirstFrame(chunks[0]);
      assert chunks[0] == f + chunks[0][|f|..];
      AppendAssoc(f, chunks[0][|f|..], Flatten(chunks[1..]));
    } else {
      var (buffered, unread) := AfterFrame(chunks[1..]);
      HandoverBytes(chunks[1..]);
      AppendAssoc(chunks[0], FirstFrame(Flatten(chunks[1..])), buffered + Flatten(unread));
    }
  }

  /** The frame ends where a piece ends. */
  ghost predicate EndsAPiece(chunks: seq<seq<byte>>, frame: seq<byte>) {
    exists k :: 0 <= k <= |chunks| && Flatten(chunks[..k]) == frame
  }

  lemma {:induction false} TakenLonger(chunks: seq<seq<byte>>, i: nat, k: nat)
    requires Pieces(chunks) && i <= k <= |chunks|
    ensures |Flatten(chunks[..i])| <= |Flatten(chunks[..k])|
    ensures i < k ==> |Flatten(chunks[..i])| < |Flatten(chunks[..k])|
  {
    if i < k {
      TakenLonger(chunks, i, k - 1);
      assert chunks[..k] == chunks[..k - 1] + [chunks[k - 1]];
      FlattenSnoc(chunks[..k - 1], chunks[k - 1]);
    }
  }

  /** The piece that the first frame ends in. */
  lemma {:induction false} FramePiece(chunks: seq<seq<byte>>) returns (k: nat)
    requires Pieces(chunks) && SEMICOLON in Flatten(chunks)
    ensures k < |chunks| && AfterFrame(chunks).1 == chunks[k + 1..]
    ensures Flatten(chunks[..k + 1]) == FirstFrame(Flatten(chunks)) + AfterFrame(chunks).0
    ensures |AfterFrame(chunks).0| < |chunks[k]|
  {
    FirstFrameAppend(chunks[0], Flatten(chunks[1..]));
    if SEMICOLON in chunks[0] {
      k := 0;
      assert chunks[..1] == [chunks[0]];
      assert Flatten([chunks[0]]) == chunks[0] + Flatten<byte>([]);
      assert chunks[0] == FirstFrame(chunks[0]) + AfterFrame(chunks).0;
    } else {
      var j := FramePiece(chunks[1..]);
      k := j + 1;
      assert chunks[..k + 1][1..] == chunks[1..][..j + 1] && chunks[..k + 1][0] == chunks[0];
      AppendAssoc(chunks[0], FirstFrame(Flatten(chunks[1..])), AfterFrame(chunks).0);
    }
  }

  /** Nothing is lost at the handover exactly when the last instruction of the handshake ends a piece. */
  lemma HandoverLosesNothingIff(chunks: seq<seq<byte>>)
    requires Pieces(chunks) && SEMICOLON in Flatten(chunks)
    ensures AfterFrame(chunks).0 == [] <==> EndsAPiece(chunks, FirstFrame(Flatten(chunks)))
  {
    var k := FramePiece(chunks);
    var frame, buffered := FirstFrame(Flatten(chunks)), AfterFrame(chunks).0;
    if buffered == [] {
      assert Flatten(chunks[..k + 1]) == frame;
    } else if EndsAPiece(chunks, frame) {
      var i: nat :| i <= |chunks| && Flatten(chunks[..i]) == frame;
      SizesUpTo(chunks, k);
      if i <= k {
        TakenLonger(chunks, i, k);
      } else {
        TakenLonger(chunks, k + 1, i);
      }
    }
  }

  lemma SizesUpTo(chunks: seq<seq<byte>>, k: nat)
    requires k < |chunks|
    ensures |Flatten(chunks[..k + 1])| == |Flatten(chunks[..k])| + |chunks[k]|
  {
    assert chunks[..k + 1] == chunks[..k] + [chunks[k]];
    FlattenSnoc(chunks[..k], chunks[k]);
  }

  lemma FrameBytesUnique(w: seq<byte>, n: nat)
    requires n <= |w| && SEMICOLON !in w[n..] && (n == 0 || w[n - 1] == SEMICOLON)
    ensures |Flatten(Frames(w))| == n
  {
    var m := |Flatten(Frames(w))|;
    FrameBytesEnd(w);
    if n > 0 {
      SemicolonBehind(w, m, n);
    }
    if m > 0 {
      SemicolonBehind(w, n, m);
    }
  }

  lemma SemicolonBehind(w: seq<byte>, m: nat, n: nat)
    requires m <= |w| && 0 < n <= |w| && w[n - 1] == SEMICOLON
    ensures m < n ==> SEMICOLON in w[m..]
  {
    if m < n {
      StillIn(w, m, n - 1);
    }
  }

  lemma StillIn(w: seq<byte>, m: nat, i: nat)
    requires m <= i < |w|
    ensures w[i] in w[m..]
  {
    assert w[m..][i - m] == w[i];
  }

  /** For ASCII behind the handshake, the messages are the frames of the rest of the stream exactly when
      nothing was left in the buffer, or no whole instruction follows at all. */
  lemma RelayAfterHandoverIff(chunks: seq<seq<byte>>)
    requires Pieces(chunks) && SEMICOLON in Flatten(chunks)
    requires var (buffered, unread) := AfterFrame(chunks); Utf8.AsciiBytes(buffered + Flatten(unread))
    ensures var (buffered, unread) := AfterFrame(chunks);
            && Pieces(unread)
            && (RelayFrom(unread, []) == Frames(buffered + Flatten(unread))
                <==> buffered == [] || SEMICOLON !in buffered + Flatten(unread))
  {
    var (buffered, unread) := AfterFrame(chunks);
    var later := Flatten(unread);
    HandoverBytes(chunks);
    AsciiParts(buffered, later);
    RelayIgnoresChunking(unread, unread);
    if buffered == [] {
      assert buffered + later == later;
    } else if SEMICOLON in buffered + later {
      LostFrames(buffered, later);
    }
  }

  lemma LostBytes(lost: seq<byte>, later: seq<byte>, f: seq<byte>)
    requires UpToLast(later, f) && SEMICOLON in later
    ensures |Flatten(Frames(lost + later))| == |lost| + |f|
  {
    assert f != [];
    DropTwo(lost, later, |f|);
    FrameBytesUnique(lost + later, |lost| + |f|);
  }

  lemma LostFrames(lost: seq<byte>, later: seq<byte>)
    requires lost != [] && SEMICOLON in lost + later
    ensures Frames(later) != Frames(lost + later)
  {
    if SEMICOLON in later {
      FrameBytesEnd(later);
      LostBytes(lost, later, Flatten(Frames(later)));
    }
  }
}
