/** Streaming a query result to the client as CSV, in base64 blobs. */
module CsvExport {
  import opened Prelude
  import opened CsvText
  import opened Environment
  import Base64
  import Instructions
  import Utf8

  const MAX_BLOB_SIZE: nat := 6144

  datatype Outcome = Done | Cancelled | SendFailed

  // ------------------------------------------------------------------ the stream of blobs

  function RowBytes(fields: seq<string>): seq<byte> {
    Utf8.Encode(RowText(fields))
  }

  function RowsBytes(rows: seq<seq<string>>): seq<byte> {
    Utf8.Encode(RowsText(rows))
  }

  /** How far an export got: the blobs flushed, and what still waits in the buffer. */
  datatype Progress = Progress(blobs: seq<seq<byte>>, pending: seq<byte>)

  /** A row goes to the buffer; a buffer that has reached the threshold is flushed as a whole. */
  function WriteRow(p: Progress, row: seq<string>): Progress {
    var b := p.pending + RowBytes(row);
    if |b| >= MAX_BLOB_SIZE then Progress(p.blobs + [b], []) else Progress(p.blobs, b)
  }

  function WriteRows(buffer: seq<byte>, rows: seq<seq<string>>): Progress {
    if rows == [] then Progress([], buffer)
    else WriteRow(WriteRows(buffer, rows[..|rows| - 1]), rows[|rows| - 1])
  }

  /** All blobs of an export, the last one from the final flush. */
  function Blobs(buffer: seq<byte>, rows: seq<seq<string>>): seq<seq<byte>> {
    var p := WriteRows(buffer, rows);
    if p.pending == [] then p.blobs else p.blobs + [p.pending]
  }

  function BlobInstructions(stream: int32, blobs: seq<seq<byte>>): (r: seq<seq<byte>>)
    ensures |r| == |blobs|
  {
    seq(|blobs|, i requires 0 <= i < |blobs| => Utf8.Encode(Instructions.BlobText(stream, blobs[i])))
  }

  lemma RowsBytesSnoc(rows: seq<seq<string>>, n: nat)
    requires n < |rows|
    ensures RowsBytes(rows[..n + 1]) == RowsBytes(rows[..n]) + RowBytes(rows[n])
  {
    assert rows[..n + 1] == rows[..n] + [rows[n]];
    RowsTextSnoc(rows[..n], rows[n]);
    Utf8.EncodeAppend(RowsText(rows[..n]), RowText(rows[n]));
  }

  lemma WriteRowsStep(buffer: seq<byte>, rows: seq<seq<string>>, n: nat)
    requires n < |rows|
    ensures WriteRows(buffer, rows[..n + 1]) == WriteRow(WriteRows(buffer, rows[..n]), rows[n])
  {
    assert rows[..n + 1][..n] == rows[..n];
  }

  /** Nothing is lost or added: blobs and buffer together are what was there and the rows written. */
  lemma {:induction false} Conservation(buffer: seq<byte>, rows: seq<seq<string>>)
    ensures var p := WriteRows(buffer, rows);
            Flatten(p.blobs) + p.pending == buffer + RowsBytes(rows)
  {
    if rows != [] {
      var n := |rows| - 1;
      var q, row := WriteRows(buffer, rows[..n]), RowBytes(rows[n]);
      Conservation(buffer, rows[..n]);
      RowsBytesSnoc(rows, n);
      assert rows[..n + 1] == rows;
      FlattenSnoc(q.blobs, q.pending + row);
      AppendAssoc(Flatten(q.blobs), q.pending, row);
      AppendAssoc(buffer, RowsBytes(rows[..n]), row);
    }
  }

  /** Blob `i` ends with row `k`, and would have been below the threshold without it. */
  ghost predicate EndsWithRow(buffer: seq<byte>, rows: seq<seq<string>>, blobs: seq<seq<byte>>, i: nat, k: nat)
  {
    && i < |blobs| && k < |rows|
    && Flatten(blobs[..i + 1]) == buffer + RowsBytes(rows[..k + 1])
    && MAX_BLOB_SIZE <= |blobs[i]| < MAX_BLOB_SIZE + |RowBytes(rows[k])|
  }

  ghost predicate EndsWithSomeRow(buffer: seq<byte>, rows: seq<seq<string>>, blobs: seq<seq<byte>>, i: nat)
  {
    exists k :: EndsWithRow(buffer, rows, blobs, i, k)
  }

  /** Every blob but that of the final flush has at least the threshold size, exceeds it by less than
      its last row, and ends at the end of a row; what still waits is below the threshold. */
  lemma {:induction false} BlobSizes(buffer: seq<byte>, rows: seq<seq<string>>)
    requires |buffer| < MAX_BLOB_SIZE
    ensures var p := WriteRows(buffer, rows);
            && |p.pending| < MAX_BLOB_SIZE
            && forall i :: 0 <= i < |p.blobs| ==> EndsWithSomeRow(buffer, rows, p.blobs, i)
  {
    if rows != [] {
      var n := |rows| - 1;
      var init := rows[..n];
      var q, p := WriteRows(buffer, init), WriteRows(buffer, rows);
      BlobSizes(buffer, init);
      Conservation(buffer, rows);
      forall i | 0 <= i < |p.blobs|
        ensures EndsWithSomeRow(buffer, rows, p.blobs, i)
      {
        if i < |q.blobs| {
          assert EndsWithSomeRow(buffer, init, q.blobs, i);
          var k :| EndsWithRow(buffer, init, q.blobs, i, k);
          assert p.blobs[..i + 1] == q.blobs[..i + 1] && rows[..k + 1] == init[..k + 1];
          assert EndsWithRow(buffer, rows, p.blobs, i, k);
        } else {
          assert p.blobs[..i + 1] == p.blobs && rows[..n + 1] == rows;
          assert p.pending == [] && Flatten(p.blobs) + [] == Flatten(p.blobs);
          assert EndsWithRow(buffer, rows, p.blobs, i, n);
        }
      }
    }
  }

  // ------------------------------------------------------------------ when blobs stay within the limit

  function RowSizes(rows: seq<seq<string>>): (sizes: seq<nat>)
    ensures |sizes| == |rows|
  {
    seq(|rows|, i requires 0 <= i < |rows| => |RowBytes(rows[i])|)
  }

  /** How many bytes wait in the buffer after rows of these sizes, with `start` bytes there before. */
  function Waiting(start: nat, sizes: seq<nat>): nat {
    if sizes == [] then start
    else
      var filled := Waiting(start, sizes[..|sizes| - 1]) + sizes[|sizes| - 1];
      if filled >= MAX_BLOB_SIZE then 0 else filled
  }

  /** No row takes the buffer beyond the blob size. */
  predicate SizesFit(start: nat, sizes: seq<nat>) {
    forall k :: 0 <= k < |sizes| ==> Waiting(start, sizes[..k]) + sizes[k] <= MAX_BLOB_SIZE
  }

  predicate AllWithin(blobs: seq<seq<byte>>) {
    forall i :: 0 <= i < |blobs| ==> |blobs[i]| <= MAX_BLOB_SIZE
  }

  lemma SizesFitSnoc(start: nat, sizes: seq<nat>)
    requires sizes != []
    ensures var n := |sizes| - 1;
            SizesFit(start, sizes) <==>
              SizesFit(start, sizes[..n]) && Waiting(start, sizes[..n]) + sizes[n] <= MAX_BLOB_SIZE
  {
    var n := |sizes| - 1;
    assert forall k :: 0 <= k <= n ==> sizes[..n][..k] == sizes[..k];
  }

  lemma AllWithinSnoc(blobs: seq<seq<byte>>, b: seq<byte>)
    ensures AllWithin(blobs + [b]) <==> AllWithin(blobs) && |b| <= MAX_BLOB_SIZE
  {
    var all := blobs + [b];
    assert all[|blobs|] == b;
    assert forall i :: 0 <= i < |blobs| ==> all[i] == blobs[i];
  }

  lemma {:induction false} FlushedWithinIff(buffer: seq<byte>, rows: seq<seq<string>>)
    ensures |WriteRows(buffer, rows).pending| == Waiting(|buffer|, RowSizes(rows))
    ensures AllWithin(WriteRows(buffer, rows).blobs) <==> SizesFit(|buffer|, RowSizes(rows))
  {
    if rows != [] {
      var n := |rows| - 1;
      var sizes, q := RowSizes(rows), WriteRows(buffer, rows[..n]);
      assert sizes[..n] == RowSizes(rows[..n]);
      FlushedWithinIff(buffer, rows[..n]);
      SizesFitSnoc(|buffer|, sizes);
      AllWithinSnoc(q.blobs, q.pending + RowBytes(rows[n]));
    }
  }

  /** The blobs of an export, the last one included, stay within 6144 bytes exactly when no row takes
      the buffer beyond it: a condition on the sizes of the rows alone. */
  lemma BlobsWithinIff(buffer: seq<byte>, rows: seq<seq<string>>)
    requires rows != []
    ensures AllWithin(Blobs(buffer, rows)) <==> SizesFit(|buffer|, RowSizes(rows))
  {
    var p := WriteRows(buffer, rows);
    FlushedWithinIff(buffer, rows);
    assert Waiting(|buffer|, RowSizes(rows)) < MAX_BLOB_SIZE || RowSizes(rows) == [];
    AllWithinSnoc(p.blobs, p.pending);
  }

  function Letters(n: nat): (s: string)
    ensures |s| == n && forall i :: 0 <= i < n ==> s[i] == 'a'
  {
    seq(n, i => 'a')
  }

  /** A table whose one field has n letters leaves as one blob of n + 2 bytes, however large n is. */
  lemma OneLongField(n: nat)
    ensures var blobs := Blobs([], [[Letters(n)]]); |blobs| == 1 && |blobs[0]| == n + 2
  {
    var f, rows := Letters(n), [[Letters(n)]];
    assert !NeedsQuoting(f) && RowText([f]) == f + "\r\n";
    Utf8.EncodeAscii(f + "\r\n");
    assert rows[..0] == [] && WriteRows([], rows[..0]) == Progress([], []);
    assert [] + RowBytes([f]) == RowBytes([f]);
    assert WriteRows([], rows) == WriteRow(Progress([], []), [f]);
  }

  /** So 6143 letters make a blob above the size that is called the maximum. */
  lemma BlobAboveLimit()
    ensures !AllWithin(Blobs([], [[Letters(6143)]])) && !SizesFit(0, RowSizes([[Letters(6143)]]))
  {
    var blobs := Blobs([], [[Letters(6143)]]);
    OneLongField(6143);
    assert |blobs[0]| == 6145;
    BlobsWithinIff([], [[Letters(6143)]]);
  }

  /** The blobs of a whole export carry the whole table. */
  lemma BlobsCarryRows(buffer: seq<byte>, rows: seq<seq<string>>)
    ensures Flatten(Blobs(buffer, rows)) == buffer + RowsBytes(rows)
  {
    Conservation(buffer, rows);
    var p := WriteRows(buffer, rows);
    FlattenSnoc(p.blobs, p.pending);
  }

  // ------------------------------------------------------------------ quoting on bytes

  /** The bytes with every quote byte doubled. */
  function DoubleQuoteBytes(b: seq<byte>): seq<byte> {
    if b == [] then []
    else (if b[0] == '"' as int then [b[0], b[0]] else [b[0]]) + DoubleQuoteBytes(b[1..])
  }

  lemma {:induction false} DoubleNoQuotes(e: seq<byte>, rest: seq<byte>)
    requires forall i :: 0 <= i < |e| ==> e[i] != '"' as int
    ensures DoubleQuoteBytes(e + rest) == e + DoubleQuoteBytes(rest)
  {
    if e == [] {
      assert e + rest == rest;
    } else {
      assert (e + rest)[1..] == e[1..] + rest;
      DoubleNoQuotes(e[1..], rest);
    }
  }

  lemma QuoteBytesOfChar(c: char)
    ensures c != '"' ==> forall i :: 0 <= i < |Utf8.EncodeChar(c)| ==> Utf8.EncodeChar(c)[i] != '"' as int
  {
  }

  /** Doubling the quote bytes of a text doubles its quotes: no other character holds that byte. */
  lemma {:induction false} DoublingIsBytewise(f: string)
    ensures DoubleQuoteBytes(Utf8.Encode(f)) == Utf8.Encode(DoubleQuotes(f))
  {
    if f != "" {
      var rest := Utf8.Encode(f[1..]);
      DoublingIsBytewise(f[1..]);
      if f[0] == '"' {
        assert Utf8.Encode(f) == [34] + rest && Utf8.Encode(f)[1..] == rest;
        assert Utf8.Encode("\"\"") == [34, 34] by {
          assert "\"\""[1..] == "\"" && "\""[1..] == "";
        }
        Utf8.EncodeAppend("\"\"", DoubleQuotes(f[1..]));
      } else {
        QuoteBytesOfChar(f[0]);
        DoubleNoQuotes(Utf8.EncodeChar(f[0]), rest);
        assert ([f[0]] + DoubleQuotes(f[1..]))[1..] == DoubleQuotes(f[1..]);
      }
    }
  }

  lemma EncodeQuoted(f: string)
    ensures Utf8.Encode("\"" + f + "\"") == [34] + Utf8.Encode(f) + [34]
  {
    Utf8.EncodeAscii("\"");
    assert Utf8.Encode("\"") == [34];
    Utf8.EncodeAppend("\"" + f, "\"");
    Utf8.EncodeAppend("\"", f);
  }

  // ------------------------------------------------------------------ the exporter

  /** After `k` rows: what is buffered and sent, and how many checks and sends that took. */
  ghost predicate Reached(start: seq<byte>, rows: seq<seq<string>>, stream: int32, k: nat, buffer: seq<byte>,
                          sent: seq<seq<byte>>, checks: int, sends: int)
  {
    && k <= |rows|
    && var p := WriteRows(start, rows[..k]);
    && buffer == p.pending
    && sent == BlobInstructions(stream, p.blobs)
    && checks == k + |p.blobs|
    && sends == |p.blobs|
  }

  /** Only the first `n` blobs were sent; they and the buffer are the first `k` rows. */
  ghost predicate StoppedAt(start: seq<byte>, rows: seq<seq<string>>, stream: int32, buffer: seq<byte>,
                            sent: seq<seq<byte>>, n: nat, k: nat)
  {
    && n <= |Blobs(start, rows)| && k <= |rows|
    && sent == BlobInstructions(stream, Blobs(start, rows)[..n])
    && Flatten(Blobs(start, rows)[..n]) + buffer == start + RowsBytes(rows[..k])
  }

  ghost predicate Stopped(start: seq<byte>, rows: seq<seq<string>>, stream: int32, buffer: seq<byte>,
                          sent: seq<seq<byte>>)
  {
    exists n, k :: StoppedAt(start, rows, stream, buffer, sent, n, k)
  }

  lemma InstructionsSnoc(stream: int32, blobs: seq<seq<byte>>, b: seq<byte>)
    ensures BlobInstructions(stream, blobs + [b])
            == BlobInstructions(stream, blobs) + [Utf8.Encode(Instructions.BlobText(stream, b))]
  {
  }

  /** Blobs once sent stay as they are. */
  lemma {:induction false} BlobsGrow(buffer: seq<byte>, rows: seq<seq<string>>, k: nat)
    requires k <= |rows|
    ensures WriteRows(buffer, rows[..k]).blobs <= WriteRows(buffer, rows).blobs
  {
    if k < |rows| {
      BlobsGrow(buffer, rows[..|rows| - 1], k);
      assert rows[..|rows| - 1][..k] == rows[..k];
    } else {
      assert rows[..k] == rows;
    }
  }

  lemma StopBetweenRows(start: seq<byte>, rows: seq<seq<string>>, stream: int32, k: nat, buffer: seq<byte>,
                        sent: seq<seq<byte>>, checks: int, sends: int)
    requires Reached(start, rows, stream, k, buffer, sent, checks, sends)
    ensures sends <= |Blobs(start, rows)|
    ensures Stopped(start, rows, stream, buffer, sent)
  {
    var p := WriteRows(start, rows[..k]);
    BlobsGrow(start, rows, k);
    Conservation(start, rows[..k]);
    assert Blobs(start, rows)[..|p.blobs|] == p.blobs;
    assert StoppedAt(start, rows, stream, buffer, sent, |p.blobs|, k);
  }

  lemma KeepRow(start: seq<byte>, rows: seq<seq<string>>, stream: int32, k: nat, buffer: seq<byte>,
                sent: seq<seq<byte>>, checks: int, sends: int)
    requires k < |rows| && Reached(start, rows, stream, k, buffer, sent, checks, sends)
    requires |buffer + RowBytes(rows[k])| < MAX_BLOB_SIZE
    ensures Reached(start, rows, stream, k + 1, buffer + RowBytes(rows[k]), sent, checks + 1, sends)
  {
    WriteRowsStep(start, rows, k);
  }

  /** A full buffer is the next blob; until it is sent, it ends with the row just written. */
  lemma FlushRow(start: seq<byte>, rows: seq<seq<string>>, stream: int32, k: nat, buffer: seq<byte>,
                 sent: seq<seq<byte>>, checks: int, sends: int)
    requires k < |rows| && Reached(start, rows, stream, k, buffer, sent, checks, sends)
    requires |buffer + RowBytes(rows[k])| >= MAX_BLOB_SIZE
    ensures var full := buffer + RowBytes(rows[k]);
            Reached(start, rows, stream, k + 1, [], sent + [Utf8.Encode(Instructions.BlobText(stream, full))],
                    checks + 2, sends + 1)
    ensures sends + 1 <= |Blobs(start, rows)|
    ensures Stopped(start, rows, stream, buffer + RowBytes(rows[k]), sent)
  {
    var p, full := WriteRows(start, rows[..k]), buffer + RowBytes(rows[k]);
    var blobs := Blobs(start, rows);
    WriteRowsStep(start, rows, k);
    InstructionsSnoc(stream, p.blobs, full);
    BlobsGrow(start, rows, k + 1);
    assert blobs[..|p.blobs|] == p.blobs;
    Conservation(start, rows[..k]);
    RowsBytesSnoc(rows, k);
    AppendAssoc(Flatten(p.blobs), p.pending, RowBytes(rows[k]));
    AppendAssoc(start, RowsBytes(rows[..k]), RowBytes(rows[k]));
    assert StoppedAt(start, rows, stream, full, sent, |p.blobs|, k + 1);
  }

  /** After the last row only the final flush is missing. */
  lemma FinalFlush(start: seq<byte>, rows: seq<seq<string>>, stream: int32, buffer: seq<byte>,
                   sent: seq<seq<byte>>, checks: int, sends: int)
    requires Reached(start, rows, stream, |rows|, buffer, sent, checks, sends)
    ensures var blobs := Blobs(start, rows);
            && Stopped(start, rows, stream, [], BlobInstructions(stream, blobs))
            && checks == |rows| + sends
            && if buffer == [] then |blobs| == sends && BlobInstructions(stream, blobs) == sent
               else |blobs| == sends + 1
                    && BlobInstructions(stream, blobs) == sent + [Utf8.Encode(Instructions.BlobText(stream, buffer))]
  {
    var blobs := Blobs(start, rows);
    var p := WriteRows(start, rows);
    assert rows[..|rows|] == rows && blobs[..|blobs|] == blobs;
    InstructionsSnoc(stream, p.blobs, p.pending);
    BlobsCarryRows(start, rows);
    assert Flatten(blobs) + [] == Flatten(blobs);
    assert StoppedAt(start, rows, stream, [], BlobInstructions(stream, blobs), |blobs|, |rows|);
  }

  class CsvExporter {
    const stream: int32
    var buffer: seq<byte>
    const cancelled: CancelFlag

    constructor (stream: int32, cancelled: CancelFlag)
      ensures this.stream == stream && this.cancelled == cancelled && buffer == []
    {
      this.stream, this.cancelled, buffer := stream, cancelled, [];
    }

    method WriteCsvField(field: string)
      modifies this`buffer
      ensures buffer == old(buffer) + Utf8.Encode(FieldText(field))
    {
      if NeedsQuoting(field) {
        buffer := buffer + ['"' as int];
        WriteEscaped(Utf8.Encode(field));
        DoublingIsBytewise(field);
        EncodeQuoted(DoubleQuotes(field));
        buffer := buffer + ['"' as int];
        assert buffer == old(buffer) + ([34] + Utf8.Encode(DoubleQuotes(field)) + [34]);
      } else {
        buffer := buffer + Utf8.Encode(field);
      }
    }

    /** The byte loop of `WriteCsvField`. */
    method WriteEscaped(bytes: seq<byte>)
      modifies this`buffer
      ensures buffer == old(buffer) + DoubleQuoteBytes(bytes)
    {
      var i := 0;
      while i < |bytes|
        invariant 0 <= i <= |bytes|
        invariant buffer + DoubleQuoteBytes(bytes[i..]) == old(buffer) + DoubleQuoteBytes(bytes)
      {
        ghost var before := buffer;
        if bytes[i] == '"' as int {
          buffer := buffer + ['"' as int];
        }
        buffer := buffer + [bytes[i]];
        assert bytes[i..][1..] == bytes[i + 1..];
        AppendAssoc(before, if bytes[i] == 34 then [34, 34] else [bytes[i]], DoubleQuoteBytes(bytes[i + 1..]));
        i := i + 1;
      }
      assert bytes[i..] == [] && buffer + [] == buffer;
    }

    method WriteCsvRow(fields: seq<string>)
      modifies this`buffer
      ensures buffer == old(buffer) + RowBytes(fields)
    {
      ghost var start := buffer;
      var i := 0;
      while i < |fields|
        invariant 0 <= i <= |fields|
        invariant buffer + RowTail(fields, i) == start + RowTail(fields, 0)
      {
        ghost var before := buffer;
        WriteCsvField(fields[i]);
        if i < |fields| - 1 {
          buffer := buffer + [',' as int];
        }
        RowTailStep(before, buffer, fields, i);
        i := i + 1;
      }
      assert buffer + [] == buffer && fields[0..] == fields;
      RowEnding(fields);
      AppendAssoc(start, RowTail(fields, 0), [13, 10]);
      buffer := buffer + ['\r' as int, '\n' as int];
    }

    method MaybeFlush(toClient: Channel) returns (r: Outcome)
      modifies this`buffer, cancelled, toClient
      ensures old(|buffer|) < MAX_BLOB_SIZE ==>
                (r == Done && buffer == old(buffer) && unchanged(toClient) && unchanged(cancelled))
      ensures old(|buffer|) >= MAX_BLOB_SIZE ==> Flushed(r, old(buffer), buffer, old(toClient.sent), toClient.sent,
                                                         old(toClient.room), toClient.room,
                                                         old(cancelled.checks), cancelled.checks)
      ensures r == Cancelled ==> cancelled.checks == 0
      ensures r == SendFailed ==> toClient.room == 0
    {
      r := Done;
      if |buffer| >= MAX_BLOB_SIZE {
        r := Flush(toClient);
      }
    }

    /** The effect of flushing a buffer that is not empty. */
    ghost predicate Flushed(r: Outcome, buffer0: seq<byte>, buffer1: seq<byte>,
                            sent0: seq<seq<byte>>, sent1: seq<seq<byte>>,
                            room0: nat, room1: nat, checks0: nat, checks1: nat)
    {
      && (r == Done <==> checks0 > 0 && room0 > 0)
      && (r == Cancelled <==> checks0 == 0)
      && checks1 == Max(checks0 - 1, 0)
      && room1 == (if r == Done then room0 - 1 else room0)
      && buffer1 == (if r == Done then [] else buffer0)
      && sent1 == (if r == Done then sent0 + [Utf8.Encode(Instructions.BlobText(stream, buffer0))] else sent0)
    }

    method Flush(toClient: Channel) returns (r: Outcome)
      modifies this`buffer, cancelled, toClient
      ensures old(buffer) == [] ==>
                (r == Done && buffer == [] && unchanged(toClient) && unchanged(cancelled))
      ensures old(buffer) != [] ==> Flushed(r, old(buffer), buffer, old(toClient.sent), toClient.sent,
                                            old(toClient.room), toClient.room,
                                            old(cancelled.checks), cancelled.checks)
      ensures r == Cancelled ==> cancelled.checks == 0
      ensures r == SendFailed ==> toClient.room == 0
    {
      if buffer == [] {
        return Done;
      }
      var stop := cancelled.IsCancelled();
      if stop {
        return Cancelled;
      }
      var data := Base64.Encode(buffer);
      var ok := toClient.Send(Utf8.Encode(Instructions.PayloadText(stream, data)));
      if !ok {
        return SendFailed;
      }
      buffer := [];
      return Done;
    }

    method SendEnd(toClient: Channel) returns (r: Outcome)
      modifies toClient
      ensures r == (if old(toClient.room) > 0 then Done else SendFailed)
      ensures toClient.sent == if r == Done then old(toClient.sent) + [Utf8.Encode(Instructions.EndText(stream))]
                               else old(toClient.sent)
      ensures toClient.room == Max(old(toClient.room) - 1, 0)
    {
      var ok := toClient.Send(Utf8.Encode(Instructions.EndText(stream)));
      return if ok then Done else SendFailed;
    }

    /** One row of an export: written, then flushed once the buffer is full. */
    method PutRow(fields: seq<string>, toClient: Channel) returns (r: Outcome)
      modifies this`buffer, cancelled, toClient
      ensures var full := old(buffer) + RowBytes(fields);
              if |full| < MAX_BLOB_SIZE then
                r == Done && buffer == full && unchanged(toClient) && unchanged(cancelled)
              else
                Flushed(r, full, buffer, old(toClient.sent), toClient.sent, old(toClient.room), toClient.room,
                        old(cancelled.checks), cancelled.checks)
      ensures r == Cancelled ==> cancelled.checks == 0
      ensures r == SendFailed ==> toClient.room == 0
    {
      WriteCsvRow(fields);
      r := MaybeFlush(toClient);
    }

    /** On success all blobs and then one `end` were sent; otherwise whole rows only, and no `end`.
        It succeeds exactly when every check of the flag answers false and every message is taken. */
    method ExportQueryResult(result: Table, toClient: Channel)
      returns (r: Outcome, ghost sent: seq<seq<byte>>)
      modifies this`buffer, cancelled, toClient
      ensures toClient.sent == old(toClient.sent) + sent
      ensures var rows := [result.headers] + result.rows;
              var blobs := Blobs(old(buffer), rows);
              && (r == Done <==> old(cancelled.checks) >= |rows| + |blobs| && old(toClient.room) >= |blobs| + 1)
              && (r == Done ==>
                    sent == BlobInstructions(stream, blobs) + [Utf8.Encode(Instructions.EndText(stream))]
                    && buffer == [])
              && (r != Done ==> Stopped(old(buffer), rows, stream, buffer, sent))
      ensures r == Cancelled ==> cancelled.checks == 0
      ensures r == SendFailed ==> toClient.room == 0
    {
      ghost var start, sent0, checks0, room0 := buffer, toClient.sent, cancelled.checks, toClient.room;
      ghost var rows := [result.headers] + result.rows;
      sent := [];
      assert rows[..0] == [];
      assert Reached(start, rows, stream, 0, start, [], 0, 0);
      StopBetweenRows(start, rows, stream, 0, buffer, sent, 0, 0);
      var stop := cancelled.IsCancelled();
      if stop {
        return Cancelled, sent;
      }
      r, sent := ExportRow(result.headers, toClient, start, rows, 0, sent0, sent, checks0, room0);
      if r != Done {
        return;
      }

      r, sent := ExportRows(result.rows, toClient, start, rows, sent0, sent, checks0, room0);
      if r != Done {
        return;
      }
      r, sent := Finish(toClient, start, rows, sent0, sent, checks0, room0);
    }

    /** The data rows, each after one more check of the flag. */
    method ExportRows(data: seq<seq<string>>, toClient: Channel, ghost start: seq<byte>,
                      ghost rows: seq<seq<string>>, ghost sent0: seq<seq<byte>>,
                      ghost sent: seq<seq<byte>>, ghost checks0: nat, ghost room0: nat)
      returns (r: Outcome, ghost sent': seq<seq<byte>>)
      requires rows != [] && rows[1..] == data && toClient.sent == sent0 + sent
      requires Reached(start, rows, stream, 1, buffer, sent, checks0 - cancelled.checks, room0 - toClient.room)
      modifies this`buffer, cancelled, toClient
      ensures toClient.sent == sent0 + sent'
      ensures r == Done ==>
                Reached(start, rows, stream, |rows|, buffer, sent', checks0 - cancelled.checks, room0 - toClient.room)
      ensures r != Done ==>
                Stopped(start, rows, stream, buffer, sent')
                && (checks0 < |rows| + |Blobs(start, rows)| || room0 < |Blobs(start, rows)| + 1)
      ensures r == Cancelled ==> cancelled.checks == 0
      ensures r == SendFailed ==> toClient.room == 0
    {
      sent' := sent;
      var i := 0;
      while i < |data|
        invariant 0 <= i <= |data|
        invariant toClient.sent == sent0 + sent'
        invariant Reached(start, rows, stream, i + 1, buffer, sent', checks0 - cancelled.checks, room0 - toClient.room)
      {
        StopBetweenRows(start, rows, stream, i + 1, buffer, sent', checks0 - cancelled.checks, room0 - toClient.room);
        var stop := cancelled.IsCancelled();
        if stop {
          return Cancelled, sent';
        }
        assert data[i] == rows[i + 1];
        r, sent' := ExportRow(data[i], toClient, start, rows, i + 1, sent0, sent', checks0, room0);
        if r != Done {
          return;
        }
        i := i + 1;
      }
      r := Done;
    }

    /** Row `k` of an export, once its check has passed. */
    method ExportRow(fields: seq<string>, toClient: Channel, ghost start: seq<byte>,
                     ghost rows: seq<seq<string>>, ghost k: nat, ghost sent0: seq<seq<byte>>,
                     ghost sent: seq<seq<byte>>, ghost checks0: nat, ghost room0: nat)
      returns (r: Outcome, ghost sent': seq<seq<byte>>)
      requires k < |rows| && fields == rows[k] && toClient.sent == sent0 + sent
      requires Reached(start, rows, stream, k, buffer, sent, checks0 - cancelled.checks - 1, room0 - toClient.room)
      modifies this`buffer, cancelled, toClient
      ensures toClient.sent == sent0 + sent'
      ensures r == Done ==>
                Reached(start, rows, stream, k + 1, buffer, sent', checks0 - cancelled.checks, room0 - toClient.room)
      ensures r != Done ==>
                Stopped(start, rows, stream, buffer, sent')
                && (checks0 < |rows| + |Blobs(start, rows)| || room0 < |Blobs(start, rows)| + 1)
      ensures r == Cancelled ==> cancelled.checks == 0
      ensures r == SendFailed ==> toClient.room == 0
    {
      ghost var before, checks, sends := buffer, checks0 - cancelled.checks - 1, room0 - toClient.room;
      sent' := sent;
      r := PutRow(fields, toClient);
      if |before + RowBytes(fields)| < MAX_BLOB_SIZE {
        KeepRow(start, rows, stream, k, before, sent, checks, sends);
      } else {
        FlushRow(start, rows, stream, k, before, sent, checks, sends);
        if r == Done {
          sent' := sent + [Utf8.Encode(Instructions.BlobText(stream, before + RowBytes(fields)))];
        }
      }
    }

    /** The final flush, which a buffer that is empty does not need. */
    method FlushRest(toClient: Channel, ghost start: seq<byte>, ghost rows: seq<seq<string>>,
                     ghost sent0: seq<seq<byte>>, ghost sent: seq<seq<byte>>, ghost checks0: nat, ghost room0: nat)
      returns (r: Outcome, ghost sent': seq<seq<byte>>)
      requires toClient.sent == sent0 + sent
      requires Reached(start, rows, stream, |rows|, buffer, sent, checks0 - cancelled.checks, room0 - toClient.room)
      modifies this`buffer, cancelled, toClient
      ensures toClient.sent == sent0 + sent'
      ensures Stopped(start, rows, stream, buffer, sent')
      ensures var blobs := Blobs(start, rows);
              && (r == Done <==> checks0 >= |rows| + |blobs| && room0 >= |blobs|)
              && (r == Done ==>
                    sent' == BlobInstructions(stream, blobs) && buffer == [] && toClient.room == room0 - |blobs|)
      ensures r == Cancelled ==> cancelled.checks == 0
      ensures r == SendFailed ==> toClient.room == 0
    {
      ghost var checks, sends := checks0 - cancelled.checks, room0 - toClient.room;
      StopBetweenRows(start, rows, stream, |rows|, buffer, sent, checks, sends);
      FinalFlush(start, rows, stream, buffer, sent, checks, sends);
      sent' := sent;
      r := Flush(toClient);
      if r == Done {
        sent' := BlobInstructions(stream, Blobs(start, rows));
      }
    }

    /** The final flush and the `end` instruction. */
    method Finish(toClient: Channel, ghost start: seq<byte>, ghost rows: seq<seq<string>>,
                  ghost sent0: seq<seq<byte>>, ghost sent: seq<seq<byte>>, ghost checks0: nat, ghost room0: nat)
      returns (r: Outcome, ghost sent': seq<seq<byte>>)
      requires toClient.sent == sent0 + sent
      requires Reached(start, rows, stream, |rows|, buffer, sent, checks0 - cancelled.checks, room0 - toClient.room)
      modifies this`buffer, cancelled, toClient
      ensures toClient.sent == sent0 + sent'
      ensures var blobs := Blobs(start, rows);
              && (r == Done <==> checks0 >= |rows| + |blobs| && room0 >= |blobs| + 1)
              && (r == Done ==>
                    sent' == BlobInstructions(stream, blobs) + [Utf8.Encode(Instructions.EndText(stream))]
                    && buffer == [])
              && (r != Done ==> Stopped(start, rows, stream, buffer, sent'))
      ensures r == Cancelled ==> cancelled.checks == 0
      ensures r == SendFailed ==> toClient.room == 0
    {
      r, sent' := FlushRest(toClient, start, rows, sent0, sent, checks0, room0);
      if r == Done {
        r := SendEnd(toClient);
        if r == Done {
          sent' := sent' + [Utf8.Encode(Instructions.EndText(stream))];
        }
      }
    }
  }

  /** The bytes of a row from field `i` on. */
  function RowTail(fields: seq<string>, i: nat): seq<byte>
    requires i <= |fields|
  {
    Utf8.Encode(RowBody(fields[i..]))
  }

  lemma RowTailStep(before: seq<byte>, after: seq<byte>, fields: seq<string>, i: nat)
    requires i < |fields|
    requires after == before + Utf8.Encode(FieldText(fields[i])) + (if i < |fields| - 1 then [44] else [])
    ensures before + RowTail(fields, i) == after + RowTail(fields, i + 1)
  {
    var rest := fields[i..];
    var field, tail := Utf8.Encode(FieldText(fields[i])), RowTail(fields, i + 1);
    assert rest[0] == fields[i] && rest[1..] == fields[i + 1..];
    if i < |fields| - 1 {
      CommaBytes();
      Utf8.EncodeAppend(FieldText(rest[0]) + ",", RowBody(rest[1..]));
      Utf8.EncodeAppend(FieldText(rest[0]), ",");
      AppendAssoc(before, field, [44]);
      AppendAssoc(before, field + [44], tail);
    } else {
      assert tail == [] && after + [] == before + field;
    }
  }

  lemma CommaBytes()
    ensures Utf8.Encode(",") == [44] && Utf8.Encode("\r\n") == [13, 10]
  {
    Utf8.EncodeAscii(",");
    Utf8.EncodeAscii("\r\n");
  }

  lemma RowEnding(fields: seq<string>)
    ensures RowBytes(fields) == RowTail(fields, 0) + [13, 10]
  {
    assert fields[0..] == fields;
    CommaBytes();
    Utf8.EncodeAppend(RowBody(fields), "\r\n");
  }
}
