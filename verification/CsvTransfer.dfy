/** The whole way of a table: exported, sent as blob instructions, received, parsed. */
module CsvTransfer {
  import opened Prelude
  import opened CsvText
  import opened CsvExport
  import CsvImport
  import Instructions
  import Utf8

  /** The bytes that a sequence of blob instructions carries for one stream. */
  function ReceivedBytes(stream: int32, messages: seq<seq<byte>>): Option<seq<byte>> {
    if messages == [] then Some([])
    else
      match (Instructions.ParseBlob(messages[0]), ReceivedBytes(stream, messages[1..]))
      case (Some((s, bytes)), Some(rest)) => if s == stream then Some(bytes + rest) else None
      case _ => None
  }

  lemma InstructionsTail(stream: int32, blobs: seq<seq<byte>>)
    ensures blobs != [] ==> BlobInstructions(stream, blobs)[0] == Utf8.Encode(Instructions.BlobText(stream, blobs[0]))
    ensures blobs != [] ==> BlobInstructions(stream, blobs)[1..] == BlobInstructions(stream, blobs[1..])
  {
  }

  lemma {:induction false} BlobsArrive(stream: int32, blobs: seq<seq<byte>>)
    ensures ReceivedBytes(stream, BlobInstructions(stream, blobs)) == Some(Flatten(blobs))
  {
    var messages := BlobInstructions(stream, blobs);
    if blobs != [] {
      Instructions.BlobRoundTrip(stream, blobs[0]);
      InstructionsTail(stream, blobs);
      BlobsArrive(stream, blobs[1..]);
      assert ReceivedBytes(stream, messages) == Some(blobs[0] + Flatten(blobs[1..]));
    }
  }

  /** The result of an import from the blobs that an export sends for a table. */
  function Transferred(stream: int32, t: Table): Result<Table> {
    match ReceivedBytes(stream, BlobInstructions(stream, Blobs([], [t.headers] + t.rows)))
    case None => Err("not a blob")
    case Some(bytes) => CsvImport.ReadTable(bytes)
  }

  /** What arrives is the table's text, whatever the table and wherever the blobs were cut. */
  lemma TextArrives(stream: int32, t: Table)
    ensures Transferred(stream, t) == ParseCsv(TableText(t))
  {
    var rows := [t.headers] + t.rows;
    BlobsArrive(stream, Blobs([], rows));
    BlobsCarryRows([], rows);
    assert [] + RowsBytes(rows) == RowsBytes(rows);
    Utf8.DecodeEncode(TableText(t));
  }

  /** A table comes out as it went in exactly when it is transferable. */
  lemma TransferIff(stream: int32, t: Table)
    ensures Transferred(stream, t) == Ok(t) <==> Transferable(t)
  {
    TextArrives(stream, t);
    RoundTripIff(t);
  }

  /** An export that stopped early left the client a whole number of rows, and the rest in the buffer. */
  lemma StoppedExportArrives(rows: seq<seq<string>>, stream: int32, buffer: seq<byte>, sent: seq<seq<byte>>)
    requires Stopped([], rows, stream, buffer, sent)
    ensures exists k :: 0 <= k <= |rows| && ReceivedBytes(stream, sent) == Some(RowsBytes(rows[..k]))
  {
    var n: nat, k: nat :| StoppedAt([], rows, stream, buffer, sent, n, k);
    var blobs := Blobs([], rows)[..n];
    BlobsArrive(stream, blobs);
    var j := SentRows(rows, n);
    assert ReceivedBytes(stream, sent) == Some(RowsBytes(rows[..j]));
  }

  /** Blobs are cut at row ends, so any number of them holds whole rows. */
  lemma SentRows(rows: seq<seq<string>>, n: nat) returns (k: nat)
    requires n <= |Blobs([], rows)|
    ensures k <= |rows| && Flatten(Blobs([], rows)[..n]) == RowsBytes(rows[..k])
  {
    var blobs, p := Blobs([], rows), WriteRows([], rows);
    BlobSizes([], rows);
    if n == 0 {
      k := 0;
      assert blobs[..n] == [] && rows[..k] == [];
    } else if n <= |p.blobs| {
      k := FlushedRows(rows, n);
      assert blobs[..n] == p.blobs[..n];
    } else {
      k := |rows|;
      BlobsCarryRows([], rows);
      assert blobs[..n] == blobs && rows[..k] == rows;
      assert [] + RowsBytes(rows) == RowsBytes(rows);
    }
  }

  lemma FlushedRows(rows: seq<seq<string>>, n: nat) returns (k: nat)
    requires 0 < n <= |WriteRows([], rows).blobs|
    ensures k <= |rows| && Flatten(WriteRows([], rows).blobs[..n]) == RowsBytes(rows[..k])
  {
    var blobs := WriteRows([], rows).blobs;
    BlobSizes([], rows);
    assert EndsWithSomeRow([], rows, blobs, n - 1);
    var j: nat :| EndsWithRow([], rows, blobs, n - 1, j);
    k := j + 1;
    assert [] + RowsBytes(rows[..k]) == RowsBytes(rows[..k]);
  }

  /** An `end` is no blob: a stopped export never looks finished. */
  lemma EndIsNoBlob(stream: int32)
    ensures Instructions.ParseBlob(Utf8.Encode(Instructions.EndText(stream))) == None
  {
    var s := Instructions.EndText(stream);
    Utf8.DecodeEncode(s);
    assert s[0] == '3';
  }
}
