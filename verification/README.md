# A verified model of the gateway's transfer, protocol and control code

This project models the hand-written state machines, codecs and parsers of the remote-access gateway
and proves what they do for every input, every run or every interleaving. Each module stands for one
component:

- `Base64`, `Utf8`, `Instructions`, `CsvText`, `CsvExport`, `CsvImport`, `SqlValues`, `CsvTransfer`:
  a query result is printed as CSV, cut into blobs, base64-encoded and framed; the upload side parses
  the frames, decodes them, reads the CSV and writes INSERT statements. The printing and the reading
  half share no code, and a table comes back unchanged exactly when it is `Transferable`.
- `Rfc4180`, `CountedInstructions`, `SqlNumerals`, `SqlHeads`: the same output as others read it, namely a
  spreadsheet, a client that counts, and a database. None of these readers knows the functions that print.
- `DragDetector`: a timed state machine over a pruned and capped queue, explained by its event trace.
- `QueryEditor`, `QueryHistory`: the line editor and the command history of the database console, and what its
  keysyms and its history mean in terms of the keys of a run.
- `Framing`, `AcceptLoop`: the two byte-stream readers of the server, and its accept loop with shutdown
  signal and connection counter.
- `StreamingParser`, `ContentParser`, `GuacamoleParser`, `PeekGrammar`: the encoder and the three parsers of
  protocol instructions, two that count characters and one that counts bytes, and the exact language of the first.
- `Handshake`, `Wire`: the gateway's side of the handshake, and what the server of this repository reads of
  it.
- `Quality`, `QualityExact`: the throughput window and the rate- and step-limited quality controller, and its
  values in numbers.
- `HostKey`, `HostAdmission`: the known_hosts index against a walk over the file, and the exact condition on
  configuration, file and key for letting a host in.
- `MappingRows`, `MultiChannel`: the flattening of a mapping tree, and round-robin distribution.
- `Environment`, `Prelude`, `Text`, `Decimal`: the cancellation flag and the channels, and the parts of
  the Rust library that the code calls.

Methods follow the loops and field updates of the source and are proved against functions; the lemmas
are about these functions. Input and output, clocks, the order of hash maps and calls into other
crates are parameters, so that what is proved holds for all of their answers.

## Where the code differs from what is said about it

The model follows the code. The lemmas named here state the difference.

- The header comment of the drag detector promises that tracking ends when no large update comes for
  500 ms (`drag_detector.rs:13`). No code does this: `DragDetector.TrackingEndsIff` says what ends tracking, and
  `DragDetector.TrackingOutlivesWindow` has runs in which it outlives any time.
- `verify` says that its port is used for non-standard ports (`host_key.rs:213`). Brackets and port are
  cut off stored names, so plain entries are found on every port (`HostKey.PortIsIgnored`,
  `HostKey.EntryServesEveryPort`); only hashed names see the port (`HostKey.HashedNamesSeeThePort`).
- Export files are named `….csv`, and the reader of a `file` instruction cuts a name at its first dot
  (`Instructions.ExportNameIsCut`).
- A spreadsheet gets every exported table back (`Rfc4180.RowsReadBack`), the import of this repository does not: it
  cuts lines before it looks at quotes, and trims (`CsvText.RoundTripIff`).
- The lengths in `file` and `ack` instructions count bytes, where the protocol counts characters. A parser of the
  protocol reads them as they were meant exactly when name and message are ASCII
  (`CountedInstructions.FileIsCountedIff`, `CountedInstructions.AckIsCountedIff`); ends, and blobs of up to a million
  characters, are always read (`CountedInstructions.BlobIsCounted`, `CountedInstructions.EndIsCounted`).
- Table and column names are put into the statements as they are. A database reads them back exactly when none holds
  the closing quote of its dialect (`SqlHeads.IdentifiersIff`).
- 6144 is called the maximum blob size (`csv_export.rs:36`). It is the threshold from which the whole
  buffer is flushed (`CsvExport.BlobSizes`). `CsvExport.BlobAboveLimit` has a larger blob, and
  `CsvExport.BlobsWithinIff` says for which row sizes there is none.
- For a new session the gateway sends `size`, `audio`, `video` and `image` before `connect`
  (`client.rs:391-441`); the server reads `connect` next and refuses anything else (`server.rs:217-226`). So no
  new session between the two sides of this repository gets past the handshake, whatever the configuration
  (`Wire.SizeIsRefused`, `Wire.SizeIsNotConnect`).
- The printers count characters in front of a value (`streaming.rs:641-651`), and the parser of the server takes
  the count for bytes and cuts at the first semicolon (`parser.rs:54-103`). An instruction arrives unchanged exactly
  when its values are ASCII without semicolons (`Wire.ArrivesUnchangedIff`); a single longer character makes the
  parser panic (`GuacamoleParser.LongCharacterPanics`).
- The gateway takes the first name of `args` for a version, and the server sends none. Even a server that skipped
  to `connect` would find its first parameter set to its own name (`Wire.NoVersionLosesFirst`);
  `Wire.NoVersionAgreesIff` says for which configurations it would find what was configured.
- A shutdown signal that is sent before the accept task first runs is lost
  (`AcceptLoop.EarlySignalIsLost`); `AcceptLoop.SignalBoundsIff` and `AcceptLoop.AtMostOneIff` say exactly when
  a signal bounds the connections accepted after it.
- A shutdown that drains may read a counter of zero with a connection still on its way
  (`AcceptLoop.ZeroReadTooEarly`); `AcceptLoop.DrainedIff` says exactly when zero is final.
- `stop_accepting` is documented to let existing connections finish (`server.rs:436`). Its signal is the one
  that connections also listen to, and it can interrupt every one that is running
  (`AcceptLoop.SignalInterruptsAll`). A connection that subscribes after the signal is interrupted as well, once the
  loop has stopped and the handle is gone, because then the channel is closed (`AcceptLoop.LateConnection`,
  `AcceptLoop.InterruptedIff`).
- The handshake's buffered reader is taken apart before the relay starts (`server.rs:546`), and the bytes in its
  buffer are dropped (`Framing.HandoverBytes`, `Framing.HandoverLosesNothingIff`).
- The line editor uses one number as byte offset and as character index. Outside ASCII a key can panic
  (`QueryEditor.PasteThenLeftPanics`); `QueryEditor.SafeIff` says exactly when none ever can, and
  `QueryEditor.BoundaryKeyIff` when a single key does what it should. At the end of a line Ctrl+W panics on every
  line that is not ASCII (`QueryEditor.KillAtEndIff`).
- A piece of the stream that is not UTF-8 by itself is refused by the handshake reader and silently
  dropped by the relay, even when the whole stream is UTF-8 (`Framing.SplitCharacterFails`,
  `Framing.RelayExact`). `Framing.EveryCuttingIff` and `Framing.EveryRelayIff` say for which streams this never
  happens.
- Below a maximum of 50 the quality target is neither monotone nor below the maximum
  (`Quality.MonotoneIff`, `Quality.TargetBoundedIff`).
- Infinities and NaN pass the numeric test of `escape_sql_value` and are written as bare words, which
  standard SQL does not read as literals (`SqlValues.StandardIff`).

## Model

| member | source | states |
|---|---|---|
| Base64.Encode | crates/guacr-database/src/csv_export.rs:230-260 | the loop over chunks of three, with the shifts and masks of each word, gives the base64 text of the bytes, where `EncodedIsSextets` says what that text means |
| Base64.ShiftsAreDivisions | crates/guacr-database/src/csv_export.rs:240-256 | on 32-bit words, the shifts and masks are divisions and remainders of the same words |
| Base64.BitOperations | crates/guacr-database/src/csv_export.rs:240-256 | the same for the numbers of the model, with "or" and "and" defined bit by bit: the word and its four groups as the encoder computes them |
| Base64.AccumulatorBits | crates/guacr-database/src/csv_import.rs:348-355 | the shift, "or", byte and mask of the decoder are the product, sum, quotient and remainder of the model |
| Base64.EncodedIsSextets | crates/guacr-database/src/csv_export.rs:230-260 | the text is the alphabet characters of the 6-bit groups of the bytes, filled up with `=` to a multiple of four (RFC 4648 section 4) |
| Base64.AlphabetIs | crates/guacr-database/src/csv_export.rs:231 | the alphabet, character by character (RFC 4648 section 4) |
| Base64.EncodedLength | crates/guacr-database/src/csv_export.rs:235-256 | four characters for every three bytes or part of them, with one `=` for each byte that the last three lack, and `=` nowhere else |
| Base64.SextetsKeepValue | crates/guacr-database/src/csv_export.rs:236-256 | the 6-bit groups are the same number as the bytes, shifted left by the fill bits |
| Base64.DecodeText | crates/guacr-database/src/csv_import.rs:339-358 | the accumulator loop gives the regrouped sextets, or the error for the first character outside ASCII; the buffer stays below two to the number of collected bits, which is 0, 2, 4 or 6 |
| Base64.Decode | crates/guacr-database/src/csv_import.rs:320-359 | the same for any bytes, with the UTF-8 error and the trimming of whitespace and `=` |
| Base64.RegroupValue | crates/guacr-database/src/csv_import.rs:345-356 | after any number of characters the bytes put out, followed by the buffer, are the number that the characters spell: no shift overflows and the cast to `u8` loses nothing |
| Base64.DecodedMeaning | crates/guacr-database/src/csv_import.rs:320-359 | whatever is accepted decodes to the whole bytes of the number that its characters spell |
| Base64.TableIff | crates/guacr-database/src/csv_import.rs:321-329 | the decoding table finds the characters of the alphabet at their places and no others |
| Base64.AcceptedIff | crates/guacr-database/src/csv_import.rs:331-346 | exactly the UTF-8 texts are accepted that are ASCII up to whitespace at their ends |
| Base64.RoundTrip | crates/guacr-database/src/csv_import.rs:320-359 | decoding the encoded text gives the bytes back, for every byte sequence |
| Utf8.DecodeEncode | crates/guacr-database/src/csv_import.rs:135-136 | strict UTF-8 decoding undoes encoding |
| Utf8.EncodeDecode | crates/guacr-database/src/csv_import.rs:396 | encoding a decoded text gives the bytes back, so no two byte sequences decode to one text |
| Decimal.ParseIntIff | crates/guacr-database/src/csv_import.rs:380 | the integers of a type are parsed from exactly one optional sign and digits, with a minus only where the type has negative values |
| Instructions.BlobRoundTrip | crates/guacr-database/src/csv_import.rs:395-417 | a `blob` instruction as `flush` formats it is read back as its stream and bytes, for every stream index and payload |
| Instructions.AckRoundTrip | crates/guacr-database/src/csv_export.rs:214-226 | an `ack` is read back as its stream and status, whatever its message, even with dots and commas |
| Instructions.FileRead | crates/guacr-database/src/csv_import.rs:365-389 | what is read from a `file` instruction for every name: the name without its end semicolons, up to its first comma, up to its first dot |
| Instructions.FileRoundTripIff | crates/guacr-database/src/csv_import.rs:365-389 | the name is read back unchanged exactly when it has no comma, no dot and no semicolon at its end |
| Instructions.ExportNameIsCut | crates/guacr-database/src/csv_export.rs:263-276 | a name that ends in `.csv` never comes back whole |
| Instructions.OnlyWithOpcode | crates/guacr-database/src/csv_import.rs:365-400 | each parser of an instruction refuses bytes that are no text, and every text that does not start with its opcode |
| CountedInstructions.LineReadIff | crates/guacr-protocol/src/streaming.rs:390-521 | an instruction with lengths in bytes is read as its opcode and arguments, up to its own end, exactly when all arguments are ASCII and of at most a million characters |
| CountedInstructions.BlobIsCounted | crates/guacr-database/src/csv_export.rs:180-185 | the parser that counts characters finds every blob as its stream and the base64 text of its bytes, and nothing of what follows, exactly up to a million characters |
| CountedInstructions.EndIsCounted | crates/guacr-database/src/csv_export.rs:197-211 | the same parser finds every `end` as its stream |
| CountedInstructions.FileIsCountedIff | crates/guacr-database/src/csv_export.rs:74-84 | it finds a `file` as its stream, media type and name exactly when the name is ASCII and of at most a million characters |
| CountedInstructions.AckIsCountedIff | crates/guacr-database/src/csv_export.rs:214-226 | and an `ack` as its stream, message and status exactly when the message is |
| CsvText.ParseCsvLine | crates/guacr-database/src/csv_import.rs:267-301 | the character loop with its look-ahead gives the fields that the recursive reading of the line gives |
| CsvText.CutByQuoteParity | crates/guacr-database/src/csv_import.rs:267-301 | that reading cuts the line at exactly the commas behind an even number of quotes, then trims and unquotes the pieces |
| CsvText.ParseCsvText | crates/guacr-database/src/csv_import.rs:244-264 | the line loop gives the header and the non-blank rows, or the error for empty content |
| CsvText.RowsOfLines | crates/guacr-database/src/csv_import.rs:254-258 | line by line, in order: a row for every line that is not all whitespace |
| CsvText.BlankRows | crates/guacr-database/src/csv_import.rs:254-258 | of the rows with readable fields only `[]` and `[""]` print as lines that are skipped |
| CsvText.RoundTripIff | crates/guacr-database/src/csv_import.rs:244-301 | a table is read back unchanged from its printed text exactly when it has a header, its fields are trimmed and free of line feeds, and no row is `[]` or `[""]` |
| Rfc4180.BareIff | crates/guacr-database/src/csv_export.rs:137-156 | a field is printed without quotes exactly when a reader after RFC 4180 section 2 reads it as it is |
| Rfc4180.RowReadBack | crates/guacr-database/src/csv_export.rs:125-134 | that reader, which looks at quotes before line breaks, reads every printed row back as one record and takes exactly the row |
| Rfc4180.RowsReadBack | crates/guacr-database/src/csv_export.rs:90-156 | it reads every table of non-empty rows back, whatever the fields hold |
| Rfc4180.RowEndsOnce | crates/guacr-database/src/csv_export.rs:125-156 | of all CR and LF in a printed row only the last two characters stand behind an even number of quotes |
| CsvExport.CsvExporter.WriteCsvField | crates/guacr-database/src/csv_export.rs:137-156 | appends the field, quoted and with doubled quotes when it holds a comma, quote or line break |
| CsvExport.DoublingIsBytewise | crates/guacr-database/src/csv_export.rs:145-152 | doubling the quote bytes of the UTF-8 text is the text with doubled quote characters |
| CsvExport.CsvExporter.WriteCsvRow | crates/guacr-database/src/csv_export.rs:125-134 | appends the bytes of the row text, with commas between and CR LF behind |
| CsvExport.CsvExporter.MaybeFlush | crates/guacr-database/src/csv_export.rs:159-164 | flushes exactly when the buffer has reached 6144 bytes |
| CsvExport.CsvExporter.Flush | crates/guacr-database/src/csv_export.rs:167-194 | sends the whole buffer as one blob and empties it, or keeps it on cancellation or when the channel is closed |
| CsvExport.CsvExporter.SendEnd | crates/guacr-database/src/csv_export.rs:197-211 | sends one `end` for the stream, or fails when the channel is closed |
| CsvExport.Conservation | crates/guacr-database/src/csv_export.rs:90-194 | at every point the sent payloads followed by the buffer are the CSV of the rows written so far |
| CsvExport.BlobSizes | crates/guacr-database/src/csv_export.rs:159-194 | every blob before the final flush has at least 6144 bytes and less than 6144 plus its last row, and ends at the end of a row; what waits is below 6144 |
| CsvExport.BlobsWithinIff | crates/guacr-database/src/csv_export.rs:90-194 | all blobs stay within 6144 bytes exactly when no row takes the buffer beyond it, a condition on the sizes of the rows alone |
| CsvExport.OneLongField | crates/guacr-database/src/csv_export.rs:159-194 | a table whose one field has n letters leaves as one blob of n + 2 bytes |
| CsvExport.BlobAboveLimit | crates/guacr-database/src/csv_export.rs:36-37 | 6143 letters make a blob above the size that is called the maximum |
| CsvExport.BlobsCarryRows | crates/guacr-database/src/csv_export.rs:90-122 | the blobs of a whole export carry exactly the table |
| CsvExport.CsvExporter.ExportQueryResult | crates/guacr-database/src/csv_export.rs:90-122 | for every moment of cancellation and disconnection: it succeeds exactly when all checks answer false and all messages are taken, then all blobs and one `end` were sent, in this order; otherwise blobs of whole rows only, no `end`, and nothing lost between the sent blobs and the buffer |
| CsvImport.CsvImporter.ReceiveBlob | crates/guacr-database/src/csv_import.rs:119-129 | appends the decoded bytes, or leaves the buffer alone on cancellation or a decoding error |
| CsvImport.CsvImporter.FinishReceive | crates/guacr-database/src/csv_import.rs:134-148 | reads the collected bytes as UTF-8 CSV, keeps the table, and empties the buffer |
| CsvImport.CsvImporter.GenerateInserts | crates/guacr-database/src/csv_import.rs:156-240 | one statement per kept row in order, in the quoting of each of the three databases, or the error |
| CsvImport.WellformedIsInOrder | crates/guacr-database/src/csv_import.rs:169-173 | the kept rows are exactly those with as many fields as headers, each once, in their order |
| CsvImport.StatementValues | crates/guacr-database/src/csv_import.rs:165-181 | behind its head each generated statement is a list that reads back as one literal per header, those of its row; the first closing parenthesis outside a string ends the statement but for its `;`, so that no field ends the list early |
| SqlHeads.IdentifiersIff | crates/guacr-database/src/csv_import.rs:156-240 | in each of the three dialects the table and the columns are read back from the head, and the values stand behind them, exactly when no name holds the closing quote of the dialect |
| SqlNumerals.NullIff | crates/guacr-database/src/csv_import.rs:304-307 | a field becomes NULL exactly when it is empty or spells the word, letter by letter in either case |
| SqlNumerals.LiteralExact | crates/guacr-database/src/csv_import.rs:304-317 | every other field stays as it is when a grammar of signed decimal numbers, infinities and NaN generates it, and is a string of exactly its characters otherwise |
| SqlNumerals.IntegersAreBare | crates/guacr-database/src/csv_import.rs:310-312 | every integer, with or without a fraction, stays a number |
| SqlNumerals.OtherCharactersAreText | crates/guacr-database/src/csv_import.rs:310-316 | a field with a character that no number has is a string |
| SqlValues.ValuesAreUnambiguous | crates/guacr-database/src/csv_import.rs:304-317 | a scanner for bare words and SQL strings reads the joined list back as exactly one literal per field and ends at the parenthesis behind it, whatever commas, quotes and parentheses the fields hold and whatever follows |
| SqlValues.OnlyNullsCollapse | crates/guacr-database/src/csv_import.rs:304-317 | two fields give the same literal exactly when they are equal or both stand for NULL |
| SqlValues.SameValuesSameRow | crates/guacr-database/src/csv_import.rs:304-317 | two rows give the same text exactly when they agree field by field, up to NULL |
| SqlValues.StandardIff | crates/guacr-database/src/csv_import.rs:310-313 | the literal is a standard one exactly when the field is no spelling of infinity or NaN |
| CsvTransfer.BlobsArrive | crates/guacr-database/src/csv_import.rs:395-417 | the messages of an export carry its bytes to the reader of blob instructions |
| CsvTransfer.TransferIff | crates/guacr-database/src/csv_export.rs:90-194 | through printing, blobs, base64, framing, parsing, decoding and reading, a table arrives unchanged exactly when it is transferable, for every stream index |
| CsvTransfer.StoppedExportArrives | crates/guacr-database/src/csv_export.rs:96-121 | an export that stopped early left the client a whole number of leading rows |
| CsvTransfer.EndIsNoBlob | crates/guacr-database/src/csv_export.rs:197-211 | an `end` is never taken for data |
| DragDetector.DragDetector.NotifyMouseEvent | crates/guacr-handlers/src/drag_detector.rs:117-165 | the new state after a mouse event: press, release, first movement beyond the threshold, or another movement |
| DragDetector.DragDetector.NotifyGraphicsUpdate | crates/guacr-handlers/src/drag_detector.rs:171-223 | the new state after a graphics update, with the prune and cap loops |
| DragDetector.MovedIff | crates/guacr-handlers/src/drag_detector.rs:151-153 | the 32-bit test is true exactly at a distance of more than 5, short of the distances where it wraps |
| DragDetector.LargeIff | crates/guacr-handlers/src/drag_detector.rs:177-186 | the integer test is true exactly for updates of at least 80 per cent of a screen that has an area, short of overflow |
| DragDetector.MainButtonIff | crates/guacr-handlers/src/drag_detector.rs:123 | a button is down exactly when one of the three lowest bits of the mask is set |
| DragDetector.MainButtonBits | crates/guacr-handlers/src/drag_detector.rs:123 | the same as the mask of the source, on a byte |
| DragDetector.WithinIff | crates/guacr-handlers/src/drag_detector.rs:192-198 | whole milliseconds are counted: an update is in the window until 501 of them have passed |
| DragDetector.WindowStep | crates/guacr-handlers/src/drag_detector.rs:191-204 | pruning, appending and capping keep the queue equal to a window of the full history |
| DragDetector.RunExplained | crates/guacr-handlers/src/drag_detector.rs:117-262 | after every trace each field of the detector is told by the trace alone |
| DragDetector.DragExact | crates/guacr-handlers/src/drag_detector.rs:117-262 | a drag is reported exactly when, since the press of the button still held and the last resize after it, the mouse moved more than 5 pixels from the press and later came a large update that was at least the third within 500 ms |
| DragDetector.TrackingEndsIff | crates/guacr-handlers/src/drag_detector.rs:117-222 | from any run that tracks, whatever events follow, the detector falls back to idle exactly when a release, a resize or a reset is among them |
| DragDetector.TrackingOutlivesWindow | crates/guacr-handlers/src/drag_detector.rs:206-222 | two large updates any time apart leave a moved mouse tracked |
| DragDetector.QueueExact | crates/guacr-handlers/src/drag_detector.rs:171-223 | the queue is the last at most 16 large updates since the press or resize within 500 ms of the newest, in order, and empty when no button is held |
| DragDetector.DragEndedIff | crates/guacr-handlers/src/drag_detector.rs:244-246 | the end of a drag is reported exactly from the release that ended it to the next mouse event or reset |
| DragDetector.DeltaIsLastStep | crates/guacr-handlers/src/drag_detector.rs:233-238 | the displacement is the last step of the mouse, and zero right after a press |
| QueryEditor.QueryEditor.ProcessKey | crates/guacr-database/src/query_executor.rs:280-444 | the new line, byte offset and history for every keysym, whether the key panics, and the query handed out |
| QueryEditor.QueryEditor.InsertText | crates/guacr-database/src/query_executor.rs:182-207 | pasted text goes in at the byte offset, which moves by its bytes, and panics inside a character |
| QueryEditor.QueryEditor.InsertChar | crates/guacr-database/src/query_executor.rs:432-442 | a typed character goes in at the byte offset, which moves by one byte |
| QueryEditor.QueryEditor.DeleteCharBeforeCursor | crates/guacr-database/src/query_executor.rs:708-715 | Backspace removes the character that starts one byte before the offset, and panics when none does |
| QueryEditor.QueryEditor.DeleteCharAtCursor | crates/guacr-database/src/query_executor.rs:718-724 | Delete removes the character that starts at the offset, and panics when none does |
| QueryEditor.QueryEditor.KillToEndOfLine | crates/guacr-database/src/query_executor.rs:771-779 | Ctrl+K cuts the line at the offset, and panics inside a character |
| QueryEditor.QueryEditor.KillPreviousWord | crates/guacr-database/src/query_executor.rs:794-816 | the two loops compute the index that is then used as an offset, with the panics of both uses |
| QueryEditor.KillPointExact | crates/guacr-database/src/query_executor.rs:794-816 | the kill point is the one position behind which stand a maximal word and then only whitespace |
| QueryEditor.EditorRefinesZipper | crates/guacr-database/src/query_executor.rs:280-444 | on ASCII text no key panics, the text stays ASCII, and string and offset behave like the text before and the text after the cursor |
| QueryEditor.RunRefinesZipper | crates/guacr-database/src/query_executor.rs:280-444 | so does every run: it never panics, and without history keys it is a run of the two-part text |
| QueryEditor.BoundaryKeyIff | crates/guacr-database/src/query_executor.rs:708-816 | on any text, from between two characters, a key does what it should exactly when the character it moves over is one byte long, and Ctrl+W exactly when its character count finds the word at its byte offset |
| QueryEditor.KillWordPanicsIff | crates/guacr-database/src/query_executor.rs:794-816 | on any text, Ctrl+W panics exactly when there are fewer characters in the line than bytes before the cursor, or what it finds is no byte offset of a character |
| QueryEditor.KillAtEndIff | crates/guacr-database/src/query_executor.rs:794-816 | at the end of a line, Ctrl+W does what it should on ASCII and panics on any other line |
| QueryEditor.SafeIff | crates/guacr-database/src/query_executor.rs:280-444 | no typed key can ever panic exactly when the line, the line kept aside and the history are ASCII |
| QueryEditor.OnKeyboardIff | crates/guacr-database/src/query_executor.rs:280-444 | the typed keys meant by `SafeIff` are exactly those that some keysym stands for |
| QueryHistory.KeysymsAct | crates/guacr-database/src/query_executor.rs:280-444 | on ASCII text each keysym but those of Up and Down does to the text before and after the cursor what a table of keysyms says |
| QueryHistory.HistoryKeysyms | crates/guacr-database/src/query_executor.rs:325-340 | 0xFF52 shows the entry before, first the last, and 0xFF54 the entry behind, and behind the last the typed line |
| QueryEditor.PasteThenLeftPanics | crates/guacr-database/src/query_executor.rs:436 | an accented letter pasted, one step left, and the next letter panics |
| QueryEditor.QueryEditor.HistoryPrevious | crates/guacr-database/src/query_executor.rs:603-628 | the new state after Up |
| QueryEditor.QueryEditor.HistoryNext | crates/guacr-database/src/query_executor.rs:631-649 | the new state after Down |
| QueryEditor.QueryEditor.AddToHistory | crates/guacr-database/src/query_executor.rs:652-675 | the history after a command: blank ones and repetitions of the last are not added, the oldest goes beyond 250 |
| QueryEditor.RunGood | crates/guacr-database/src/query_executor.rs:652-675 | in every run on any text, as long as no key panics, the offset is in the line, the history has at most 250 entries, trimmed and not blank, neighbours differ, and its index is in range |
| QueryEditor.EnterLeavesHistoryIff | crates/guacr-database/src/query_executor.rs:652-675 | Enter ends the navigation exactly when there was none or the line is a new command |
| QueryHistory.HistoryIsLast | crates/guacr-database/src/query_executor.rs:652-675 | after every run the history is exactly the last 250 of the queries that its keys handed out, without those equal to the one before |
| QueryHistory.SubmittedIff | crates/guacr-database/src/query_executor.rs:282-304 | handed out are the trimmed lines at each Enter that are not empty, and nothing else |
| QueryHistory.WalkExact | crates/guacr-database/src/query_executor.rs:603-649 | after every run that is not in the history, k Ups and j Downs show the query k - j from the end of those handed out, no further back than 250, and the typed line when the Downs have caught up |
| QueryEditor.TypedLineIsKept | crates/guacr-database/src/query_executor.rs:603-649 | while history entries are shown, the typed line is kept aside, through any edits on any text |
| QueryEditor.UpsThenDowns | crates/guacr-database/src/query_executor.rs:603-649 | as many Downs as Ups restore the typed line, with any in-line keys in between |
| Framing.ReadInstruction | crates/guacr-guacd/src/server.rs:97-131 | the loop gives the frame or the error that the pieces of the stream determine, and consumes what they say |
| Framing.ReadSucceedsIff | crates/guacr-guacd/src/server.rs:97-131 | it succeeds exactly when a semicolon comes, each piece up to it is UTF-8 by itself, and the bytes at hand fit the limit |
| Framing.FailureExplained | crates/guacr-guacd/src/server.rs:97-131 | why it fails: the first piece that is missing, too much for 65536 bytes or not UTF-8, in this order |
| Framing.ReadTakesFirstFrame | crates/guacr-guacd/src/server.rs:97-131 | on success it returns exactly the bytes up to the first semicolon and leaves the rest |
| Framing.ChunkingDoesNotMatter | crates/guacr-guacd/src/server.rs:97-131 | an ASCII frame that fits together with one more piece is read however the stream was cut |
| Framing.EveryCuttingIff | crates/guacr-guacd/src/server.rs:97-131 | within the size limit, a frame is read however the stream is cut exactly when it is ASCII |
| Framing.SplitCharacterFails | crates/guacr-guacd/src/server.rs:119-126 | a character cut between two pieces is refused, although it is accepted in one piece |
| Framing.Relay | crates/guacr-guacd/src/server.rs:551-583 | forwards the messages that the pieces determine, one by one, until the stream ends or the handler is gone |
| Framing.CollectMessage | crates/guacr-guacd/src/server.rs:555-576 | the inner loop takes the next message off the stream, or finds its end |
| Framing.FramesCutTheStream | crates/guacr-guacd/src/server.rs:551-583 | the frames of a stream, put together, are the stream up to its last semicolon |
| Framing.FramesEndInSemicolon | crates/guacr-guacd/src/server.rs:566-571 | every frame ends in a semicolon and holds no other |
| Framing.RelayExact | crates/guacr-guacd/src/server.rs:551-583 | the messages are exactly the frames of the stream if and only if every piece is UTF-8 by itself |
| Framing.IllFormedIsSkipped | crates/guacr-guacd/src/server.rs:566-576 | a piece that is not UTF-8 by itself, anywhere in a stream, is relayed as if it were not there |
| Framing.IllFormedEnd | crates/guacr-guacd/src/server.rs:566-576 | when it would end a message, the message is what was collected before it |
| Framing.RelayIgnoresChunking | crates/guacr-guacd/src/server.rs:551-583 | for an ASCII stream the messages do not depend on how it was cut |
| Framing.EveryRelayIff | crates/guacr-guacd/src/server.rs:551-583 | the messages are the frames however the stream is cut exactly when the frames are ASCII |
| Framing.BufReader.IntoInner | crates/guacr-guacd/src/server.rs:267-269 | the stream comes back without what is in the reader's buffer |
| Framing.HandoverBytes | crates/guacr-guacd/src/server.rs:544-548 | the stream is the last instruction of the handshake, the bytes left in the buffer, and the pieces that the relay still gets |
| Framing.HandoverLosesNothingIff | crates/guacr-guacd/src/server.rs:544-548 | no byte is lost exactly when the last instruction of the handshake ends a piece |
| Framing.RelayAfterHandoverIff | crates/guacr-guacd/src/server.rs:544-583 | for ASCII, the relay forwards the frames of the rest of the stream exactly when nothing was left in the buffer or no whole instruction follows |
| AcceptLoop.Safety | crates/guacr-guacd/src/server.rs:327-375 | in every interleaving the counter is the connections counted in and not yet out, is never negative, and at most one connection is accepted after a signal that the loop can see |
| AcceptLoop.StoppedForGood | crates/guacr-guacd/src/server.rs:332-341 | a stopped loop counts no connection in any more |
| AcceptLoop.DrainedForGood | crates/guacr-guacd/src/server.rs:408-434 | once the loop has stopped, a counter at zero stays at zero |
| AcceptLoop.CountedInAfterSignal | crates/guacr-guacd/src/server.rs:408-434 | after a visible signal at most one more connection is counted in, and none when the accept task has none on its way |
| AcceptLoop.ZeroReadTooEarly | crates/guacr-guacd/src/server.rs:408-434 | a run in which the counter is zero after the signal and one later |
| AcceptLoop.DrainedIff | crates/guacr-guacd/src/server.rs:408-434 | after a visible signal, a counter at zero stays at zero in every continuation exactly when the accept task has no connection on its way |
| AcceptLoop.EarlySignalIsLost | crates/guacr-guacd/src/server.rs:331-332 | a signal sent before the accept task subscribes does not stop it, and any number of connections follows |
| AcceptLoop.AtMostOneIff | crates/guacr-guacd/src/server.rs:327-375 | in every state of every run, at most one connection is accepted from here on without a further signal exactly when a visible signal was sent |
| AcceptLoop.SignalBoundsIff | crates/guacr-guacd/src/server.rs:327-341 | a signal, which takes the handle, bounds the connections accepted after it exactly when the accept task had run before it |
| AcceptLoop.InterruptedIff | crates/guacr-guacd/src/server.rs:348-362 | in every state of every run, a running connection can be interrupted without a further signal exactly when a signal was sent that the accept task can see, be it before or after the connection subscribed |
| AcceptLoop.LateConnection | crates/guacr-guacd/src/server.rs:324-405 | a connection that was waiting when the signal came is not interrupted by it, and can be as soon as the loop has stopped and the handle is dropped, as `shutdown` does at its end |
| AcceptLoop.SignalInterruptsAll | crates/guacr-guacd/src/server.rs:436-439 | every signal, also that of `stop_accepting`, can interrupt every running connection |
| StreamingParser.EncodeInstruction | crates/guacr-protocol/src/streaming.rs:630-655 | the bytes of an instruction, element by element, where `PeekReadsBackIff` and `ContentReadsBack` say what they mean |
| StreamingParser.ParseLength | crates/guacr-protocol/src/streaming.rs:143-169 | the digits of a length up to a million, checked at each digit |
| StreamingParser.ExtractUtf8Chars | crates/guacr-protocol/src/streaming.rs:175-381 | the first so many characters, by the fast path for ASCII or character by character; more are asked for, or the bytes refused, at the same place |
| StreamingParser.PeekInstruction | crates/guacr-protocol/src/streaming.rs:390-521 | the loop over the arguments, with the fast path for `sync`, finds the instruction that the grammar of elements gives, or the error |
| StreamingParser.PeekStable | crates/guacr-protocol/src/streaming.rs:390-521 | once peeking found an instruction or an error, no further bytes change it |
| StreamingParser.PeekReadsBackIff | crates/guacr-protocol/src/streaming.rs:390-655 | peeking finds exactly the instruction that was encoded, whatever follows, if and only if no element has more than a million characters |
| PeekGrammar.PeekIff | crates/guacr-protocol/src/streaming.rs:390-521 | the exact language: an instruction is found in the first bytes exactly when they are its encoding, up to zeros in front of lengths, with at most a million characters in each element |
| PeekGrammar.WithoutDot | crates/guacr-protocol/src/streaming.rs:390-430 | without a dot peeking waits, and refuses when there is a semicolon |
| PeekGrammar.WithoutLength | crates/guacr-protocol/src/streaming.rs:143-169 | what is no length up to a million is refused as soon as a dot follows |
| PeekGrammar.WithoutText | crates/guacr-protocol/src/streaming.rs:175-381 | with fewer characters than announced it waits, and is not UTF-8 behind a byte that starts no character |
| PeekGrammar.WithoutTerminator | crates/guacr-protocol/src/streaming.rs:390-521 | behind a whole element it waits for a comma or the terminator and refuses anything else |
| ContentParser.ParseInstructionContent | crates/guacr-protocol/src/streaming.rs:525-620 | the loop over the content gives the instruction that the grammar of elements with any length gives, or the error |
| ContentParser.ContentReadsBack | crates/guacr-protocol/src/streaming.rs:525-655 | the content of every encoded instruction is parsed as that instruction |
| ContentParser.ContentAgrees | crates/guacr-protocol/src/streaming.rs:390-620 | whatever was peeked at is parsed, and as the same instruction |
| GuacamoleParser.ParseInstruction | crates/guacr-protocol/src/parser.rs:54-103 | the loop over the text in front of the first semicolon, with byte counts for lengths, the refusals and the panics |
| GuacamoleParser.ValueOutcome | crates/guacr-protocol/src/parser.rs:62-100 | behind a printed length the value is the text of that many bytes; it is refused when there are fewer, and the parser panics when they end inside a character |
| GuacamoleParser.TextRefused | crates/guacr-protocol/src/parser.rs:54-95 | a text without a terminator, and an element without a dot or without a number in front of it, are refused |
| GuacamoleParser.ReadBackIff | crates/guacr-protocol/src/parser.rs:54-103 | what was encoded with a plain opcode is read back exactly when all arguments are ASCII without semicolons |
| GuacamoleParser.UnplainIsLost | crates/guacr-protocol/src/parser.rs:83-103 | otherwise some argument that is not plain does not arrive, even if something is read |
| GuacamoleParser.LongCharacterPanics | crates/guacr-protocol/src/parser.rs:91-100 | a value of one character outside ASCII makes the parser panic |
| Handshake.HandshakeReader.ReadExpectedInstruction | crates/guacr-guacd/src/client.rs:46-194 | the outcome is that of the whole stream, exactly the instruction read is taken off, and the tracked length is the buffer length, for every cutting into reads |
| Handshake.JudgeStable | crates/guacr-guacd/src/client.rs:46-194 | once the parser found something, later bytes change neither the outcome nor the bytes used |
| Handshake.PeekIsWellBehaved | crates/guacr-protocol/src/streaming.rs:390-521 | the parser of the gateway meets what the reader asks of one |
| Handshake.FoundIsTaken | crates/guacr-guacd/src/client.rs:46-194 | with the parsers of the gateway, an instruction that was found is never refused by the second parser or by the length check |
| Handshake.ReadsWhatIsSent | crates/guacr-guacd/src/client.rs:46-194 | so the gateway reads every encoded instruction as it is, with whatever behind it, as long as no element has more than a million characters |
| Handshake.ConnectArgs | crates/guacr-guacd/src/client.rs:445-466 | the two loops give the version and then the value of each name under normalised keys |
| Handshake.SameNameIff | crates/guacr-guacd/src/client.rs:448-457 | two names match exactly when they are the same, character by character, but for the case of ASCII letters and for `-` and `_` |
| Handshake.LastMatchDecides | crates/guacr-guacd/src/client.rs:445-463 | the value sent is that of the last entry equal to the name modulo case, `-` and `_`, and empty when there is none |
| Handshake.AgreeingValueIsSent | crates/guacr-guacd/src/client.rs:445-463 | when the entries that match a name agree, their value is sent, in whatever order the map is walked |
| Handshake.OrderMattersIff | crates/guacr-guacd/src/client.rs:445-451 | the value is the same for every order of the configuration exactly when the entries that match agree |
| Handshake.ReadConnect | crates/guacr-guacd/src/server.rs:217-247 | any other instruction is refused with its opcode; the parameters are the non-empty values under the names by position; otherwise the first required name without a value is reported |
| Handshake.VersionFirstRoundTrip | crates/guacr-guacd/src/client.rs:453-466 | a guacd that puts its version first gets every configured value under its name |
| Wire.ReadInstruction | crates/guacr-guacd/src/server.rs:97-142 | the server reads an instruction off the pieces of the stream: the first frame, then the parser that counts bytes |
| Wire.ArrivesUnchangedIff | crates/guacr-protocol/src/parser.rs:54-103 | within the size limit, an instruction of the gateway arrives at the server unchanged, in whatever pieces, exactly when its values are ASCII without semicolons |
| Wire.SizeIsRefused | crates/guacr-guacd/src/client.rs:386-441 | for every configuration, every protocol and in whatever pieces, the server never gets a `connect` from the gateway: it refuses `size`, cannot read it, or panics |
| Wire.SizeIsNotConnect | crates/guacr-guacd/src/server.rs:217-226 | with a plain width, height and resolution the answer is exactly that `size` was not expected |
| Wire.AnswerConnect | crates/guacr-guacd/src/server.rs:217-247 | what comes of the next instruction in the stream: refused, a panic, or what `ReadConnect` makes of it |
| Wire.SizeValues | crates/guacr-guacd/src/client.rs:252-263 | a size that is not configured is 1024 by 768 at 96; configured values without commas are sent as they are |
| Wire.NoVersionLosesFirst | crates/guacr-guacd/src/client.rs:443-468 | even if the server skipped to `connect`, it would find the first parameter set to its own name, and the others as configured if these are plain |
| Wire.NoVersionAgreesIff | crates/guacr-guacd/src/client.rs:443-468 | it would find the configured value under every name exactly when the first is configured with its own name and the others are ASCII without semicolons |
| Quality.ThroughputTracker.TrackSent | crates/guacr-handlers/src/throughput.rs:37-42 | the window is exactly the last sends, as many as fit |
| Quality.ThroughputTracker.ThroughputMbps | crates/guacr-handlers/src/throughput.rs:48-62 | the bits of the window over the time since its oldest send, zero for fewer than two sends or less than a millisecond |
| Quality.ThroughputTracker.Clear | crates/guacr-handlers/src/throughput.rs:70-72 | the history starts anew |
| QualityExact.RateExact | crates/guacr-handlers/src/throughput.rs:48-62 | the rate times the span is eight times the bytes, in megabits and seconds; it is zero for a span below a millisecond and for fewer than two sends |
| QualityExact.EvenRate | crates/guacr-handlers/src/throughput.rs:48-62 | of equal sends at equal distances it is that of one send per distance, however many there are |
| QualityExact.TargetIff | crates/guacr-handlers/src/adaptive_quality.rs:99-113 | for a maximum of 50 or more, the target is at least q exactly from a throughput on that is linear in q between the bands |
| QualityExact.TargetWraps | crates/guacr-handlers/src/adaptive_quality.rs:102-105 | below a maximum of 50, the value of the third band as it runs through the wrap-around of a byte |
| QualityExact.WindowIsLastFrames | crates/guacr-handlers/src/adaptive_quality.rs:69-71 | after every run the last ten frames are measured |
| QualityExact.AdjustsIff | crates/guacr-handlers/src/adaptive_quality.rs:84-94 | a call adjusts exactly when the interval has passed and at least two frames were sent |
| QualityExact.AdjustIsNearest | crates/guacr-handlers/src/adaptive_quality.rs:115-126 | from any quality, also out of range: the value nearest to the target within a step, then the nearest in range |
| Quality.TargetInBand | crates/guacr-handlers/src/adaptive_quality.rs:99-113 | each of the four bands has its own range of targets; below a maximum of 50 the third wraps around |
| Quality.TargetBoundedIff | crates/guacr-handlers/src/adaptive_quality.rs:102-105 | the target stays within 10 and the maximum for every throughput exactly when the maximum is at least 50 |
| Quality.MonotoneIff | crates/guacr-handlers/src/adaptive_quality.rs:99-113 | more throughput never lowers the target, across the bands, exactly when the maximum is at least 50 |
| Quality.AdaptiveQuality.constructor | crates/guacr-handlers/src/adaptive_quality.rs:39-49 | the first quality is the argument, in range exactly when that is between 10 and 100 |
| Quality.AdaptiveQuality.WithMinQuality | crates/guacr-handlers/src/adaptive_quality.rs:55-59 | the minimum between 10 and the maximum, and a quality not below it |
| Quality.AdaptiveQuality.TrackFrameSent | crates/guacr-handlers/src/adaptive_quality.rs:69-71 | a frame step: only the window changes |
| Quality.AdaptiveQuality.CalculateQuality | crates/guacr-handlers/src/adaptive_quality.rs:81-130 | the new state, unchanged within the interval or with fewer than two samples; an adjustment ends in the configured range |
| Quality.AdaptiveQuality.Reset | crates/guacr-handlers/src/adaptive_quality.rs:151-155 | the maximum quality, an empty window and a new start of the interval |
| Quality.AdaptiveQuality.ConfigureAdjustment | crates/guacr-handlers/src/adaptive_quality.rs:163-166 | the interval and the step limit, clamped, and nothing else |
| Quality.AdjustApproaches | crates/guacr-handlers/src/adaptive_quality.rs:115-126 | an adjustment goes straight for the clamped target, by the step limit or the whole way, and never past it |
| Quality.ReachedIff | crates/guacr-handlers/src/adaptive_quality.rs:115-127 | repeated adjustments are at the clamped target exactly from the ceil(distance / limit)-th on |
| Quality.Converges | crates/guacr-handlers/src/adaptive_quality.rs:81-130 | so is the controller in a run of frames and calls, while the measured throughput keeps its target |
| Quality.AdjustmentsAreApart | crates/guacr-handlers/src/adaptive_quality.rs:84-89 | any two adjustments of a run are at least an interval apart |
| Quality.AdjustmentsMoveBySteps | crates/guacr-handlers/src/adaptive_quality.rs:115-127 | a run keeps the quality in range and moves it by at most the step limit for each adjustment |
| Quality.Drift | crates/guacr-handlers/src/adaptive_quality.rs:81-130 | for every pattern of frames and calls the quality stays in range and changes by at most the limit times (1 + elapsed / interval) |
| HostKey.HostKeyVerifier.LoadKnownHosts | crates/guacr-handlers/src/host_key.rs:151-184 | the map is the index of the pairs of the file's lines in order, and their number is counted |
| HostKey.HostKeyVerifier.constructor | crates/guacr-handlers/src/host_key.rs:132-148 | the file is loaded when a path is configured; an unreadable one leaves the map empty |
| HostKey.LineIsRead | crates/guacr-handlers/src/host_key.rs:187-207 | a line of names, type and key gives each name, without brackets and port, that key |
| HostKey.IndexAgreesWithScan | crates/guacr-handlers/src/host_key.rs:268-297 | looking only at the keys grouped under a host decides as walking the whole file |
| HostKey.ScanIsFirst | crates/guacr-handlers/src/host_key.rs:270-296 | the first pair with the host, the right key type and readable data decides |
| HostKey.HostKeyVerifier.Verify | crates/guacr-handlers/src/host_key.rs:216-306 | the verdict of the index is that of the linear walk, with the override, the pin, the empty file, all variants and the hashed names |
| HostKey.HostKeyVerifier.CheckHashedEntries | crates/guacr-handlers/src/host_key.rs:309-374 | the first hashed name in the order of the map that matches and decides |
| HostKey.OrderIrrelevantIff | crates/guacr-handlers/src/host_key.rs:315-372 | the order of the map does not matter exactly when all matching hashed names agree |
| HostKey.BracketedNeverFound | crates/guacr-handlers/src/host_key.rs:384-413 | no plain entry of any file answers to a bracketed variant |
| HostKey.PortIsIgnored | crates/guacr-handlers/src/host_key.rs:395-413 | without hashed names the verdict is that of the host, then of its lowercase form, on every port |
| HostKey.EntryServesEveryPort | crates/guacr-handlers/src/host_key.rs:384-392 | an entry recorded for one port decides about the host on every port |
| HostKey.HashedNamesSeeThePort | crates/guacr-handlers/src/host_key.rs:309-347 | a name hashed with its port is found on that port, and on no port whose variants it does not match |
| HostKey.PortEntersByHashedNamesIff | crates/guacr-handlers/src/host_key.rs:266-305 | in any file, for a host that is not known itself, a verdict depends on the port exactly through the hashed names that match a bracketed form |
| HostKey.AllowedOnlyWithStoredKey | crates/guacr-handlers/src/host_key.rs:81-89 | with a configured file, no pin and no override, a connection is allowed only when the file holds that very key, of that type, for a variant of the host |
| HostKey.PinnedIff | crates/guacr-handlers/src/host_key.rs:237-247 | a pin is met exactly by the fingerprint, bare or behind repeated `SHA256:` and then `sha256:` prefixes |
| HostAdmission.PinDecides | crates/guacr-handlers/src/host_key.rs:81-89 | with a pin and no override a host is let in exactly when the pin is the fingerprint of its key; otherwise the verdict is a mismatch between the fingerprint that the pin names and the one presented, also where unknown hosts are allowed |
| HostAdmission.FirstKeyDecides | crates/guacr-handlers/src/host_key.rs:252-306 | with a configured file, the first key of the right type with readable data decides, among those stored under each name asked for and then under its hashes; without one the host is unknown |
| HostAdmission.AdmittedIff | crates/guacr-handlers/src/host_key.rs:81-306 | the exact condition, for every configuration, file and key, for letting a host in |
| HostAdmission.HashMatchesIff | crates/guacr-handlers/src/host_key.rs:315-347 | a stored name is the hash of a host exactly when it is two texts behind its mark with a bar between them, and hashing with the first gives the second |
| HostAdmission.NormalizedName | crates/guacr-handlers/src/host_key.rs:384-392 | a name in brackets is cut at them, any other is kept |
| HostAdmission.PlainLine | crates/guacr-handlers/src/host_key.rs:187-207 | a line of plain names gives each of them, as it is, the type and data of the line |
| HostAdmission.HashedLine | crates/guacr-handlers/src/host_key.rs:197-200 | a hashed name stands for itself, with all its characters |
| HostAdmission.CommentLine | crates/guacr-handlers/src/host_key.rs:164-167 | a comment says nothing |
| MappingRows.FlattenMappingProperties | crates/guacr-database/src/elasticsearch.rs:506-531 | the recursive loop appends the rows of the tree to those already there |
| MappingRows.TypeNameIff | crates/guacr-database/src/elasticsearch.rs:518-522 | the type shown is the text of the first member `type`, and `object` without such a text |
| MappingRows.NestedIff | crates/guacr-database/src/elasticsearch.rs:527 | the fields below are the members of the object `properties`, none without one |
| MappingRows.RowIsAddress | crates/guacr-database/src/elasticsearch.rs:511-524 | row by row, the path is the dotted path of the field's names |
| MappingRows.PreorderIff | crates/guacr-database/src/elasticsearch.rs:511-530 | one row comes before another exactly when its field does: a field before its sub-fields, an earlier sibling with all below it before a later one |
| MappingRows.AddressesAreFields | crates/guacr-database/src/elasticsearch.rs:511-530 | the addresses are exactly those at which the tree has a field |
| MappingRows.AddressesDistinct | crates/guacr-database/src/elasticsearch.rs:511-530 | no address is listed twice |
| MappingRows.EveryFieldHasARow | crates/guacr-database/src/elasticsearch.rs:511-530 | no field is left out: every address has a row with its path and its type |
| MappingRows.PathRoundTripIff | crates/guacr-database/src/elasticsearch.rs:512-516 | a path cut at its dots gives back the names exactly when no name has a dot and the first is not empty, or is the only one |
| MappingRows.SamePathIff | crates/guacr-database/src/elasticsearch.rs:512-516 | two fields below named ones share a path exactly when their names fall into the same pieces at the dots |
| MappingRows.PathNamesField | crates/guacr-database/src/elasticsearch.rs:506-531 | with non-empty dot-free names the path leads to the field whose type the row shows, and no two rows share a path |
| MappingRows.PathsClash | crates/guacr-database/src/elasticsearch.rs:512-516 | a name that reads like a path, or a sub-field of an unnamed field, does share a path with another field |
| MultiChannel.SimpleMultiChannelSender.SendFrame | crates/guacr-handlers/src/multi_channel.rs:90-119 | each channel, also one that is listed twice, was offered exactly what falls to it of the frames that fit, the index is that of the next, also after a failed send; oversized frames change nothing |
| MultiChannel.OfferedIsShare | crates/guacr-handlers/src/multi_channel.rs:108-118 | a channel that is listed once was offered the frames at every k-th position |
| MultiChannel.FrameAt | crates/guacr-handlers/src/multi_channel.rs:108-118 | the n-th accepted frame is the (n / k)-th on channel n mod k |
| MultiChannel.ShareAt | crates/guacr-handlers/src/multi_channel.rs:108-118 | and nothing else is on that channel |
| MultiChannel.Fair | crates/guacr-handlers/src/multi_channel.rs:108-113 | the loads of two channels differ by at most one |

## Left out

- The database handlers and their `connect` loops, rendering, image encoders, terminal emulation,
  recording and logging: calls into drivers and libraries.
- Async scheduling, sockets and timeouts: streams and channels are sequences cut in any way; only the
  accept loop is modelled as interleaved tasks.
- A failed write or a full channel that would block: a send succeeds until the receiver goes away.
- Panics of connection handlers: the accept loop is modelled for handlers that return.
- Texts of errors: the parsers of instructions tell kinds of errors apart, at most.
- The vector instructions of the streaming parser, and its `validate_and_detect_special`.
- The base64 crate, SHA-256 and HMAC-SHA1, and Unicode lowercasing: parameters of `HostKey`.
- Floating-point rounding: throughput is a real number; the casts to `u8` are modelled.
- Debug builds: arithmetic on `u8` and `i32` wraps as in a release build where the code does not saturate.
- Redrawing, the prompt, mouse selection and terminal errors of the line editor.
- The backslash escapes of some SQL dialects: the scanner reads standard string literals.
- The parsers of CSV transfer instructions in `Instructions` ignore the lengths in front of values, as the code does;
  `CountedInstructions` reads the lengths.
- The argument tables of the protocols, the splitting of user names, the parsing of media types, and the join
  of a running session, whose connection id the server does not find among its protocols.
- The file names generated for exports, beyond their ending.
- The value of `MAX_SAFE_PAYLOAD_SIZE`, a constant of a crate that is not part of this model, is a
  parameter of `MultiChannel`; concurrent senders are taken in the order of the lock.
- Instruction contents behind `read_select`, `send_ready` and `send_error`, and the pipe streams: their
  printers and parsers repeat what `Instructions` proves.
- Framing.ChunkingDoesNotMatter: asks for room for one more piece, because the code checks the limit against all
  bytes at hand and not only against the instruction; `Framing.ReadSucceedsIff` is exact.
- SqlValues.ReadLiterals: follows the SQL standard, so what MySQL does with backslashes is not covered.
- ContentParser.ContentReadsBack: is for strings of fewer than 2^64 characters, and the lemmas on `GuacamoleParser` are
  for texts of fewer than 2^63 bytes, as all strings are.
- QueryEditor.UpsThenDowns: is for a line typed outside the history, as the code keeps only one line aside.
