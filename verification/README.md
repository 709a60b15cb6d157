# What the driver keeps, proved

The driver speaks the MySQL and MariaDB protocol over a byte stream, pools its connections, runs
transactions over several of them, and signs with Ed25519. This project models the parts where the
hard promises are, and proves them for all inputs, runs and interleavings. The model has the source's
form: a class where the source has one, with its fields and its loops; the specification of each
method is a function of values, and what the source promises is proved about those functions and
about the invariants.

| file | of |
|---|---|
| `bytes.dfy`, `bits.dfy`, `lenenc.dfy`, `utf8.dfy` | little-endian numbers, bitmaps, length-encoded integers, UTF-8 |
| `packets.dfy`, `compression.dfy` | what a packet stream and a compressed stream mean |
| `writer.dfy`, `reader.dfy`, `wire.dfy` | the two halves of a connection, and both together |
| `stmt_execute.dfy`, `stmt_server.dfy` | execution of prepared statements, and how the server reads it |
| `rows.dfy`, `row_values.dfy`, `text_rows.dfy` | rows in binary form, their values by the rules of the protocol, rows in text form |
| `ed25519.dfy`, `ed25519_laws.dfy` | RFC 8032 on integers, and why its signatures verify |
| `two_phase.dfy`, `session.dfy` | two-phase commit: one connection, and the session |
| `trx_queue.dfy`, `trx_reference.dfy` | the lazy transaction queue, and the reference that it is compared with |
| `xa_id.dfy` | transaction IDs and the cleaner of dangling transactions |
| `pool.dfy`, `interval.dfy`, `health.dfy` | the pool and its helpers |
| `byte_arrays.dfy`, `realloc.dfy`, `sql_log.dfy` | stores into byte arrays, buffers appended to in place, and the log writer over them |

**How concurrency is modelled.** The program switches tasks only where it awaits. Each method stands for one
stretch between two such places, and each keeps the invariant of its class; a run is any sequence of
calls. `Session.Run`, `Pool.Run`, `SqlLog.Run` and `Interval.Run` take any list of events. The network is the sequence of
bytes that will arrive, in chunks of any size; a compressor is any pair of functions with the round trip
and the length bound that the source relies on; the server is an automaton that may answer, refuse,
or be lost before or after it acted; time is a parameter.

**Where the code does not keep its promise.** The model follows the code; each of these is a lemma, a contract or a run:

- A blob that is allowed to wait and does not fit behind its packet leaves a tail in the buffer that the next packet
  overwrites (`Wire.BytesThenPacket`, if and only if).
- Discarding a packet after a queued one loses the queued one (`Wire.DiscardThenPacket`, if and only if).
- The reserve of 12 bytes is too small for the execution packet (`StmtExecute.ReserveIsShort`); the exact condition is
  in `StmtExecute.SendExecutePacket`.
- An integer that does not fit 64 bits, or a date with a field that does not fit its bytes, is sent as another value
  (`StmtServer.ValueComesBack`, if and only if; `StmtServer.TooBig`).
- Session points are numbered anew after a rollback. A point rolled back to while it waited is forgotten, so a second rollback to
  it fails, or restores an older point of the same name, and what was done since is lost
  (`TrxQueue.ForgottenPoint`, `TrxQueue.OlderNamesake`, and for every input `TrxQueue.ExactlyWhenAllowed`).
- While START waits, a rollback to the beginning forgets the transaction, and a point behind one of the other kind is not found
  (`TrxQueue.ExactlyWhenAllowed`).
- XA COMMIT that fails is followed by a rollback of that participant alone. Of the participants that are still connected
  exactly those have committed whose COMMIT succeeded (`Session.Session.Turn`); `Session.PartialCommit` is a run in which
  one has and one has not.
- A START that is lost on a connection just taken from the pool is sent again on another connection under the ID with the
  old number (`TwoPhase.IdNamesConnection`, if and only if; `Session.ResentStart`). The cleaner goes by that number, so it
  can roll back a transaction whose connection lives (`XaId.RightWhenStartedHere`, if and only if;
  `XaId.LiveTakenForDangling`).
- A freed slot wakes nobody while other DSNs are busy with as many connections as its limit (`Pool.LostWakeUp`).
- Returning a connection twice gives up another one with the same DSN object (`Pool.Pool.ReturnProtocol`, if and only if
  one is in use; over runs `Pool.Run`; `Pool.ReturnedTwice`).
- A connection that was cut off by force is queued again when the attempt to take care of it fails; but the
  interval that would come back to it is stopped just before, if nothing else is in the pool (`Pool.Pool.RetryFails`, if
  and only if; `Pool.RetryForgotten`).
- With 0x8000 failed attempts in one second the counter reads as negative (`Health.TooManyFailures`, if and only if), and
  so can the share of successes (`Health.NegativeShare`).
- An interval that is stopped and started inside its callback runs two callbacks, and its disposal waits for one
  (`Interval.StoppedInCallback`; for every run `Interval.DisposalWaitsForAll`, if and only if).

## Model

| member | source | states |
|---|---|---|
| `Utf8.Utf8StringLength` | private/utf8_string_length.ts:1-19 | the loop over UTF-16 code units gives the length of the UTF-8 encoding, for every string, lone surrogates included |
| `Utf8.EncodeIsUtf8` | private/my_protocol_reader_writer.ts:477-617 | what the writer puts out for a string decodes, as UTF-8 (RFC 3629, section 3), to the scalar values of the string, each lone surrogate as U+FFFD |
| `Utf8.FitsCuts` | private/my_protocol_reader_writer.ts:528-542 | stopping before the first character that does not fit cuts the encoding between characters: the two parts of the string encode to the two parts of the bytes |
| `Utf8.EncodeBounds` | private/my_protocol_reader_writer.ts:478-482 | the encoding is at most 3 bytes a code unit, so the guess of 4 bytes that decides whether to count exactly is safe |
| `Packets.FramesShape` | private/my_protocol_reader_writer.ts:429-466 | a payload of any length: every packet is at its place, declares 0xFFFFFF bytes or, the last one, fewer (none when the length is a multiple), has the next number and carries its part of the payload |
| `Packets.FramesReadBack` | private/my_protocol_reader.ts:244-302 | reading the framed payload gives it back whole, then what follows it, with the packet number of its last packet |
| `Packets.FramesCut` | private/my_protocol_reader_writer.ts:434-444 | taking 0xFFFFFF bytes as one packet and framing the rest with the next number is framing the whole |
| `Packets.RestAdvances` | private/my_protocol_reader.ts:911-953 | taking bytes out of the current packet takes them from the front of the logical payload, across packet boundaries |
| `Packets.RestJoins` | private/my_protocol_reader.ts:271-302 | moving the tail of a packet next to the content of the following one leaves the logical payload as it was |
| `Writer.Writer.StartWritingNewPacket` | private/my_protocol_reader_writer.ts:74-93 | an open packet is completed and stays queued; commands begin at strictly increasing offsets inside the buffer; but with nothing open the content of the buffer is forgotten |
| `Writer.Writer.QueuePacket` | private/my_protocol_reader_writer.ts:81-85 | the packet stream so far, with the open packet completed under its own number and length, is what is committed |
| `Writer.Writer.DiscardPacket` | private/my_protocol_reader_writer.ts:95-101 | the packet and the command that it begins are forgotten; the offsets that stay are below it |
| `Writer.Writer.SetHeader` | private/my_protocol_reader_writer.ts:291-295 | three bytes of length and one of the packet number modulo 256, little-endian, in place; the number goes on |
| `Writer.Writer.Send` | private/my_protocol_reader_writer.ts:297-305 | the connection gets the committed stream and the completed packet |
| `Writer.Writer.SendPackets` | private/my_protocol_reader_writer.ts:320-327 | the bytes reach the connection unchanged; compressed, each command begins a packet numbered 0 and other bytes continue the numbering modulo 256; the buffer keeps its content |
| `Writer.Writer.SendData` | private/my_protocol_reader_writer.ts:334-339 | the same for the continuation of a payload, from the buffer itself or from outside |
| `Writer.Writer.SendFullPacket` | private/my_protocol_reader_writer.ts:434-444 | one packet of exactly 0xFFFFFF bytes leaves: what remains to be sent, framed, is the same stream |
| `Writer.Writer.SendLastPacket` | private/my_protocol_reader_writer.ts:445-466 | the last short packet is sent, or waits complete in the buffer, or its tail waits without a header: which of them, exactly |
| `Writer.Writer.SendBytes` | private/my_protocol_reader_writer.ts:429-466 | for all bytes, any start in the buffer, waiting allowed or not: the stream is the framed payload, except that in one exactly described case the tail is still in the buffer |
| `Writer.Writer.SendStringPart` | private/my_protocol_reader_writer.ts:520-551 | one step of a long string: whole characters that fit, or the first bytes of a character that does not, with its other bytes carried over; at least one byte goes out |
| `Writer.Writer.SendStringChunk` | private/my_protocol_reader_writer.ts:518-551 | exactly the bytes asked for go out, though characters straddle the packet boundary; what is not sent is the rest of the encoding |
| `Writer.Writer.SendStringPacket` | private/my_protocol_reader_writer.ts:514-555 | one packet of exactly 0xFFFFFF bytes of prefix and string |
| `Writer.Writer.SendLongString` | private/my_protocol_reader_writer.ts:501-611 | the long-string loop ends, and sends the framed prefix and encoding of the string |
| `Writer.Writer.SendString` | private/my_protocol_reader_writer.ts:477-617 | every string, short or long: the stream is the framed prefix and UTF-8 of the string; left waiting exactly when it may and fits with the reserve |
| `Writer.Writer.ToCompressedPackets` | private/my_protocol_reader_writer.ts:354-409 | the output is the input packed as laid out, and lies after unread input, or at the start of the buffer, or in a new array; input in the buffer is intact |
| `Writer.Writer.PackAll` | private/my_protocol_reader_writer.ts:370-408 | the loop over commands: with the worst-case room at the start there is room at every step; the numbering is that of the layout |
| `Writer.Writer.PutPayload` | private/my_protocol_reader_writer.ts:379-392 | a part is stored compressed when it has 50 bytes or more and gets shorter, and verbatim otherwise |
| `Writer.RoomForPart` | private/my_protocol_reader_writer.ts:355-409 | before each part, its bound and a spare byte fit after the header, and the worst case of what follows them |
| `Writer.HeaderCompletes` | private/my_protocol_reader_writer.ts:291-295 | a header written in place turns the open bytes into one framed packet |
| `Compression.RoomSplits` | private/deflate_into.ts:62-72 | the bounds of both algorithms add up: the worst-case length of a whole covers a part and the worst case of the rest, for any cut |
| `Compression.LayoutTiles` | private/my_protocol_reader_writer.ts:374-406 | the compressed packets cover the data without gap or overlap, none empty and none over 0xFFFFFF |
| `Compression.LayoutKeepsCommandsApart` | private/my_protocol_reader_writer.ts:374-407 | every command begins a packet of its own numbered 0, and any other packet has the next number |
| `Compression.UnpackPacked` | private/my_protocol_reader_writer.ts:354-409 | unpacking what was packed gives the data and the last number, whatever follows |
| `Compression.UnpackJoins` | private/my_protocol_reader.ts:97-171 | unpacking a stream that comes in two parts is unpacking each, when the first ends between packets |
| `Lenenc.RoundTrip` | private/my_protocol_reader_writer.ts:163-191 | the length-encoded integer is read back as it was written, and its first byte tells its size |
| `Lenenc.NullMark` | private/my_protocol_reader.ts:592-644 | what is read is null if and only if it is the one byte 0xFB |
| `Lenenc.NullRoundTrip` | private/my_protocol_reader.ts:592-697 | a number or null, as it is written, is read back; null takes that one byte |
| `Lenenc.Shortest` | private/my_protocol_reader_writer.ts:163-191 | every form that is read as a number is at least as long as the one that is written for it |
| `Reader.Reader.RecvFrameExact` | private/my_protocol_reader.ts:144-171 | exactly the bytes of a frame, from chunks of any size; an end before the first byte is a clean end only where it may be |
| `Reader.Reader.ReadFromConn` | private/my_protocol_reader.ts:97-142 | some of the bytes that are to come, in order, ordinary or compressed; 0 at the clean end only; an error exactly for a bad or cut frame |
| `Reader.Reader.RecvAtLeast` | private/my_protocol_reader.ts:173-201 | the window grows to the bytes asked for without losing any, and stays inside the buffer; an error if and only if the stream is shorter |
| `Reader.Reader.ReadPacketHeaderSync` | private/my_protocol_reader.ts:244-258 | succeeds just when the header is in the window |
| `Reader.Reader.ReadPacketHeaderAsync` | private/my_protocol_reader.ts:260-269 | the header is taken off the stream: length and number; an error if and only if the stream ends before it |
| `Reader.Reader.CorrectNearPacketBoundary` | private/my_protocol_reader.ts:271-302 | at the edge of a full packet the next one is joined to it; the logical payload ahead is the same |
| `Reader.Reader.ReadUintSync` | private/my_protocol_reader.ts:309-360 | the fast path takes the same bytes as the slow one, or nothing |
| `Reader.Reader.ReadUint` | private/my_protocol_reader.ts:309-537 | the next bytes of the logical payload as a little-endian number, across windows and packets; an error only if the payload is cut |
| `Reader.Reader.ReadLenencIntSync` | private/my_protocol_reader.ts:592-644 | the fast path of the length-encoded integer agrees with the slow one, or takes nothing |
| `Reader.Reader.ReadLenencInt` | private/my_protocol_reader.ts:592-697 | the next length-encoded integer of the logical payload, or null |
| `Reader.Reader.ReadShortBytesSync` | private/my_protocol_reader.ts:699-728 | the slice from the window, also across a packet boundary inside it, or nothing taken |
| `Reader.Reader.ReadShortBytes` | private/my_protocol_reader.ts:699-756 | the next slice of the logical payload, wherever packet boundaries are |
| `Reader.Reader.ReadBytesToBuffer` | private/my_protocol_reader.ts:911-952 | the array is filled with the next bytes of the logical payload |
| `Reader.Reader.ReadVoid` | private/my_protocol_reader.ts:954-996 | exactly so many bytes of the logical payload are skipped |
| `Wire.RunReads` | private/my_protocol_reader.ts:592-996 | any sequence of integer, length-encoded, short, bulk and skip reads returns the consecutive slices of the payload |
| `Wire.ReadFramed` | private/my_protocol_reader.ts:97-302 | from one end to the other: any payload, framed, compressed or not, in any chunks, is read back by any reads inside it |
| `Wire.PackedReadsBack` | private/my_protocol_reader.ts:97-171 | what the writer packs is unpacked to the data, a clean end and the number it leaves |
| `Wire.ReadToEnd` | private/my_protocol_reader.ts:97-171 | with views of any sizes, all that is to come is delivered, and a clean end exactly for a clean stream |
| `Wire.CompressedRoundTrip` | private/my_protocol_reader_writer.ts:354-409 | for all data, increasing command offsets and view sizes: the reader gets the data, the end, and the same compressed number as the writer |
| `Wire.StringReceived` | private/my_protocol_reader_writer.ts:477-617 | from the writer to the reader: a command with a prefix and any string, cut and compressed, is read as the slices of prefix and UTF-8 by any reads inside it |
| `Wire.BytesReceived` | private/my_protocol_reader_writer.ts:429-466 | the same for any bytes |
| `Wire.BytesThenPacket` | private/my_protocol_reader_writer.ts:458-464 | long bytes and then another packet: nothing is lost if and only if no tail was left in the buffer without a header |
| `Wire.StringThenPacket` | private/my_protocol_reader_writer.ts:477-617 | a string and then another packet: nothing is ever lost |
| `Wire.DiscardThenPacket` | private/my_protocol_reader_writer.ts:74-101 | a packet begun after a queued one and discarded: the queued one survives the next beginning if and only if there was none |
| `StmtExecute.SizesAreLength` | private/my_protocol.ts:1470-1611 | the length summed in the first pass is the length of the values written in the last |
| `StmtExecute.BodyLength` | private/my_protocol.ts:1468-1611 | the announced payload length is the length of bitmap, flag, types and values |
| `StmtExecute.BodyLayout` | private/my_protocol.ts:1617-1793 | each parameter has its null bit, its type and its value where the server looks for them |
| `StmtExecute.SendBitmap` | private/my_protocol.ts:1624-1651 | with flushes in between, the bytes out are the null bitmap and the flag; it fails if and only if the unguarded bytes do not fit |
| `StmtExecute.SendTypes` | private/my_protocol.ts:1652-1695 | with flushes in between, the bytes out are the types |
| `StmtExecute.SendValues` | private/my_protocol.ts:1696-1793 | with flushes in between, the bytes out are the values, and no store leaves the buffer |
| `StmtExecute.SendExecutePacket` | private/my_protocol.ts:1612-1800 | the flushed chunks are one well-formed packet of the announced length, if and only if it is below 0xFFFFFF and the buffer has room for header, fixed bytes and unguarded bytes |
| `StmtExecute.SendStreamed` | private/my_protocol.ts:1529-1592 | a stream goes as commands of its own, with its content in order; an empty one discards its packet |
| `StmtExecute.SendComStmtExecute` | private/my_protocol.ts:1467-1800 | the whole command, for any parameter list: when it succeeds, exactly; and that its stream is complete exactly if no step loses queued bytes |
| `StmtExecute.ReserveIsShort` | private/my_protocol_reader_writer.ts:10 | the reserve of 12 bytes does not give the execution packet the room that it needs: a parameter list that shows it |
| `StmtExecute.Losses` | private/my_protocol.ts:1529-1592 | an empty stream, or a blob that does not fit, after a waiting packet loses it |
| `StmtServer.ValueComesBack` | private/my_protocol.ts:1652-1793 | a decoder written as the server reads gives back each kind of parameter from its type and its value, exactly as it was meant if and only if the protocol has a form for it (64-bit integers, dates whose fields fit) |
| `StmtServer.TooBig` | private/my_protocol.ts:1728-1735 | an instance of what has no form: the integer 2^64 is taken for 0 |
| `StmtServer.ParamsComeBack` | private/my_protocol.ts:1624-1793 | from the null bitmap, the types, the values and the data that came ahead, every parameter is understood |
| `StmtServer.BodyComesBack` | private/my_protocol.ts:1612-1793 | the execution packet is read back: the statement, one iteration, no cursor, and the parameter list |
| `StmtServer.PieceServed` | private/my_protocol.ts:1564-1592 | a piece of a long parameter is gathered for its statement and its parameter, by number |
| `StmtServer.LongsServed` | private/my_protocol.ts:1468-1611 | the pieces of all long parameters are gathered, each for its own, in order |
| `StmtServer.CommandServed` | private/my_protocol.ts:1467-1800 | the whole packet stream of the command, served: the statement and the list of parameters, each as it was meant if and only if it is in range; nothing that follows is taken |
| `StmtServer.Execute` | private/my_protocol.ts:1467-1800 | the same of what the writer sends: unless something was lost, what waited is intact and the server understands the command |
| `Rows.SerializeMask` | private/my_protocol_reader_writer_serializer.ts:27-48 | the null bitmap, from bit 2, for any number of columns |
| `Rows.SerializeRow` | private/my_protocol_reader_writer_serializer.ts:26-204 | bitmap and values of any row that fits |
| `Rows.SerializeRowBinary` | private/my_protocol_reader_writer_serializer.ts:187-212 | any row, with a last column of any length: kept in the packet exactly when it fits and fills less than half of the buffer; otherwise the stream has the framed row, and a new packet begins |
| `Rows.DeserializeRow` | private/my_protocol_reader_writer_serializer.ts:229-453 | the row comes back, NULLs and all column kinds, and exactly its bytes are consumed; a value over the limit becomes NULL |
| `Rows.RowReceived` | private/my_protocol_reader_writer_serializer.ts:26-453 | a row written, sent under any compression and read at the other end is the row |
| `Rows.DeserializeRows` | private/my_protocol_reader_writer_serializer.ts:229-453 | rows in a row come back as the list |
| `Rows.ReadTime` | private/my_protocol_reader_writer_serializer.ts:358-379 | TIME comes back to the microsecond, with its sign |
| `Rows.ReadDate` | private/my_protocol_reader_writer_serializer.ts:312-357 | a date comes back in all components, though trailing zero parts are not sent |
| `Bits.BitmapBit` | private/my_protocol_reader_writer_serializer.ts:249-262 | the bit of a flag is in the byte and at the place where the reader looks |
| `Bits.FillingGoes` | private/my_protocol.ts:1624-1650 | one step of the running mask: the bytes so far and the mask make up the bitmap of the flags seen |
| `RowValues.IntegerMeans` | private/my_protocol_reader_writer_serializer.ts:53-87 | read by the rules of the protocol, without the reader: a number of any width comes out with its sign |
| `RowValues.DateMeans` | private/my_protocol_reader_writer_serializer.ts:94-150 | the same for dates: year, month and day, then hour, minute and second, then microseconds, as many as are needed |
| `RowValues.SpanMeans` | private/my_protocol_reader_writer_serializer.ts:152-182 | the same for TIME: sign, days, hours, minutes, seconds, microseconds |
| `RowValues.BytesMean` | private/my_protocol_reader_writer_serializer.ts:187-204 | the same for bytes behind their length |
| `TextRows.ReadColumn` | private/my_protocol_reader_writer_serializer.ts:457-529 | a column of a text row: null, its text, or nothing of a text over the limit; an error if and only if the length is not a safe integer |
| `TextRows.DeserializeRowText` | private/my_protocol_reader_writer_serializer.ts:457-529 | a text row comes back whole, with its NULLs, whatever packets and chunks it comes in, and exactly its bytes are consumed |
| `Ed25519.ModPow` | private/ed25519.ts:35-50 | square-and-multiply gives the power modulo the modulus, for every exponent (none or negative gives 1) |
| `Ed25519.PointAddExtended` | private/ed25519.ts:54-66 | the sum of two points on the curve in extended coordinates is on it (both equations: X*Y = Z*T and the Edwards equation), with no condition on the inputs but that |
| `Ed25519.PointMul` | private/ed25519.ts:68-80 | double-and-add, and every point on the way is on the curve (RFC 8032, section 5.1.4) |
| `Ed25519.BytesToBigIntLE` | private/ed25519.ts:130-136 | the little-endian number of the bytes |
| `Ed25519.BigIntToBytes32LE` | private/ed25519.ts:138-146 | the 32 bytes of the number: the inverse, below 2^256 |
| `Ed25519.DecodedIsExtended` | private/ed25519.ts:96-128 | whatever is decoded is a point on the curve with the given y and, modulo an odd prime, an x of the asked parity, for any 32 bytes |
| `Ed25519.EncodePoint` | private/ed25519.ts:82-94 | the encoding: y and the parity of x |
| `Ed25519.DecodePoint` | private/ed25519.ts:96-128 | decoding, with all its rejections |
| `Ed25519.Ed25519Sign` | private/ed25519.ts:186-196 | the signature of RFC 8032, section 5.1.6 |
| `Ed25519.Ed25519Verify` | private/ed25519.ts:198-216 | the check of RFC 8032, section 5.1.7, for any input lengths |
| `Ed25519Laws.PointAddIsSum` | private/ed25519.ts:54-66 | by their two coordinates, the sum of two points is the one of the addition law of the curve (RFC 8032, section 5.1.4) |
| `Ed25519Laws.MulValue` | private/ed25519.ts:68-80 | the product stands for the n-fold sum in the group |
| `Ed25519Laws.EncodedMeans` | private/ed25519.ts:82-94 | the 32 bytes of a point are the number y + 2^255 times the parity of x, of its two coordinates |
| `Ed25519Laws.DecodeUndoesEncode` | private/ed25519.ts:82-128 | every point of the curve comes back from its bytes, by its two coordinates: the square root is found and has the right parity |
| `Ed25519Laws.EncodeUndoesDecode` | private/ed25519.ts:96-128 | any 32 bytes that are decoded are a point of the curve, and its encoding is those bytes: every point has one encoding |
| `Ed25519Laws.EncodesAlike` | private/ed25519.ts:82-94 | two points have the same bytes if and only if they stand for the same element of the group |
| `Ed25519Laws.ClampMeans` | private/ed25519.ts:166-174 | the secret scalar is the first half of the hash with its three low bits cleared, the top bit cleared and the next one set: a multiple of 8 between 2^254 and 2^255 |
| `Ed25519Laws.SignatureMeans` | private/ed25519.ts:186-196 | the bytes of a signature by the hash alone: the key stands for a times the base point; the first half for r times it, r the hash of the second half of the hashed seed and of the message; the second half is (r + k a) modulo the order, k the hash of the first half, the key and the message |
| `Ed25519Laws.VerifyMeans` | private/ed25519.ts:198-216 | a signature is accepted if and only if the lengths are right, s is below the order, both points decode, and s*B = R + k*A in the group |
| `Ed25519Laws.SignatureVerifies` | private/ed25519.ts:186-216 | for every seed and message the signature verifies |
| `Ed25519Laws.EquationHolds` | private/ed25519.ts:198-216 | the equation s*B = R + k*A on the encoded and decoded points |
| `Ed25519Laws.TimesMod` | private/ed25519.ts:186-196 | reducing a scalar modulo the order does not change its multiple of the base point |
| `Ed25519.Constants` | private/ed25519.ts:11-22 | the prime is 2^255 - 19, D is -121665/121666, SQRT_M1 squares to -1, and the base point is on the curve, with y = 4/5, an even x, and T = X*Y |
| `Bytes.FromLEofLE` | private/ed25519.ts:130-146 | bytes to number of number to bytes, reduced to the width |
| `TwoPhase.CommitAfterEveryPrepare` | private/my_session.ts:212-252 | in a safe log: where XA COMMIT is sent, every XA PREPARE of the transaction on any connection was sent before and answered OK in between |
| `TwoPhase.FailedPrepareCommitsNowhere` | private/my_session.ts:235-246 | a PREPARE that never got its OK: no connection ever sends COMMIT |
| `TwoPhase.SafeMeans` | private/my_session.ts:212-252 | the same for all places of the log at once |
| `TwoPhase.IdNamesConnection` | private/my_conn.ts:721-735 | the ID in a statement has the number of the connection it runs on if and only if START of the transaction was first sent on that connection |
| `TwoPhase.VotingResumes` | private/my_conn.ts:563-574 | whatever the answer to END or PREPARE, the connection keeps its invariant: prepared exactly when both were accepted |
| `TwoPhase.UndoingResumes` | private/my_conn.ts:610-641 | whatever the answer to END or ROLLBACK: no transaction is left at the server, or the connection is given up |
| `TwoPhase.XaDecidingResumes` | private/my_conn.ts:649-695 | whatever the answer to COMMIT and to the ROLLBACK after it: committed, rolled back, or given up |
| `TwoPhase.PlainDecidingResumes` | private/my_conn.ts:666-695 | the same for an ordinary transaction: durable at the server if and only if its COMMIT succeeded, on a connection that is kept |
| `TwoPhase.StakeTaken` | private/my_conn.ts:649-665 | what is at stake in a round of commits or rollbacks is the ordinary transaction that the server has open when it begins |
| `TwoPhase.PrepareKeeps` | private/my_conn.ts:563-574 | who is asked to prepare, and what is sent at once |
| `TwoPhase.RollbackKeeps` | private/my_conn.ts:610-641 | ROLLBACK from every state that a connection can be in when it is called |
| `TwoPhase.CommitKeeps` | private/my_conn.ts:649-680 | after a unanimous vote each connection with an open distributed transaction is prepared, so "prepare first" is never thrown |
| `Session.Session.Commit` | private/my_session.ts:212-246 | the vote begins on every connection, or a refused commit is rolled back on every one: their new states and all that is sent |
| `Session.Session.PrepareAll` | private/my_session.ts:236-242 | every connection has begun its part, and the log has what each of them sent |
| `Session.Session.CommitAll` | private/my_session.ts:247-251 | COMMIT is sent only after a unanimous vote, connection by connection; at stake is the ordinary transaction that each server had open |
| `Session.Session.RollBack` | private/my_session.ts:158-195 | every connection has begun to roll back the whole transaction, from rest or after a failed vote |
| `Session.Session.Answer` | private/my_conn.ts:563-695 | one answer, to any connection at any time: the invariant of the session stays |
| `Session.Session.Turn` | private/my_session.ts:256-280 | a failed vote leads to rollback of all, commit of none, and a rejected call; after the commits, a participant that is still connected has committed if and only if its COMMIT succeeded, and the call succeeds if and only if all did; the same of the ordinary transaction that it had open, and after the rollbacks none of these is durable |
| `Session.Session.Begin` | private/my_session.ts:107-120 | the new transaction on all connections, none of which has one open |
| `Session.Session.Open` | private/my_session.ts:77-91 | a new connection joins the transaction of the session |
| `Session.Session.StartTrx` | private/my_session.ts:97-120 | the current transaction is committed first |
| `Session.Session.Query` | private/my_conn.ts:702-746 | the whole new state: START goes out before the first query of a connection, under an ID that gets its number then; one that breaks when it was just taken from the pool is replaced, and START waits on under the same ID |
| `Session.FirstQuery` | private/my_conn.ts:721-746 | START goes out before the first query, which runs in the transaction of the session: an ordinary one, or the distributed one under the number of the connection |
| `Session.AllInRound` | private/my_session.ts:56-280 | every statement goes in its round: PREPARE in the vote, COMMIT in the commits, the ordinary ROLLBACK in a rollback or right after a COMMIT that failed |
| `Session.Run` | private/my_session.ts:56-280 | any run, with any answers in any order: commits follow prepares, and there is none without every grant; on each connection the statements of a transaction go START, END, PREPARE, then COMMIT or ROLLBACK; and an ID names its connection just when START was first sent there; every statement goes in its round, an ordinary ROLLBACK only in a rollback or right after a COMMIT that failed |
| `Session.PartialCommit` | private/my_session.ts:247-251 | a run that ends with one prepared participant committed and the other rolled back |
| `Session.ResentStart` | private/my_conn.ts:721-735 | a run that prepares on connection 8 a transaction whose ID has the number 7 |
| `TrxQueue.LazyRefinesEager` | private/my_conn.ts:583-737 | for every sequence of operations that keeps the stated rules, every query sees the contents, and every rollback has the outcome, of sending each statement at once |
| `TrxReference.WholeTransaction` | private/my_conn.ts:610-695 | of the reference, whatever happens in a transaction: giving it up, or going back to its beginning, brings back the contents from before it, and committing keeps what it has |
| `TrxReference.PointRestored` | private/my_conn.ts:602-608 | of the reference: rolling back to a point brings back the contents from when it was made, whatever happened since, and the transaction goes on |
| `TrxReference.PointStays` | private/my_conn.ts:550-554 | of the reference: a point stays as long as nothing goes back |
| `TrxQueue.OneStep` | private/my_conn.ts:583-737 | one operation keeps the queue in agreement with the reference |
| `TrxQueue.ExactlyWhenAllowed` | private/my_conn.ts:583-647 | the rules are exact, for forgotten points too: an operation gets the same reply and keeps the agreement if and only if it keeps them; set apart is only an older namesake of the same contents |
| `TrxQueue.StaleDiffers` | private/my_conn.ts:583-608 | going back to a forgotten point that one of the two still has: another reply, or other contents |
| `TrxQueue.CutAlike` | private/my_conn.ts:590-601 | cutting the queue at a point that waits is rolling back to it |
| `TrxQueue.BackToAlike` | private/my_conn.ts:602-608 | rolling back at the server, after the queue was sent |
| `TrxQueue.SavepointAlike` | private/my_conn.ts:550-554 | a new point, also under a name that is in use |
| `TrxQueue.ForgottenPoint` | private/my_conn.ts:590-601 | a point rolled back to while it waited: the second rollback to it fails |
| `TrxQueue.OlderNamesake` | private/my_session.ts:143-190 | session points are numbered anew after a rollback: then the second rollback restores older contents |
| `TrxQueue.MyConn.StartTrx` | private/my_conn.ts:484-526 | the queue is START alone; an open transaction is committed |
| `TrxQueue.MyConn.AddSavepoint` | private/my_conn.ts:550-554 | the point waits under the next number |
| `TrxQueue.MyConn.SendPending` | private/my_conn.ts:721-737 | the waiting statements reach the server in order |
| `TrxQueue.MyConn.DoQuery` | private/my_conn.ts:702-746 | a query comes after all that waited |
| `TrxQueue.MyConn.RollbackToPoint` | private/my_conn.ts:583-608 | the scan from the end, the cut, or the statement |
| `TrxQueue.MyConn.RollbackAll` | private/my_conn.ts:610-646 | the whole transaction, or back to its beginning |
| `TrxQueue.MyConn.Commit` | private/my_conn.ts:649-695 | COMMIT if a transaction is open, and nothing waits after it |
| `Pool.Pool.GetProtocol` | private/my_pool.ts:288-320 | a slot is given just when the DSN has one; otherwise the caller waits, unless its time is over or the queue is full; what it gets was idle under the same hash or, with a schema, on the same host, and was opened to that host |
| `Pool.Pool.TakeOrConnect` | private/my_pool.ts:321-355 | the slot is filled with a connection that was idle and is nobody else's, or with a new one; expired ones are closed on the way |
| `Pool.Pool.FindIdle` | private/my_pool.ts:322-328 | an idle connection of the DSN, or one that was idle on the same host if the DSN has a schema; none if and only if there is none |
| `Pool.Pool.StealIdle` | private/my_pool.ts:405-415 | taken from another DSN: it was idle, its DSN had the same host, and it was opened to that host |
| `Pool.Pool.Connected` | private/my_pool.ts:330-355 | a new connection: the counts stay in step, and it leads to the host of its DSN |
| `Pool.Pool.NotConnected` | private/my_pool.ts:337-342 | a failed attempt frees its slot |
| `Pool.Pool.ReturnProtocol` | private/my_pool.ts:373-403 | the connection that comes back is the one released; another one is if and only if it is not in use itself and one with the same DSN object is |
| `Pool.Pool.Release` | private/my_pool.ts:392-394 | the last takes the place of the one that goes; nobody else is lost |
| `Pool.Pool.WaitHaveSlots` | private/my_pool.ts:417-429 | the queue stays within its limit |
| `Pool.Pool.CloseHaveSlotsTimedOut` | private/my_pool.ts:464-475 | exactly those leave the queue whose time has come |
| `Pool.Pool.DecNBusyAll` | private/my_pool.ts:443-462 | waiters are woken only when their DSN has a free slot; exactly when the whole pool is below its limit |
| `Pool.Pool.ConnClosed` | private/my_pool.ts:431-441 | a connection closed in the background counts as busy until then |
| `Pool.Pool.CloseIdle` | private/my_pool.ts:489-500 | exactly the expired idle connections go |
| `Pool.Pool.CleanAll` | private/my_pool.ts:485-507 | over all entries; with `closeAllIdle` no idle connection is left |
| `Pool.Pool.CommonTask` | private/my_pool.ts:480-538 | each connection to take care of is asked for or, when its DSN is full, waits; none is counted twice; the interval stops only with nothing left to look after |
| `Pool.Pool.RetryFails` | private/my_pool.ts:519-530 | the attempt to take care of a connection fails and is queued again; the interval is stopped then if and only if nothing else is in the pool |
| `Pool.RetryForgotten` | private/my_pool.ts:508-535 | a run that ends so: the interval is stopped, and a connection waits to be taken care of |
| `Pool.Run` | private/my_pool.ts:288-538 | any tasks in any interleaving: counts exact and within their limits; each connection in use has one holder and nobody else holds any, up to the first event that gives back what is not held while another of that DSN is: then, and only then, a holder loses a connection; and whoever asked for a connection got one that was opened to the host that he asked for |
| `Pool.ReturnedTwice` | private/my_pool.ts:373-403 | two connections of a DSN, the first given back twice: the second is released |
| `Pool.OneDsnWakes` | private/my_pool.ts:443-462 | with one DSN, waiters are woken just when there is a free slot |
| `Pool.LostWakeUp` | private/my_pool.ts:456-461 | with more, they sleep on though a slot is free, while other DSNs are busy enough |
| `Pool.LostWakeUpExample` | private/my_pool.ts:456-461 | an instance of it |
| `SwapRemove.Filter` | private/my_pool.ts:464-475 | filtering by moving the last element into the gap keeps and drops exactly the right ones |
| `Realloc.ReallocAppend` | private/realloc_append.ts:1-29 | the view is the old bytes and the data, though the data lies in the same buffer; a view at the start of its buffer is never touched |
| `Realloc.ShiftAndAppend` | private/realloc_append.ts:12-21 | shifting to the beginning, with the data copied first if it is in the way |
| `Realloc.Prepend` | private/sql_log_to_writable_base.ts:121-136 | the banner before the view, in place if there is room |
| `SqlLog.SqlLogToWritable.Write` | private/sql_log_to_writable_base.ts:36-73 | what is logged is appended for its connection; the flush runs; the caller waits only while it runs |
| `SqlLog.SqlLogToWritable.AppendToBuffer` | private/sql_log_to_writable_base.ts:61-63 | the view that the sink is reading shows the same |
| `SqlLog.SqlLogToWritable.StartWrite` | private/sql_log_to_writable_base.ts:102-145 | all that waits for a connection, after its banner if the sink was at another |
| `SqlLog.SqlLogToWritable.Land` | private/sql_log_to_writable_base.ts:144-155 | what reached the sink is what the write began with; the rest waits |
| `SqlLog.SqlLogToWritable.Written` | private/sql_log_to_writable_base.ts:75-165 | one write done: nothing logged is lost, in any interleaving |
| `SqlLog.SqlLogToWritable.Next` | private/sql_log_to_writable_base.ts:76-97 | those who wait go on if and only if the memory is below the limit; the flush stops just when nothing is left |
| `SqlLog.SqlLogToWritable.Failed` | private/sql_log_to_writable_base.ts:159-164 | after a failure nobody is left waiting, and what was sent is still the beginning of what was logged |
| `SqlLog.SqlLogToWritable.AllWritten` | private/sql_log_to_writable_base.ts:36-165 | when the flush has stopped, the bytes sent for each connection, banners removed, are the bytes logged for it, in order |
| `SqlLog.Run` | private/sql_log_to_writable_base.ts:36-165 | any interleaving of logging, writes, a failure and the disposal: what was sent for each connection is at any time the beginning of what was logged for it, and all of it when the flush has stopped with no failure |
| `SqlLog.AppendKeeps` | private/sql_log_to_writable_base.ts:61-63 | appending keeps sent, being sent and waiting equal to logged |
| `SqlLog.LandingKeeps` | private/sql_log_to_writable_base.ts:144-155 | so does the end of a write |
| `Health.HealthStatus.Log` | private/health_status.ts:14-42 | the whole new ring; it stays exact for one more attempt in a second that had fewer than 0xFFFF successes or 0x7FFF failures |
| `Health.HealthStatus.Clear` | private/health_status.ts:22-30 | the slots of the seconds between are cleared, round the end of the array |
| `Health.HealthStatus.GetHealthStatusForPeriod` | private/health_status.ts:44-68 | the share of successes by the counters of the last seconds, at any time; when these are exact, the share among exactly the attempts |
| `Health.HealthStatus.ExactSums` | private/health_status.ts:55-66 | exact counters sum to the attempts of the last seconds |
| `Health.HealthStatus.Sum` | private/health_status.ts:55-66 | the sums over the last counters, back round the start as often as it takes |
| `Health.TooManyFailures` | private/health_status.ts:65 | the packed counter reads right if and only if there are fewer than 0x8000 failures |
| `Health.BumpPastTheEnd` | private/health_status.ts:33-39 | the counter of failures grows up to 0x8000, that it cannot hold |
| `Health.NegativeShare` | private/health_status.ts:14-68 | one success and 0x8000 failures in one second: the share is -1/32767 |
| `Health.BumpCounts` | private/health_status.ts:33-39 | one more attempt in the packed counter |
| `Health.ShareMeans` | private/health_status.ts:44-68 | the share is the quotient: times all attempts it gives the successes, between 0 and 1; with no attempts it is not a number |
| `XaId.DecodeId` | private/xa_id_gen.ts:8-32 | decoding a printed ID with its connection number gives time, process and connection, if and only if the time is at least 36^4 |
| `XaId.DecodesForms` | private/xa_id_gen.ts:21-32 | what is decoded: exactly the texts of the form time, process and connection, to their last character |
| `XaId.IdInjective` | private/xa_id_gen.ts:8-19 | IDs of one process tell time and number apart |
| `XaId.XaIdGen.Next` | private/xa_id_gen.ts:8-19 | an ID that was never issued, as long as the clock does not go back |
| `XaId.DropAllAlive` | private/my_pool.ts:562-574 | the in-place filter keeps exactly the entries whose connection was not listed |
| `XaId.FindDangling` | private/my_pool.ts:541-585 | what is rolled back: exactly the prepared transactions of the library whose ID has the number of a dead connection; right for the connection that it runs on if and only if both are alive or both dead |
| `XaId.OwnIsRecovered` | private/my_pool.ts:548-561 | a transaction that this library prepared is among those looked at, with the number that was appended to its ID |
| `XaId.RightWhenStartedHere` | private/my_pool.ts:541-585 | the cleaner decides rightly about a prepared transaction, whichever connections are alive, if and only if its START was first sent on its connection |
| `XaId.LiveTakenForDangling` | private/my_pool.ts:562-585 | a transaction of the live connection 8 under an ID with the number 7 is taken for dangling |
| `Interval.AllAccounted` | private/interval.ts:26-79 | the callbacks that run are the one that the state knows about and those that the interval was stopped in the middle of |
| `Interval.DisposalWaitsForAll` | private/interval.ts:72-79 | what a disposal waits for is all that runs if and only if no callback runs that the interval was stopped in the middle of |
| `Interval.Interval.Start` | private/interval.ts:26-63 | a timer is set exactly when the state is Active |
| `Interval.Interval.Stop` | private/interval.ts:65-70 | stopping; during a callback it leaves one that the state does not know about |
| `Interval.Interval.Dispose` | private/interval.ts:72-79 | disposed of, with no timer left; what it waits for is all that runs if and only if the interval was tidy |
| `Interval.Interval.Fire` | private/interval.ts:29-34 | the only timer fires, and none is left; one callback runs then if and only if the interval was tidy |
| `Interval.Interval.CallbackEnd` | private/interval.ts:35-50 | the callback again, or the timer again, or the end of the wait |
| `Interval.Run` | private/interval.ts:26-79 | any run: never more than one timer; once disposed of, terminated with no timer to the end; tidy if and only if no callback runs that it was stopped in the middle of, and so if it is never stopped while one runs |
| `Interval.StaysActive` | private/interval.ts:26-63 | started, and neither stopped nor disposed of since, it has its timer set or runs its callback, after any events |
| `Interval.StoppedInCallback` | private/interval.ts:65-79 | stopped and started again inside its callback, it runs two, and the wait ends after one |

## Left out

- Writer.Writer.SendBytes: the case of a tail that waits without a header is described and not called sent; `Wire.BytesThenPacket` says what becomes of it.
- The branch of `sendWithData` for readable streams: at an exact multiple of 0xFFFFFF it stops without the final empty packet, so it has another packet shape.
- The reallocation of the buffer by `ensureRoom()`, the logging callbacks of `sendWithData`, and failed writes to the connection.
- Reads up to a NUL, up to the end of the packet, and of short length-encoded bytes; they would repeat the shape of the reads that are modelled.
- A read of 0 bytes that is not the end of the stream, and the reuse of the frame buffer between reads.
- Switching to compression during the login, sockets, TLS, zlib, zstd, SHA-512 and RSA, `TextDecoder`, the DSN parser and SQL colouring: foreign code, or code without hard properties.
- Floating point: FLOAT and DOUBLE columns and parameters are their bytes; fractions of a second are whole microseconds; time zones and the text form of dates are not modelled.
- Rows.SerializeRow: the row fits the buffer. The source assumes this of the columns of fixed size without a check. For length-encoded columns it checks: a last column that does not fit is sent behind the packet, which is `Rows.SerializeRowBinary`; for an earlier one the buffer is reallocated, which is not modelled.
- Rows.SerializeRowBinary: all of the row but the bytes of its last column fits the buffer.
- Ed25519Laws.SignatureVerifies: hypotheses (`CurveLaws`) are that the field has no zero divisors, Fermat's little theorem, that the addition law makes the points a group and never divides by zero, and the order of the base point. They are about numbers and speak of no function of the program. SHA-512 is any function to 64 bytes.
- StmtServer.ValueComesBack: numbers in floating point are their 8 bytes; integers outside of 64 bits and dates whose fields do not fit are set apart by the condition, not refused, as in the source.
- StmtServer.CommandServed: statement numbers below 2^32 and at most 65536 parameters, as many as the protocol can number.
- TextRows.DeserializeRowText: the columns are texts; their conversion to numbers and dates, the last column that is left to a stream reader, and rows that are skipped are not part of the model.
- RowValues.IntegerMeans: and the lemmas beside it speak of values; floating point is its bytes, and bit columns are read by the program only.
- Writer.Writer.SendString: buffers have 32 to 0xFFFFFF bytes.
- Session.Session.Commit: `andChain` is not part of the session model.
- Session.Session.RollBack: the rollback of a session to a point or to its beginning is not part of the session model; points are modelled on one connection, in the queue.
- Session.Session.Turn: of a participant that was lost in the middle of its COMMIT nothing is said, as the server can have done it or not. Of an ordinary transaction that the server had undone before the session committed nothing is said either.
- Session.Session.Query: queries are awaited one at a time, and none runs while the session commits or rolls back; a query is what it does to the transaction, not its result.
- A connection of a session is a value in the list `conns` that is replaced at each step; references to it from elsewhere are not modelled.
- What the pool does with a connection that a session gives up in a prepared transaction; the transaction stays at the server until the cleaner finds it.
- TrxQueue.LazyRefinesEager: the server accepts every START and SAVEPOINT; statements that commit implicitly are not modelled, nor the loss of the connection.
- TrxQueue.ExactlyWhenAllowed: sets apart going back to an older namesake of a forgotten point when both have the same contents: the two agree at that moment, and whether they will differ depends on what is asked later.
- Pool.Pool.CleanEntry: an entry is deleted only while nobody sleeps on it. The source can delete one under a sleeping caller, that then goes on with an entry that the pool does not know.
- Pool.Run: an entry on which somebody sleeps is taken to have a health that is not empty, so that it is not deleted.
- Pool.Pool.GetProtocol: DSNs are not edited while they are in use, and two that differ have different hashes, so the hash decides the limit and the host. The source has 32 bits of hash.
- Pool.Pool.ReturnProtocol: a connection that is used again leads to the host of the Dsn that comes back with it.
- The pool's disposal, `useCnt` beyond the wake-up of the end, the retries of a connection attempt, and a deferred KILL or XA ROLLBACK after the connection that drains it.
- SqlLog.SqlLogToWritable.Write: the banner of a connection is a constant; the order in which connections are taken is any, with the same DSN first.
- Health.HealthStatus.GetHealthStatusForPeriod: the period is whole seconds; when time goes back, the contract speaks of the counters only.
- XaId.XaIdGen.Next: time and numbers are whole and unbounded, as they are below 2^53 in the source.
- XaId.FindDangling: the server answers which of the connections it was asked about are alive at that moment; the rollbacks themselves can fail, and are only logged.
- Interval.Interval.Dispose: a second disposal during a callback has nothing to wait for, as in the source.
