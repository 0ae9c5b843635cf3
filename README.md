# clamd client protocol core

A Dafny model of the protocol logic in `ClamdClient`, a Java client for the
clamd anti-virus daemon. The model covers:

- the commands the client sends (`zPING\0`, `zRELOAD\0`, `zSHUTDOWN\0`,
  `zVERSION\0`, `zVERSIONCOMMANDS\0`, `zINSTREAM\0`);
- `writeToChannel`, which writes a buffer under a deadline;
- `readFromChannel`, which assembles a NUL-terminated reply from socket reads
  into a 4096-byte buffer that is flipped but never cleared;
- the INSTREAM upload: 4-byte big-endian length frames of at most 4096 bytes,
  followed by a zero-length terminator;
- the deadline test `isTimeout` in Java `long` arithmetic;
- the reply rules: the PONG and RELOADING checks, the VERSIONCOMMANDS split,
  and the scan verdict with its virus name;
- the client's three timeout fields and their setters.

The socket, the clock and the input stream are replaced by scripted objects in
`io.dfy`:

- `Channel` holds how many bytes each write accepts, the bytes the daemon sends,
  how many of them each read sees, whether the daemon closes the connection,
  and the sequence of `System.nanoTime()` readings.
- `InputSource` holds the sequence of results the `InputStream` returns.
- `ByteBuf` is the part of `java.nio.ByteBuffer` the client uses: position,
  limit, `flip`, `putInt` and a backing array.

When the clock script runs out, the deadline counts as passed. This keeps every
loop finite.

Files:

- `results.dfy`: Option, errors, Result, Outcome.
- `bytes.dfy`: bytes, big-endian `int` encoding, Java `long` wrap-around, ASCII text.
- `timing.dfy`: `isTimeout` as written and as intended.
- `io.dfy`: ByteBuf, Channel, InputSource.
- `framing.dfy`: the INSTREAM frame format, its decoder, and ByteArrayInputStream chunking.
- `replies.dfy`: reply assembly over a trace of reads, and the PONG and RELOADING checks.
- `parsing.dfy`: verdict classification, and the VERSIONCOMMANDS split with Java `split`, `trim` and `isBlank` on ASCII.
- `client.dfy`: the `ClamdClient` class and its write, read and upload loops.

The source's `parseResultLine` and `parseVersionsCommands` sit inline in
lambdas. They are modelled as the pure functions `Parsing.ParseResultLine` and
`Parsing.ParseVersionsCommands`.

Two points of the source need care:

- `checkConnection` and `reload` compare the reply with `PONG_REPLY` and
  `RELOADING_REPLY`, constants that keep the trailing NUL, while
  `readFromChannel` strips the NUL that ends a reply. The comparison as written
  therefore rejects the daemon's answer "PONG\0" ("RELOADING\0"); it would pass
  only a reply ending in a second NUL. The model states both tests: the one as
  written (`PongAcceptedAsWritten`, `ReloadingAcceptedAsWritten`) and the
  corrected one without the NUL (`PongAccepted`, `ReloadingAccepted`).
  `CheckConnection` and `Reload` use the corrected test. See Findings and Left out.
- The VERSIONCOMMANDS split uses Java `String.split`:
  - trailing empty pieces are dropped;
  - text after a second separator is discarded;
  - a reply made only of separators yields no pieces, and then `splittedString[0]`
    throws. This is modelled as `Failure(IndexOutOfBounds)`.

## Model

Paths are relative to the repository root.

| member | source | states |
|---|---|---|
| Clamd.ClamdClient.constructor | src/main/java/eu/doppelhelix/lib/clamdclient/ClamdClient.java:52-54 | connect and base timeouts start at 2000 ms, the scan timeout at 120000 ms |
| Clamd.ClamdClient.SetConnectTimeout | src/main/java/eu/doppelhelix/lib/clamdclient/ClamdClient.java:75-77 | sets the connect timeout and leaves the other two unchanged |
| Clamd.ClamdClient.SetBaseTimeout | src/main/java/eu/doppelhelix/lib/clamdclient/ClamdClient.java:83-85 | sets the base timeout and leaves the other two unchanged |
| Clamd.ClamdClient.SetScanTimeout | src/main/java/eu/doppelhelix/lib/clamdclient/ClamdClient.java:91-93 | sets the scan timeout and leaves the other two unchanged |
| Clamd.ClamdClient.CheckConnection | src/main/java/eu/doppelhelix/lib/clamdclient/ClamdClient.java:95-104 | passes iff PING went out in full and the assembled reply is PONG (the corrected test, see Left out); any other assembled reply to a PING sent in full fails with UnexpectedReply carrying its text; the reads took exactly the bytes now missing from the daemon's reply stream, each fitting the room the buffer had left, and none before the last ended the reply; a reply is read iff the command went out in full; a write timeout iff nothing was read; a read timeout iff reads were made but no reply was assembled; every deadline check used the base timeout |
| Clamd.ClamdClient.Reload | src/main/java/eu/doppelhelix/lib/clamdclient/ClamdClient.java:106-115 | passes iff RELOAD went out in full and the assembled reply is RELOADING (the corrected test, see Left out); any other assembled reply to a RELOAD sent in full fails with UnexpectedReply carrying its text; the reads took exactly the bytes now missing from the daemon's reply stream, each fitting the room the buffer had left, and none before the last ended the reply; a reply is read iff the command went out in full; a write timeout iff nothing was read; a read timeout iff reads were made but no reply was assembled; every deadline check used the base timeout |
| Clamd.ClamdClient.Shutdown | src/main/java/eu/doppelhelix/lib/clamdclient/ClamdClient.java:117-122 | passes iff SHUTDOWN went out in full, otherwise a write timeout; nothing is read; every deadline check used the base timeout |
| Clamd.ClamdClient.GetVersion | src/main/java/eu/doppelhelix/lib/clamdclient/ClamdClient.java:124-130 | succeeds iff VERSION went out and a reply was assembled; the result is that reply as text; the reads took exactly the bytes now missing from the daemon's reply stream, each fitting the room the buffer had left, and none before the last ended the reply; a reply is read iff the command went out in full; a write timeout iff nothing was read; a read timeout iff reads were made but no reply was assembled; every deadline check used the base timeout |
| Clamd.ClamdClient.GetVersionsCommands | src/main/java/eu/doppelhelix/lib/clamdclient/ClamdClient.java:132-149 | once VERSIONCOMMANDS went out and a reply was assembled, the result is the reply split by ParseVersionsCommands; the reads took exactly the bytes now missing from the daemon's reply stream, each fitting the room the buffer had left, and none before the last ended the reply; a reply is read iff the command went out in full; a write timeout iff nothing was read; a read timeout iff reads were made but no reply was assembled; every deadline check used the base timeout |
| Clamd.ClamdClient.ScanStream | src/main/java/eu/doppelhelix/lib/clamdclient/ClamdClient.java:155-200 | a write failure of INSTREAM ends the scan and nothing is read; once INSTREAM went out, an upload failure is swallowed and the verdict is still read, so the result is a verdict or a read timeout; the upload completed iff exactly INSTREAM, the frames of the stream's pieces and the terminator were sent, and then the daemon's decoder recovers those pieces; whatever happened, the bytes after INSTREAM are a prefix of those frames and the terminator; a verdict is ParseResultLine of the assembled reply; the reads took the daemon's bytes in order within the buffer; the command and the chunks were written under the base timeout and the verdict read under the scan timeout; every check after the upload is one of the verdict reads (one per read that did not end the reply), all measured from the read's own start, and the read times out iff the last of them found the deadline passed |
| Clamd.ClamdClient.ScanBytes | src/main/java/eu/doppelhelix/lib/clamdclient/ClamdClient.java:151-153 | a byte array is uploaded in 4096-byte chunks; a completed upload decodes to exactly the array, and any upload sent is a prefix of the array's frames and the terminator; otherwise as ScanStream, with the same timeouts and the same split of the deadline checks |
| Clamd.WriteToChannel | src/main/java/eu/doppelhelix/lib/clamdclient/ClamdClient.java:258-271 | the bytes sent are the buffer's bytes from its old position to its new one, in order; it passes iff the position reached the limit, otherwise it is a write timeout; every deadline check measures from the first clock reading with the given timeout, none but the last found the deadline passed, and it fails only right after a check that did; each check took the next clock reading after the start, in order, and found the clock run out only when no reading was left |
| Clamd.ReadFromChannel | src/main/java/eu/doppelhelix/lib/clamdclient/ClamdClient.java:212-234 | succeeds iff the trace of reads assembles to a reply, and returns that reply; only the last read may complete it; the reads consume the daemon's bytes in order; every read fits the room the previous read left (flip without clear); otherwise it is a read timeout; every deadline check measures from the first clock reading with the given timeout, none but the last found the deadline passed, and it fails only right after a check that did; each check took the next clock reading after the start, in order, and found the clock run out only when no reading was left; one check was made per read that did not end the reply |
| Clamd.ReadStep | src/main/java/eu/doppelhelix/lib/clamdclient/ClamdClient.java:218-226 | one read and flip: a read ending in NUL, or the end of the stream, completes the reply with the bytes before the NUL; otherwise the bytes join the reply, the buffer's room shrinks to what was read, and the trace stays open |
| Clamd.CheckDeadline | src/main/java/eu/doppelhelix/lib/clamdclient/ClamdClient.java:229-230 | one isTimeout check against the loop's deadline is logged; the loop fails iff it found the deadline passed; the check took the next clock reading, or found none left; otherwise a clock reading was used up |
| Clamd.WatchedStep | src/main/java/eu/doppelhelix/lib/clamdclient/ClamdClient.java:229-230 | one more check against the same deadline decides by itself whether the loop fails |
| Clamd.UsesTimeoutTrans | src/main/java/eu/doppelhelix/lib/clamdclient/ClamdClient.java:163-177 | checks under one timeout in successive steps are all under that timeout |
| Clamd.SendCommand | src/main/java/eu/doppelhelix/lib/clamdclient/ClamdClient.java:97 | a wrapped command is sent in full, or a strict prefix of it is sent and the write times out; the deadline checks are those of writeToChannel under the given timeout |
| Clamd.Exchange | src/main/java/eu/doppelhelix/lib/clamdclient/ClamdClient.java:96-97 | a command and its reply under one timeout: succeeds iff the command went out in full and a reply was assembled, which is the result; a reply is read iff the command went out; a write timeout iff nothing was read; a read timeout iff no reply was assembled; the reads took the daemon's bytes in order within the buffer; every deadline check used that timeout |
| Clamd.SendChunk | src/main/java/eu/doppelhelix/lib/clamdclient/ClamdClient.java:168-171 | sends the frame of the piece just read (length then payload), or a strict prefix of it on timeout; every deadline check uses the given timeout |
| Clamd.SendTerminator | src/main/java/eu/doppelhelix/lib/clamdclient/ClamdClient.java:174-177 | sends the four zero bytes, or a strict prefix of them on timeout; every deadline check uses the given timeout |
| Clamd.UploadStream | src/main/java/eu/doppelhelix/lib/clamdclient/ClamdClient.java:159-179 | what is sent is always a prefix of the frames of the stream's pieces plus the terminator; the upload completes iff all of it was sent, and only when the stream ended with -1; every deadline check uses the given timeout |
| Clamd.UploadPieces | src/main/java/eu/doppelhelix/lib/clamdclient/ClamdClient.java:163-172 | the loop ends at -1 having sent the frame of every piece in order, or stops early having sent a strict prefix of the full upload; every deadline check uses the given timeout |
| Clamd.UploadOne | src/main/java/eu/doppelhelix/lib/clamdclient/ClamdClient.java:164-171 | one read of the stream and the frame it leads to; it keeps the invariant that the frames of the pieces consumed so far have been sent, and every deadline check uses the given timeout |
| Clamd.SendPiece | src/main/java/eu/doppelhelix/lib/clamdclient/ClamdClient.java:168-171 | a data read adds exactly one frame to what was sent, or a write failure leaves a strict prefix of the full upload; every deadline check uses the given timeout |
| Clamd.TerminatorSent | src/main/java/eu/doppelhelix/lib/clamdclient/ClamdClient.java:174-177 | after every frame, the upload is complete iff the terminator went out |
| Clamd.CutShortIncomplete | src/main/java/eu/doppelhelix/lib/clamdclient/ClamdClient.java:178-179 | an upload cut short by an exception is a prefix of, and never equal to, the full upload |
| Clamd.UploadDecodes | src/main/java/eu/doppelhelix/lib/clamdclient/ClamdClient.java:159-177 | the bytes after the INSTREAM command decode to the stream's pieces |
| Clamd.ChunkCutShort | src/main/java/eu/doppelhelix/lib/clamdclient/ClamdClient.java:171 | a chunk write that stops part-way leaves a strict prefix of the full upload |
| Clamd.ReadCutShort | src/main/java/eu/doppelhelix/lib/clamdclient/ClamdClient.java:164 | a read that throws after some frames leaves a strict prefix of the full upload |
| Clamd.ConsumedOneMore | src/main/java/eu/doppelhelix/lib/clamdclient/ClamdClient.java:164-171 | a data read of 1..4096 bytes is the next piece, and its frame is the next part of the upload |
| Clamd.ConsumedAll | src/main/java/eu/doppelhelix/lib/clamdclient/ClamdClient.java:165-166 | at -1 or a failed read, no pieces remain; at -1 the stream ended cleanly |
| Bytes.WrapLong | src/main/java/eu/doppelhelix/lib/clamdclient/ClamdClient.java:274-276 | Java `long` arithmetic: the result agrees with the exact value modulo 2^64, and is that value when it fits |
| Bytes.IntBytes | src/main/java/eu/doppelhelix/lib/clamdclient/ClamdClient.java:168 | putInt writes four bytes that read back, big-endian, as the int (two's complement) |
| Bytes.DecodeEncode32 | src/main/java/eu/doppelhelix/lib/clamdclient/ClamdClient.java:168 | decoding a big-endian length gives back the length |
| Bytes.EncodeDecode32 | src/main/java/eu/doppelhelix/lib/clamdclient/ClamdClient.java:168 | encoding a decoded four-byte length gives back the bytes |
| Bytes.AsStringAscii | src/main/java/eu/doppelhelix/lib/clamdclient/ClamdClient.java:41-48 | decoding the bytes of ASCII text gives back the text, so the commands' bytes are their characters |
| Bytes.AsciiAsString | src/main/java/eu/doppelhelix/lib/clamdclient/ClamdClient.java:181 | encoding the text of an ASCII reply gives back its bytes, so no byte is lost in new String(result, UTF_8) |
| Timing.Nanos | src/main/java/eu/doppelhelix/lib/clamdclient/ClamdClient.java:274 | for an `int` timeout the product in nanoseconds does not wrap |
| Timing.IsTimeoutAsWritten | src/main/java/eu/doppelhelix/lib/clamdclient/ClamdClient.java:273-279 | isTimeout as written: the reading less the timeout in nanoseconds, in long arithmetic, is later than the start; its behaviour is stated by AsWrittenWithoutOverflow, LateAcrossWrapMissed and FreshStartTimedOut |
| Timing.IsTimeout | src/main/java/eu/doppelhelix/lib/clamdclient/ClamdClient.java:273-279 | the corrected test: the elapsed time, in long arithmetic, exceeds the timeout; its meaning is stated by TimeoutMeansElapsed and TimeoutStaysExpired |
| Timing.TimeoutMeansElapsed | src/main/java/eu/doppelhelix/lib/clamdclient/ClamdClient.java:273-279 | the corrected deadline test holds iff more than the timeout has elapsed, even when the readings wrap |
| Timing.TimeoutStaysExpired | src/main/java/eu/doppelhelix/lib/clamdclient/ClamdClient.java:229-230 | once the corrected test reports a timeout, it keeps reporting one at later readings |
| Timing.AsWrittenWithoutOverflow | src/main/java/eu/doppelhelix/lib/clamdclient/ClamdClient.java:273-279 | when neither subtraction overflows, the test as written and the corrected test agree |
| Timing.LateAcrossWrapMissed | src/main/java/eu/doppelhelix/lib/clamdclient/ClamdClient.java:276-277 | a reading that has wrapped past Long.MAX_VALUE: the test as written misses a deadline that has passed |
| Timing.FreshStartTimedOut | src/main/java/eu/doppelhelix/lib/clamdclient/ClamdClient.java:276-277 | a start at Long.MIN_VALUE: the test as written reports a timeout with no time elapsed |
| IO.ByteBuf.Wrap | src/main/java/eu/doppelhelix/lib/clamdclient/ClamdClient.java:160 | wrap: the buffer is the array, position 0, limit the length |
| IO.ByteBuf.Allocate | src/main/java/eu/doppelhelix/lib/clamdclient/ClamdClient.java:215 | allocate: a fresh array of the capacity, position 0, limit the capacity |
| IO.ByteBuf.SetPosition | src/main/java/eu/doppelhelix/lib/clamdclient/ClamdClient.java:169 | position(p) within the limit |
| IO.ByteBuf.SetLimit | src/main/java/eu/doppelhelix/lib/clamdclient/ClamdClient.java:170 | limit(l) within the capacity; the position is pulled back to the limit when beyond it |
| IO.ByteBuf.Flip | src/main/java/eu/doppelhelix/lib/clamdclient/ClamdClient.java:219 | flip: the limit becomes the old position and the position 0 |
| IO.ByteBuf.PutInt | src/main/java/eu/doppelhelix/lib/clamdclient/ClamdClient.java:168 | putInt(index, v) replaces exactly four bytes with v's big-endian encoding |
| IO.Channel.Write | src/main/java/eu/doppelhelix/lib/clamdclient/ClamdClient.java:262 | write(bb) sends the next bytes from the position, as many as the socket accepts, and advances the position by that count |
| IO.Channel.Read | src/main/java/eu/doppelhelix/lib/clamdclient/ClamdClient.java:218 | read(bb): -1 iff there is room, nothing is left and the daemon has closed; with no room, 0; otherwise the ready bytes that fit, stored at the position |
| IO.Channel.NanoTime | src/main/java/eu/doppelhelix/lib/clamdclient/ClamdClient.java:214 | the next clock reading |
| IO.Channel.TimedOut | src/main/java/eu/doppelhelix/lib/clamdclient/ClamdClient.java:229 | isTimeout against the next clock reading; an exhausted clock means the deadline has passed; the check is logged with its start, timeout and reading, and the result is whether it found the deadline passed |
| IO.InputSource.Read | src/main/java/eu/doppelhelix/lib/clamdclient/ClamdClient.java:164 | read(buffer, 4, 4096): the next scripted result; a data read stores its bytes at offset 4 |
| Framing.Frame | src/main/java/eu/doppelhelix/lib/clamdclient/ClamdClient.java:168-171 | a frame is four length bytes that decode to the piece's size, followed by the piece |
| Framing.Pieces | src/main/java/eu/doppelhelix/lib/clamdclient/ClamdClient.java:164-167 | the pieces are the data reads before the first -1 or failure, in order, each 1..4096 bytes |
| Framing.ByteArrayChunks | src/main/java/eu/doppelhelix/lib/clamdclient/ClamdClient.java:151-153 | the chunks in which a ByteArrayInputStream hands out an array to read(b, 4, 4096) are valid pieces of 1 to 4096 bytes |
| Framing.FramesAppend | src/main/java/eu/doppelhelix/lib/clamdclient/ClamdClient.java:163-172 | framing distributes over concatenation of pieces |
| Framing.DeframeFrames | src/main/java/eu/doppelhelix/lib/clamdclient/ClamdClient.java:159-177 | decoding the frames of any valid pieces plus the terminator gives back those pieces |
| Framing.FramesOfDeframe | src/main/java/eu/doppelhelix/lib/clamdclient/ClamdClient.java:159-177 | whatever decodes is exactly the frames of the decoded pieces plus the terminator |
| Framing.TruncatedUploadRejected | src/main/java/eu/doppelhelix/lib/clamdclient/ClamdClient.java:178-179 | a strict prefix of a full upload never decodes |
| Framing.ByteArrayChunksSound | src/main/java/eu/doppelhelix/lib/clamdclient/ClamdClient.java:151-153 | a byte array is read in chunks of 4096 bytes and a shorter last one, whose concatenation is the array |
| Framing.ByteArrayReadsSound | src/main/java/eu/doppelhelix/lib/clamdclient/ClamdClient.java:151-153 | a ByteArrayInputStream yields those chunks and then ends cleanly |
| Framing.CleanSuffix | src/main/java/eu/doppelhelix/lib/clamdclient/ClamdClient.java:165-166 | data reads followed by -1 or the end of the script end cleanly |
| Framing.MillionByteUpload | src/test/java/eu/doppelhelix/lib/clamdclient/ClamdClientTestIT.java:116-117 | a 1 000 000-byte array goes out in 245 chunks |
| Replies.AssembleSnoc | src/main/java/eu/doppelhelix/lib/clamdclient/ClamdClient.java:218-227 | one more read while the reply is open appends its bytes; a completing read closes the reply with its bytes less the final NUL |
| Replies.AssembleStops | src/main/java/eu/doppelhelix/lib/clamdclient/ClamdClient.java:224 | reads after the reply is complete change nothing |
| Replies.AssembleOpen | src/main/java/eu/doppelhelix/lib/clamdclient/ClamdClient.java:218-232 | the reply stays open iff no read ends in NUL or is the end of stream |
| Replies.NulTerminatedReply | src/main/java/eu/doppelhelix/lib/clamdclient/ClamdClient.java:220-224 | a message without NUL followed by one NUL, however split into reads, is assembled to the message |
| Replies.ClosedReply | src/main/java/eu/doppelhelix/lib/clamdclient/ClamdClient.java:233 | at end of stream the bytes read so far are the reply, unchanged |
| Replies.InnerNulAtReadBoundary | src/main/java/eu/doppelhelix/lib/clamdclient/ClamdClient.java:220-224 | a NUL at the end of a read ends the reply even if more data follows |
| Replies.FitsSnoc | src/main/java/eu/doppelhelix/lib/clamdclient/ClamdClient.java:218-219 | a read that fits the room left keeps the trace within the buffer |
| Replies.Assemble | src/main/java/eu/doppelhelix/lib/clamdclient/ClamdClient.java:218-233 | the reply a trace of reads makes: the bytes up to the first read that ends in NUL (less that NUL) or the end of the stream; its behaviour is stated by AssembleSnoc, AssembleStops, AssembleOpen, NulTerminatedReply and ClosedReply |
| Replies.EmptyReadStalls | src/main/java/eu/doppelhelix/lib/clamdclient/ClamdClient.java:219 | after a 0-byte read the buffer has no room, so every later read is empty and the reply can never complete |
| Replies.EmptyTail | src/main/java/eu/doppelhelix/lib/clamdclient/ClamdClient.java:219 | with no room, every read is empty |
| Replies.ReadMore | src/main/java/eu/doppelhelix/lib/clamdclient/ClamdClient.java:218-227 | one read step of the reply loop: room, consumed input and reply all advance together |
| Replies.ReadClosed | src/main/java/eu/doppelhelix/lib/clamdclient/ClamdClient.java:218 | the -1 step of the reply loop returns what was read |
| Replies.NulTerminatedAssembled | src/main/java/eu/doppelhelix/lib/clamdclient/ClamdClient.java:220-222 | a NUL-terminated reply is assembled to its text, never to the reply with its NUL |
| Replies.PongAcceptedAsWritten | src/main/java/eu/doppelhelix/lib/clamdclient/ClamdClient.java:99 | checkConnection's test as written: the reply equals PONG_REPLY, NUL included |
| Replies.ReloadingAcceptedAsWritten | src/main/java/eu/doppelhelix/lib/clamdclient/ClamdClient.java:110 | reload's test as written: the reply equals RELOADING_REPLY, NUL included |
| Replies.DaemonPongRejectedAsWritten | src/main/java/eu/doppelhelix/lib/clamdclient/ClamdClient.java:99 | the daemon's PONG reply fails the check as written |
| Replies.DaemonReloadingRejectedAsWritten | src/main/java/eu/doppelhelix/lib/clamdclient/ClamdClient.java:110 | the daemon's RELOADING reply fails the check as written |
| Replies.AsWrittenPassedByDoubleNul | src/main/java/eu/doppelhelix/lib/clamdclient/ClamdClient.java:99-110 | the tests as written do pass a single read of PONG (RELOADING) followed by two NULs, so they are not unpassable, only wrong for the daemon's reply |
| Replies.DaemonPongAccepted | src/main/java/eu/doppelhelix/lib/clamdclient/ClamdClient.java:99 | the daemon's PONG reply passes the corrected check |
| Replies.DaemonReloadingAccepted | src/main/java/eu/doppelhelix/lib/clamdclient/ClamdClient.java:110 | the daemon's RELOADING reply passes the corrected check |
| Parsing.IndexOf | src/main/java/eu/doppelhelix/lib/clamdclient/ClamdClient.java:137 | the first occurrence of the separator, or -1 when there is none |
| Parsing.LastIndexOf | src/main/java/eu/doppelhelix/lib/clamdclient/ClamdClient.java:186 | the last occurrence of ": ", or -1 when there is none |
| Parsing.Trim | src/main/java/eu/doppelhelix/lib/clamdclient/ClamdClient.java:189 | the trimmed text is a part of the input with only characters up to ' ' before and after it, and neither starts nor ends with such a character |
| Parsing.VirusName | src/main/java/eu/doppelhelix/lib/clamdclient/ClamdClient.java:186-190 | with a ": " before the suffix and text between them, the name is that text trimmed; otherwise the whole reply |
| Parsing.ParseResultLine | src/main/java/eu/doppelhelix/lib/clamdclient/ClamdClient.java:183-198 | FOUND iff the reply ends in " FOUND"; OK iff it ends in " OK"; ERROR otherwise; a virus name iff FOUND, and then it is VirusName of the reply; the raw reply for a known suffix, "Unexpected scanning result: " plus the reply otherwise |
| Parsing.SuffixesExclusive | src/main/java/eu/doppelhelix/lib/clamdclient/ClamdClient.java:183-195 | no reply ends in two of the three suffixes, so the order of the tests does not matter |
| Parsing.VirusNameRecovered | src/main/java/eu/doppelhelix/lib/clamdclient/ClamdClient.java:186-191 | "<context>: <name> FOUND", with a trimmed name free of ':', gives back the name |
| Parsing.VirusNameFallback | src/main/java/eu/doppelhelix/lib/clamdclient/ClamdClient.java:187-188 | a FOUND reply without a colon gives the whole reply as the name |
| Parsing.CleanReplyExample | src/test/java/eu/doppelhelix/lib/clamdclient/ClamdClientTest.java:29 | "stream: OK" is OK with no virus |
| Parsing.EicarReplyExample | src/test/java/eu/doppelhelix/lib/clamdclient/ClamdClientTest.java:30 | the EICAR reply is FOUND with virus Win.Test.EICAR_HDB-1 |
| Parsing.ErrorReplyExample | src/test/java/eu/doppelhelix/lib/clamdclient/ClamdClientTest.java:31 | the path-failure reply is ERROR with no virus |
| Parsing.JoinSplitAll | src/main/java/eu/doppelhelix/lib/clamdclient/ClamdClient.java:137 | splitting at every separator loses nothing: joining the pieces gives back the reply |
| Parsing.JavaSplit | src/main/java/eu/doppelhelix/lib/clamdclient/ClamdClient.java:137 | split with a literal separator: the text itself when the separator does not occur, otherwise a prefix of the pieces between separators that ends in a non-empty piece and drops only empty ones |
| Parsing.DropTrailingEmpty | src/main/java/eu/doppelhelix/lib/clamdclient/ClamdClient.java:137-138 | Java split's result is a prefix of the pieces, ends in a non-empty piece, and drops only empty pieces |
| Parsing.DropTrailingEmptyNil | src/main/java/eu/doppelhelix/lib/clamdclient/ClamdClient.java:137-138 | split yields nothing iff every piece is empty |
| Parsing.SplitSpaces | src/main/java/eu/doppelhelix/lib/clamdclient/ClamdClient.java:142 | split("\\s") pieces hold no whitespace and only characters of the input |
| Parsing.JavaSplitSpaces | src/main/java/eu/doppelhelix/lib/clamdclient/ClamdClient.java:142 | split("\\s"): the text itself when it has no \s character, otherwise a prefix of the pieces between single \s characters that ends in a non-empty piece and drops only empty ones; no piece contains a \s character |
| Parsing.RunLength | src/main/java/eu/doppelhelix/lib/clamdclient/ClamdClient.java:142 | the length of the leading run without whitespace, which ends at whitespace or the end |
| Parsing.TrimNonBlankTrimmed | src/main/java/eu/doppelhelix/lib/clamdclient/ClamdClient.java:143-144 | every command kept is trimmed at both ends |
| Parsing.TrimNonBlankSpaceless | src/main/java/eu/doppelhelix/lib/clamdclient/ClamdClient.java:142-144 | the commands kept contain no whitespace |
| Parsing.TrimNonBlankVisible | src/main/java/eu/doppelhelix/lib/clamdclient/ClamdClient.java:143-144 | on pieces of visible characters, filtering blanks and trimming just drops the empty pieces |
| Parsing.TrimNonBlank | src/main/java/eu/doppelhelix/lib/clamdclient/ClamdClient.java:143-144 | filtering blank pieces and trimming keeps at most as many pieces (see Left out) |
| Parsing.Commands | src/main/java/eu/doppelhelix/lib/clamdclient/ClamdClient.java:141-145 | every command is trimmed and free of whitespace |
| Parsing.NonEmptySplitIsWords | src/main/java/eu/doppelhelix/lib/clamdclient/ClamdClient.java:142-143 | the non-empty pieces of split("\\s") are the text's words in order |
| Parsing.NonEmptyDropTrailing | src/main/java/eu/doppelhelix/lib/clamdclient/ClamdClient.java:142-143 | dropping trailing empty pieces does not change the non-empty ones |
| Parsing.CommandsAreWords | src/main/java/eu/doppelhelix/lib/clamdclient/ClamdClient.java:141-145 | on printable text, the commands are exactly its whitespace-separated words |
| Parsing.ParseVersionsCommands | src/main/java/eu/doppelhelix/lib/clamdclient/ClamdClient.java:136-147 | without the separator, the whole reply is the version with no commands; with it after some text, the version is the text before the first separator; whenever the separator occurs and the parse succeeds, the commands are those of the piece between the first separator and the second (or the end); when the reply starts with the separator and the parse succeeds, the version is empty; the only failure is the exception of a reply that starts with the separator |
| Parsing.SeparatorsOnlyFail | src/main/java/eu/doppelhelix/lib/clamdclient/ClamdClient.java:137-139 | parsing fails iff the reply starts with the separator and every piece between separators is empty |
| Parsing.CommandsBetweenSeparators | src/main/java/eu/doppelhelix/lib/clamdclient/ClamdClient.java:137-145 | on printable text, the commands are the words between the first separator and the second (or the end) |
| Parsing.SecondSeparatorDiscarded | src/main/java/eu/doppelhelix/lib/clamdclient/ClamdClient.java:137-145 | a reply with a second separator parses to the version and the words before it; what follows the second separator is discarded |
| Parsing.WordsOfRender | src/main/java/eu/doppelhelix/lib/clamdclient/ClamdClient.java:141-145 | the words of space-separated command names are those names |
| Parsing.FirstSeparator | src/main/java/eu/doppelhelix/lib/clamdclient/ClamdClient.java:137 | in a reply made of a version, the separator and a text, with no bar character in the version, the first separator ends the version |
| Parsing.SplitAtOnlySeparator | src/main/java/eu/doppelhelix/lib/clamdclient/ClamdClient.java:137 | with no bar character on either side, split gives exactly the version and the text |
| Parsing.VersionCommandsRoundTrip | src/main/java/eu/doppelhelix/lib/clamdclient/ClamdClient.java:136-147 | a VERSIONCOMMANDS reply built from a version and a list of command names parses back to that version and list, including the empty list |
| Parsing.ParseCommandsExample | src/test/java/eu/doppelhelix/lib/clamdclient/ClamdClientTest.java:42-52 | the ClamAV 1.4.3 reply parses to its version and its 17 commands in order |

## Left out

- Selector readiness polling (`waitReadableWithTimeout`, `waitWriteableWithTimeout`), connecting, and closing the socket. The channel is a script of what each write accepts and each read sees. The only deadline checks modelled are the ones after a write or read.
- `connectTimeout` is stored and set, but no connect is modelled, so it is never used.
- The constructors' host lookup, protocol family choice and Unix-domain sockets are foreign library calls with no protocol logic.
- The getters only return a field.
- I/O exceptions other than timeouts from the socket are not modelled. A read failure of the input stream is modelled, as `ReadFailure`.
- UTF-8: commands and replies are ASCII. A reply byte becomes the character with the same code.
- Java `\s`, `isBlank` and `trim` are modelled on ASCII only.
- `System.nanoTime` is a scripted sequence of readings. When the script runs out, the deadline counts as passed. This bounds every loop.
- Clamd.ReadFromChannel: the trace of reads it returns (`rs`) and the deadline's start reading (`start`) are ghost outputs that describe what the socket and the clock did; the source returns only the reply. The commands of ClamdClient return the same trace, and ScanStream also returns whether the upload completed (`uploaded`) and the log of deadline checks as the upload ended (`upload`). The Channel keeps a ghost log of the deadline checks made on it.
- Clamd.ClamdClient.ScanStream: how the daemon answers a truncated upload is not modelled; the reply is whatever the scripted socket delivers.
- Parsing.TrimNonBlank: its own contract states only that it keeps at most as many pieces; what it keeps is stated by TrimNonBlankTrimmed, TrimNonBlankSpaceless and TrimNonBlankVisible.
- Clamd.ClamdClient.GetVersionsCommands: the result is stated only when the command went out and a reply was assembled; otherwise it is the write or read timeout.
- IO.Channel.TimedOut: the `isTimeout` it applies is the corrected one (see Findings), not the test as written at lines 276-277; the as-written test is modelled beside it as Timing.IsTimeoutAsWritten.
- Clamd.ClamdClient.CheckConnection: it accepts the reply PONG without its NUL (the corrected test of Findings), not the comparison with PONG_REPLY at line 99, which the daemon's NUL-terminated reply "PONG\0" never passes (only a reply carrying a second NUL would).
- Clamd.ClamdClient.Reload: it accepts the reply RELOADING without its NUL (the corrected test of Findings), not the comparison with RELOADING_REPLY at line 110, which the daemon's NUL-terminated reply "RELOADING\0" never passes (only a reply carrying a second NUL would).
- The 15 MB uploads of the integration tests are covered by Framing.ByteArrayChunksSound for any length; only the 1 MB case has its own lemma.

## Findings

| source | as written | input that shows it | evidently intended | confidence | as-written member | corrected member |
|---|---|---|---|---|---|---|
| src/main/java/eu/doppelhelix/lib/clamdclient/ClamdClient.java:42 | `PONG_REPLY` and `RELOADING_REPLY` keep the trailing NUL, but `readFromChannel` strips the NUL that ends the reply, so the comparison at lines 99 and 110 never accepts the daemon's NUL-terminated reply; only a reply ending in two NULs would pass it | the daemon answers PING with the bytes "PONG\0" in one read; the assembled reply is "PONG", which differs from "PONG\0", so checkConnection throws | accept the reply text PONG (RELOADING) without its NUL | high, not executed | Replies.DaemonPongRejectedAsWritten | Replies.DaemonPongAccepted |
| src/main/java/eu/doppelhelix/lib/clamdclient/ClamdClient.java:46 | the same holds for the reload acknowledgement | the daemon answers RELOAD with "RELOADING\0"; the assembled reply is "RELOADING" and reload throws | accept RELOADING without its NUL | high, not executed | Replies.DaemonReloadingRejectedAsWritten | Replies.DaemonReloadingAccepted |
| src/main/java/eu/doppelhelix/lib/clamdclient/ClamdClient.java:276-277 | `isTimeout` subtracts the timeout from the reading and compares the result with the start reading, so it goes wrong when a subtraction wraps past the `long` range | start = Long.MAX_VALUE - 10, timeout 2000 ms, reading 2000000100 ns later (wrapped to a negative value): no timeout reported; start = Long.MIN_VALUE: a timeout is reported at once | compare the elapsed time `now - start` with the timeout in nanoseconds | medium (nanoTime readings near the ends of the range are rare), not executed | Timing.LateAcrossWrapMissed | Timing.TimeoutMeansElapsed |
