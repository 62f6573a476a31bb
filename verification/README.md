# Verified model of lwmsg

lwmsg is a multi-threaded chat and file-relay server with a client and a vendored logger (zlog). This project
models its protocol state machines and its hand-written mutable data structures in Dafny and proves what they
promise for all inputs, all runs and all interleavings.

The model follows the form of the source: objects whose fields are updated in place are classes, buffers are
arrays, lists and hash chains are linked nodes with their pointers, loops are loops. Each method is proved
against a specification on values, and the lemmas are about those specifications. Threads that share state
without one big lock (reference counts, the log writer) are transition systems over atomic steps.

| files | what they model |
|---|---|
| `ShiftRegister`, `CrcTable`, `Crc32`, `HeaderCheck` | the table-driven CRC, the division it stands for, and what it detects in a header |
| `Bytes`, `Lwmp`, `Resync`, `Iteration`, `FrameStream` | the wire format, resynchronisation, and the parse of a byte stream, with when it ends |
| `Rounds`, `Losses` | reading a stream through the client's 16384-byte buffer: what arrives, what cannot, what is lost |
| `Network`, `Transfers`, `ClientReceive`, `ClientSend` | the client: receiving, reassembling files per sender, sending |
| `Prepare` | responses, chunks and re-stamped PDUs written in place, and what the peer reads in them |
| `Relay`, `RelayMessages`, `Addressing`, `Uploads`, `ServerInbound` | the server's resumable receive machine against a byte-at-a-time reference, what is handed to whom, and uploads that stop in the middle |
| `EndToEnd`, `Mailing`, `Conversation` | files from the sender through the relay and the recipient's queues to the recipient's disk |
| `Outbound`, `Delivery`, `MessageQueue` | the outbound scheduler of a client, what its recipient parses, and the linked message queue |
| `TimerOrder`, `TimerHeap`, `TimerRuns`, `TimerDrain`, `TimerSweep` | the deadline heap, runs of joins and sweeps, and the timeout sweep |
| `KeyOrder`, `Chains`, `TableChains`, `HashTable`, `RefCount`, `Arithmetic` | the striped hash table with in-place rehash, its comparators and reference counts |
| `RingSize`, `RingFifo`, `LogWriter`, `LogProgress`, `LogRing` | the log ring over wrapping counters, the writer thread's signal protocol, that it gets on, and both together |
| `LogText`, `LogBuffer` | the growing, bounded log line buffer |
| `CommandLine` | the tokenizer |

What the proofs found where the code does not do what it is meant to do; each has a lemma with the exact
condition or a concrete input:

- `MIN` in server/cltimerheap.c has no outer parentheses, so line 74 can carry a deadline below a later one. The
  exact condition is `TimerOrder.SiftDownAsWritten`; `TimerRuns.LeftAsWritten` is a run of ordinary joins and sweeps
  that passes over an expired client; `TimerDrain.LeftExactly` says exactly when a sweep does not.
- client/clrecv.c:145 writes a NUL into the payload even when it is empty, which damages the next frame:
  `FrameStream.ParseWholeStream`, `Losses.NothingLostExactly`.
- client/clrecv.c:290 adds the header size to an announced size without a bound. A header announcing 2^64 - 81 bytes
  keeps clrecv_parse in its loop forever (`FrameStream.EndsExactly`, `FrameStream.SpinsExactlyOn`,
  `ClientReceive.Client.ParseFor`); a larger announcement makes the client handle bytes it does not remove
  (`FrameStream.NothingTwice`).
- server/worker.c:470-477 sends the user listing as one PDU of any length. A client gets past a frame exactly when it
  fits its 16384-byte buffer (`Rounds.DeliveredExactly`), so a listing of more than 16303 bytes stops it for good
  (`Prepare.AnswersArrive`, `Prepare.ListingWedges`).
- server/worker.c:414 has the same unbounded sum; exactly the headers for which it wraps stall their client
  (`RelayMessages.StallsExactly`), and the loop at server/worker.c:758 then repeats forever, since each call reports a
  border without reading (`ServerInbound.Inbound.HandleFor`).
- server/worker.c:446 forgets a refused message after its first PDU, so the rest of a longer one is read as headers;
  `RelayMessages.BorderReached` has the exact condition. For a client that waits for the answer, as cmd_sendfile
  does, only a recipient that goes away in between is left of it (`Uploads.PlayedInStep`).
- client/clcmd.c:379-384 stops an upload in the middle and keeps the connection: the relay then takes the commands
  that follow for the rest of the file (`Uploads.BorderOnlyAtEnds`, `Uploads.NextIsSwallowed`, `Uploads.NextIsContent`).
- lib/zlog/src/fifo.c:144 adds the head size without a bound (`RingFifo.ReserveAnswer`), and for more than 2^31 bytes
  the ring made by lib/zlog/src/fifo.c:46 has size 0 (`RingSize.RingExists`).
- htable_get without a reference can hand out a node that is then freed (`RefCount.UncountedCanDangle`); it is alive
  exactly as long as it is in the table or somebody else holds a reference (`RefCount.FreedOnce`). The callers at
  server/worker.c:121, server/worker.c:223 and server/registration.c:150 only compare the result with NULL.

One limit that the code keeps to: server/clhandle.c:56 compares keys only up to a NUL (`KeyOrder.StdClientCmpZero`), and
every caller takes its key from strlen or strnlen, so keys with NULs, for which `KeyOrder.NulsConfuseNames` shows the
order to fail, never reach the table.

## Model

| member | source | states |
|---|---|---|
| ShiftRegister.Lfsr.DivisionIsSerial | common/lwmp.c:97-104 | For any lawful register: feeding a message one bit at a time from the top is long division by the polynomial of the message followed by as many zeros as the register has bits, whatever the register started with. |
| ShiftRegister.Lfsr.StandardIsSerial | common/lwmp.c:97-104 | Starting from all ones equals starting from zero with the first register-width bits complemented, as the standard defines the check sequence. |
| ShiftRegister.Lfsr.BurstChangesRegister | common/lwmp.c:97-104 | Two bit strings that agree outside a stretch no longer than the register leave equal registers only if they are equal. |
| CrcTable.TableIsSteps | common/lwmp.c:29-95 | Every one of the 256 table entries is eight bit steps of division by 0x04C11DB7 applied to its index in the top byte. |
| Crc32.Compute | common/lwmp.c:97-104 | The table-driven byte loop computes the bit-serial checksum of the whole message, for every message. |
| Crc32.CrcIsStandard | common/lwmp.c:97-104 | That checksum is the complemented remainder of section 3.2.9 of IEEE 802.3: first 32 bits complemented, times x^32, modulo the generator, for every message of at least four bytes. |
| Crc32.BurstDetected | common/lwmp.c:97-104 | Two messages of one length that differ only inside four consecutive bytes have equal checksums if and only if they are equal. |
| HeaderCheck.OneByteRejected | common/lwmp.c:139-147 | A header with a valid checksum, changed in any one byte, covered part or checksum field, gets exactly the invalid-mark or the checksum verdict from the validator, never acceptance. |
| HeaderCheck.CoveredChange | common/lwmp.c:139-147 | Any change confined to four consecutive covered bytes breaks the checksum test. |
| Lwmp.HeaderRoundTrip | common/lwmp.c:195-206 | The receiver reads back every field of a header the sender wrote, with a valid checksum and mark, whatever bytes follow. |
| Lwmp.ChunkHeaderRoundTrip | common/lwmp.c:209-218 | The size field and the sender field of a 38-byte chunk header are read back as written. |
| Lwmp.HeaderLayout | common/lwmp.h:126-141 | Where mark, type, name, optional data and checksum of a header are, byte by byte, the checksum with its most significant byte first. |
| Lwmp.HeaderSizeAt | common/lwmp.c:171-207 | Byte k of the size field is the byte of that weight, most significant first. |
| Lwmp.ChunkLayout | common/lwmp.h:145-151 | Where mark, size and name of a chunk header are, the size with its most significant byte first. |
| Lwmp.HeadOfEncoded | client/clrecv.c:265-345 | An encoded frame at the front of any buffer is recognised as exactly that frame, for every size whose sum with the header does not wrap. |
| Lwmp.HeadOfPrefix | client/clrecv.c:265-345 | A proper prefix of an encoded frame, cut at any byte, is recognised as incomplete, never as another frame or as damage. |
| Lwmp.HeadOfWrapped | client/clrecv.c:284-296 | A header whose announced size makes the 64-bit sum wrap, and no other, is taken for complete at once, and what is removed is the wrapped sum. |
| Resync.StreamResync | common/lwmp.c:106-135 | In place, with mark search, memmove and blotting, the buffer ends up with the longest suffix of the input that starts with the mark and is shorter than a header or carries a valid checksum; 0 when there is none; the loop terminates. |
| Resync.LongestGoodUnique | common/lwmp.c:106-135 | That answer is unique, so the in-place loop and the specification cannot differ. |
| FrameStream.ParseConserves | client/clrecv.c:265-345 | Frames delivered and bytes kept fit in the buffer, and a resynchronisation loses at least one byte. |
| FrameStream.TurnShrinks | client/clrecv.c:284-299 | A turn of the loop shrinks the buffer if and only if it neither stops nor has a header announcing exactly 2^64 - 81 in front. |
| FrameStream.NothingTwice | client/clrecv.c:292-299 | A turn removes what it has handled if and only if the sum of header and payload does not wrap. |
| FrameStream.EndsExactly | client/clrecv.c:265-345 | On any bytes the parse loop ends if and only if it never gets to such a header; Spins decides which. |
| FrameStream.SpinsExactlyOn | client/clrecv.c:284-299 | A header makes the loop stand still if and only if it is no MT_FILE header and announces exactly 2^64 - 81 bytes, whatever follows. |
| FrameStream.ParsePrefix | client/clrecv.c:265-345 | Any prefix of a stream of well-formed frames, cut at any byte, parses into exactly the frames it completes and keeps exactly the incomplete rest. |
| FrameStream.ParseWholeStream | client/clrecv.c:265-345 | A buffer that holds a well-formed stream is parsed into exactly its frames if and only if no empty text message is followed by another frame. |
| FrameStream.EmptyTextLosesFrames | client/clrecv.c:140-148 | If an empty text is followed by another frame, terminating the text overwrites the next mark and frames are lost. |
| FrameStream.EmptyTextTakesMark | client/clrecv.c:140-148 | The smallest case: 85 bytes, an empty text and the mark of whatever frame is next, and that mark is gone. |
| FrameStream.FrameLeaves | client/clrecv.c:140-148 | Byte by byte: all that is behind a frame stays as it is, but for the NUL that ends an empty text. |
| FrameStream.WrappedLeaves | client/clrecv.c:290-299 | Byte by byte: what stays when the sum wraps, with the NUL behind the header of a text. |
| Transfers.Inbox.AcceptKeepsValid | client/clrecv.c:177-229 | Every frame keeps the transfer table well formed: active slots write to open files of their own sender, no two share a sender or a file, received counts equal bytes written and stay below the expected size. |
| Transfers.Inbox.AcceptLeaksNothing | client/clrecv.c:177-229 | Whatever frame arrives, every open file still belongs to an active transfer, so no file handle is lost. |
| Transfers.Inbox.NoRoomNoFile | client/clrecv.c:186-198 | A file for which there is no slot changes nothing: no file is created, no slot taken. |
| Transfers.Inbox.FileStarts | client/clrecv.c:177-229 | A file for which there is one adds exactly one file, of its sender and with its payload, open unless that is all of it; the others keep their data, and only those of the same sender are closed. |
| Transfers.Inbox.ChunkGrows | client/clrecv.c:303-337 | A chunk appends exactly its data to the open file of its sender and closes it at the announced size; no other file changes. |
| Transfers.Inbox.ChunkOfNobody | client/clrecv.c:303-337 | A chunk of a sender without a transfer, or an empty one, changes nothing. |
| Transfers.Inbox.TextKeepsFiles | client/clrecv.c:138-176 | No other PDU touches files or slots. |
| Transfers.Inbox.FilesGrow | client/clrecv.c:177-337 | Whatever frame comes, a file is added exactly for a file that can start, and every file keeps its sender and what was written to it. |
| Transfers.Inbox.ClosedFrom | client/clrecv.c:72-83 | Closing all transfers ends every transfer, leaves what was written, and leaves no file open. |
| ClientReceive.Client.CloseAllTransfers | client/clrecv.c:72-83 | The loop over the slots computes that. |
| Transfers.AcceptAllAppend | client/clrecv.c:303-337 | What the inbox becomes depends only on the frames, not on how they are split over parses. |
| ClientReceive.Client.Fill | client/clrecv.c:236-263 | Appends exactly the next received bytes behind the buffered ones and stops only with a full buffer, or when the socket, asked again, has nothing or fails. |
| ClientReceive.Client.ProcessFilePdu | client/clrecv.c:177-229 | The imperative start of a file transfer, giving up an unfinished one, equals the specified step. |
| ClientReceive.Client.ProcessChunk | client/clrecv.c:303-337 | The imperative chunk step appends the data to the right file and closes it at the last byte. |
| ClientReceive.Client.TakeWrapped | client/clrecv.c:290-299 | Removing a wrapped sum from the buffer in place leaves exactly what the specification says. |
| ClientReceive.Client.Turn | client/clrecv.c:265-345 | One turn of the parse loop on any bytes: exactly one frame handled and removed, or the wrapped sum of a header removed, or one resynchronisation, or nothing because more bytes are needed. |
| ClientReceive.Client.Advance | client/clrecv.c:265-345 | On any bytes a turn stops exactly when more are needed, and shrinks the buffer if and only if it does not stop and no header announcing 2^64 - 81 is in front; what the whole buffer parses into is preserved. |
| ClientReceive.Client.ParseFor | client/clrecv.c:265-345 | With more turns to take than bytes, on any bytes: the loop has ended if and only if it does not spin, with exactly the frames of the specification delivered either way. |
| ClientReceive.Client.ParseBuffer | client/clrecv.c:265-345 | Whatever else the buffer holds, the loop ends, delivers exactly the frames of the specification in order, applies them to the inbox in order, and keeps exactly the rest. |
| ClientReceive.Client.HandleSocketData | client/clrecv.c:347-352 | In sync with any stream, frames too large for the buffer included: one fill and parse, with any fragmentation, is one round of the specification and stays in sync; it ends only with a full buffer or a socket that has nothing; on a lost connection nothing more is delivered and every transfer is closed. |
| ClientReceive.Client.Receive | client/clrecv.c:347-352 | After any number of rounds the frames delivered are a prefix of the frames sent, all of them fit the receive buffer, and the inbox is what they make of it, with all transfers closed once the connection is lost. |
| ClientReceive.Client.RoomToRead | client/clrecv.c:236-263 | In sync the buffer has room as long as the next frame fits it; when it is full it holds the beginning of one that does not, and the client stays as it is whatever the socket does. |
| Rounds.ParseSynced | client/clrecv.c:265-345 | Parsing whatever part of the remaining stream is buffered delivers its next frames and nothing else, leaves the rest in step, and never spins. |
| Rounds.RunSynced | client/clrecv.c:347-352 | Over any rounds with any fragmentation the frames delivered are the next ones of the stream, each of them fitting the buffer. |
| Rounds.DeliveredExactly | client/clrecv.c:236-263 | A harmless stream can be delivered to the last frame, by any fragmentation at all, if and only if every frame fits the 16384-byte buffer. |
| Rounds.TooLargeWedges | client/clrecv.c:236-263 | Once the next frame is larger than the buffer nothing is delivered any more, whatever is read. |
| Rounds.FullStays | client/clrecv.c:236-263 | And once the buffer is full of it, nothing is read any more. |
| Losses.NothingLostExactly | client/clrecv.c:133-155 | For frames that fit: whatever has been read so far, the stream can still be delivered completely, if and only if no empty text is followed by another frame. |
| Losses.Loses | client/clrecv.c:140-148 | For every stream with such an empty text, wherever it stands: a fragmentation after which no further reading delivers everything. |
| Prepare.PrepareResponse | common/lwmp.c:171-207 | In place, field by field: the buffer becomes the encoded frame of the response and nothing behind it changes; read back it has the type, an empty name, the optional data with zeros behind it, and a text cut to 4014 bytes whose NUL is counted; optional data that is too long leaves the buffer alone. |
| Prepare.ResponseReads | common/lwmp.c:171-207 | The same about the frame itself, whatever follows it. |
| Prepare.PrepareChunk | common/lwmp.c:209-218 | In place: the buffer becomes the encoded chunk, cut to what a chunk can carry, and nothing behind it changes. |
| Prepare.StampSender | server/worker.c:497-499 | Re-stamping in place replaces the recipient by the sender, renews the checksum and leaves the rest. |
| Prepare.OverField | common/lwmp.c:179-206 | Overwriting one of consecutive fields replaces exactly that field. |
| Prepare.AnswersArrive | server/worker.c:442-496 | The client of a sender can read back all answers of the server if and only if no listing is asked for or the listing has at most 16384 - 81 bytes. |
| Prepare.AnswersInOrder | server/worker.c:442-496 | However their stream is cut, the answers read are the first ones, in order; when everything has been read, all of them. |
| Prepare.ListingWedges | server/worker.c:468-480 | A longer listing is never delivered, nor is anything sent after it. |
| Prepare.VerdictsTold | common/lwmp.h:23-31 | Two verdicts give the same answer on the wire if and only if they are the same verdict. |
| Prepare.CodesTold | common/lwmp.h:23-31 | The four bytes that tell each verdict. |
| Prepare.TextsTold | server/worker.c:456-495 | What a sender is told when its recipient is unreachable, naming it, and how a listing is answered. |
| Prepare.GoneNoticeNames | server/worker.c:598-606 | The notice about a vanished sender, with the name in full. |
| Relay.FeedAppend | server/worker.c:379-516 | The reference relay, fed byte by byte, does not depend on where its input is split. |
| Relay.HeaderRead | server/worker.c:383-412 | Completing a header in one read equals feeding its bytes one at a time. |
| Relay.PayloadRead | server/worker.c:411-431 | Completing the first PDU in one read, with the dispatch that follows, equals feeding its bytes. |
| Relay.ChunkRead | server/worker.c:519-535 | Completing a chunk buffer in one read, with the chunk that follows, equals feeding its bytes. |
| Relay.StuckStays | server/worker.c:411-417 | A stalled client stays where it is: no byte it sends changes anything any more. |
| Addressing.Addressed | server/worker.c:398-412 | Everything an accepted message adds behind its answer goes to the user named in the name field and to nobody else, whatever the other fields hold; of a 32-byte name the first 31 bytes count. |
| Addressing.AcceptedFields | common/lwmp.c:139-169 | When a text or file is accepted, in terms of its fields alone. |
| Addressing.FirstHandedOver | server/worker.c:496-499 | The first message handed over, read back: type, optional data and size as they came, the name of the sender, a right checksum, and the first 4015 bytes of the body. |
| Addressing.NextHandedOver | server/worker.c:519-565 | Piece i of the rest, at most 4058 bytes at its place in the body, under the name of the sender. |
| Addressing.SentToNamed | server/worker.c:398-412 | So what a session sends to a user is exactly what names that user. |
| Addressing.VerdictExactly | common/lwmp.c:139-169 | Each verdict with its exact condition on the fields. |
| Addressing.DamageIsTold | server/worker.c:446-455 | A first PDU with a wrong checksum is answered so, handed to nobody, and loses the stream; one with a wrong mark is answered and the stream is read on. |
| Addressing.RecipientLost | server/worker.c:536-552 | When the recipient is gone at a later piece, the sender is told who, nothing more is handed over, and the stream is lost. |
| RelayMessages.StallsExactly | server/worker.c:411-417 | From a message border a header stalls its client if and only if its announced size and the header together reach 2^64. |
| RelayMessages.ChunksCarryAll | server/worker.c:519-565 | The rest of a message is cut into chunks of 1 to 4058 bytes whose payloads are the rest, in order. |
| RelayMessages.FramesCarryBody | server/worker.c:414-565 | The re-stamped first PDU and the chunks together carry exactly the declared body, in order. |
| RelayMessages.MessageRelayed | server/worker.c:379-565 | From a message border, the bytes of an accepted message make the relay answer OK, enqueue exactly its frames for its recipient, and return to a border. |
| RelayMessages.AcceptedExactly | common/lwmp.c:139-169 | A message is accepted if and only if it passes every check of the validator, is no request, and its recipient is still there. |
| RelayMessages.MessageRefused | server/worker.c:446-495 | A message that is not accepted is answered after its first PDU; the rest of its body is then taken for the next header. |
| RelayMessages.BorderReached | server/worker.c:379-565 | Exactly when the relay stays in step: any message brings it to a border with exactly its replies emitted if and only if it is accepted or travels in one PDU. |
| RelayMessages.SessionRelayed | server/worker.c:379-565 | A stream of such messages makes the relay emit exactly the replies and frames of each, in order. |
| Uploads.CutIsUnderway | server/worker.c:379-565 | An accepted message cut after any byte leaves the relay in the middle of it, alive, with exactly what has come counted. |
| Uploads.BorderOnlyAtEnds | server/worker.c:379-565 | A part of an accepted message leaves the relay at a border if and only if it is all of it or nothing. |
| Uploads.NextIsSwallowed | client/clcmd.c:375-400 | What follows a message cut behind its header is relayed as its content, byte for byte, up to the announced size; only the rest is read as messages. |
| Uploads.NextIsContent | client/clcmd.c:375-400 | If less than that follows, all of it is content: nothing is emitted but the first replies to one message, and the relay still waits. |
| Uploads.PlayedInStep | client/clcmd.c:350-400 | A client that waits for the answer before it sends more than one PDU stays in step if and only if it is not the case that its recipient goes away after the check of a message longer than that. |
| ServerInbound.Inbound.ReadHeader | server/worker.c:383-412 | The resumable header loop refines the byte-wise reference for every recv result, and stops short only when the socket, asked again, has nothing or fails. |
| ServerInbound.Inbound.ReadPayload | server/worker.c:411-431 | So does the resumable payload loop, with the 64-bit size arithmetic written out. |
| ServerInbound.Inbound.DispatchPdu | server/worker.c:431-515 | Validation, answer, hand-over and reset equal the reference step. |
| ServerInbound.Inbound.ReadChunk | server/worker.c:519-535 | So does the resumable chunk loop. |
| ServerInbound.Inbound.HandleInbound | server/worker.c:336-567 | One call consumes some next bytes of the stream and leaves state and output exactly as the byte-wise reference does on them; it stops short only for a socket that has nothing or fails, or a recipient just gone; it reports a border without consuming anything if and only if the client is stalled. |
| ServerInbound.Inbound.HandleFor | server/worker.c:756-759 | The readable-event loop on any bytes: with more calls than bytes, and the stream not found damaged, it still goes on if and only if the client is stalled; then every further call reports a border without reading, so the source loops forever. |
| ServerInbound.Inbound.HandleReadable | server/worker.c:756-759 | On any bytes that do not stall the client the loop ends, reporting no border unless the stream is lost, and agrees with the reference. |
| ServerInbound.Inbound.ServeReadable | server/worker.c:756-759 | On a stream of messages that are accepted or fit one PDU it ends, and once everything has been read exactly the replies have been emitted. |
| ServerInbound.Inbound.Serve | server/worker.c:336-567 | Over any number of events, with any splits and EBLOCKs, what has been answered and enqueued depends only on the bytes read so far; once all have been read it is exactly the replies of the messages sent. |
| EndToEnd.ChunksArrive | client/clrecv.c:303-337 | With any other traffic in between, an open transfer holds exactly the chunks of its sender so far and closes exactly when they are the whole file. |
| EndToEnd.FileArrives | client/clrecv.c:177-229 | At every moment the receiving file is exactly the relayed prefix of the file sent; it is closed if and only if that is all of it. |
| EndToEnd.OwnOfInterleaved | client/clrecv.c:303-337 | Of any interleaving, the frames of one sender are its own frames in order. |
| EndToEnd.RoomLeft | client/clrecv.c:56-70 | As long as no more users send files than there are slots, a transfer can always start. |
| EndToEnd.NthFileArrives | client/clrecv.c:177-229 | Of several files of one sender: as soon as a frame of one has come, the client has a file with exactly what has come of it, open until it is complete. |
| EndToEnd.FileDeliveredAmong | server/worker.c:414-565 | From a fresh client with a 16384-byte buffer, over any rounds and any fragmentation: in any interleaving with the frames of others, with at most eight users sending files, the file is exactly the relayed prefix, and complete and closed once everything has been read. |
| ClientSend.Outgoing.SendAll | client/clcmd.c:335-340 | All of a buffer goes out, or an error is reported after a part of it, never while the connection lasts. |
| ClientSend.SendText | client/clcmd.c:213-259 | A text that is not empty and fits one PDU with its NUL, and no other, goes out; read back from the bytes it has its type, the recipient cut to 31 bytes, and its size. |
| ClientSend.SendFile | client/clcmd.c:274-400 | What goes out are the first bytes of one message, which read back names the recipient and the file, each cut to 31 bytes, in the fields for them, and the size; all of it whenever the file can be read, the server agrees and nothing interrupts; unless the connection breaks, otherwise none or at least the first PDU; an empty file sends nothing. |
| ClientSend.FileGoesToRecipient | server/worker.c:398-499 | A file that is accepted is handed to exactly the user it was sent to, under its name and size. |
| ClientSend.TextGoesToRecipient | server/worker.c:398-499 | And so is a text, with its NUL. |
| Outbound.StdClient.SendOne | server/worker.c:569-596 | Under any short sends the wire stays whole messages plus the sent part of the one in flight; the message is finished, blocked with bytes left, or the client is gone. |
| Outbound.StdClient.ServeResponse | server/worker.c:285-320 | A control message is queued behind one in flight or sent at once; nothing due is lost or reordered, and if it is left in flight the socket has just refused. |
| Outbound.StdClient.FinishPending | server/worker.c:608-640 | Both handlers first finish the message in flight and the control queue; the notice about a vanished sender is added exactly when the sender of the message in flight is not there. |
| Outbound.StdClient.SocketWritable | server/worker.c:608-646 | After the writable event either everything pending for control has gone out and the masks are back to reading, or a message is in flight because the socket refused. |
| Outbound.StdClient.UserQueueReadable | server/worker.c:648-727 | At most one user message is started, only with nothing else in flight; it, or all messages of its vanished sender together with one notice, leaves the queue, and nothing else is lost, added or overtaken. |
| Outbound.StdClient.FlushSender | server/worker.c:697-706 | Of the messages due exactly those of one sender are given up; the others keep their order. |
| Outbound.StdClient.Run | server/worker.c:285-320 | Over any run of events, socket results and enqueues: bytes on the wire are whole messages plus a prefix of one; a message in flight or a control message implies the output watch is armed, a user message implies some watch is. |
| Outbound.StdClient.NotifyIfGone | server/worker.c:598-606 | The notice, naming the sender of the message in flight, becomes due exactly when that sender is not there. |
| Outbound.StdClient.StartUser | server/worker.c:700-717 | What is sent next is the first user message if its sender is there; otherwise all of that sender is given up and the notice about it is sent. |
| Delivery.SentIsDelivered | server/worker.c:569-596 | However far the sending has got and however it is read, the recipient gets the messages that have gone out whole, in order, only such as fit its buffer, and when all is read all of them with exactly the sent part of the one in flight left over. |
| Outbound.WithoutMembers | server/thrdmsg_mpscq.c:128-172 | The filter of a flush keeps exactly the messages of other subjects. |
| Mailing.MailOfSession | server/worker.c:414-565 | What a session makes the relay enqueue for one recipient, parsed as frames, is exactly the relayed frames of the messages whose name field names it, in order. |
| Mailing.OnlyFiles | client/clrecv.c:303-337 | The transfers in those frames are those of the files of the session, one behind the other. |
| Mailing.OutGrows | server/worker.c:379-516 | What the relay has put out is never taken back, whatever bytes follow. |
| Mailing.ServedKeeps | server/worker.c:697-717 | Serving the next user message, or giving up a vanished sender, changes nothing of a sender who is there. |
| Mailing.LinkCarries | server/worker.c:569-727 | What has gone to a recipient is a prefix of whole frames, and of one sender a prefix of what is due, in order; all of it once queue and socket are idle. |
| Mailing.DeliveredOfFiles | client/clrecv.c:303-337 | So the transfers a recipient has seen of a sender are a prefix of the files of its session. |
| Conversation.Path.FileArrives | server/worker.c:336-727 | Relay, outbound queues and client together: every file so far is exactly what has come of it, and complete and closed when nothing is on the way any more. |
| Conversation.Path.Run | server/worker.c:336-727 | The same after any interleaving of any number of events of the relay, of the outbound scheduler, of the client and of other senders, with any fragmentation and push-back on both connections, for every file of the session. |
| Conversation.Connect | server/worker.c:336-727 | A freshly connected sender, relay and recipient are such a path, made of new objects only, so that anybody can run it. |
| Conversation.Converse | server/worker.c:336-727 | End to end from the first byte: after any events since both connected, every accepted file whose name field holds the name of the recipient is complete and closed there when nothing is on the way any more, and so far exactly what has come of it. |
| Conversation.Path.LinkTurn | server/worker.c:608-727 | An event on the side of the recipient: what it brings about reaches the client, and a message stays in flight only when the socket, asked again, took nothing. |
| MessageQueue.MsgQueue.Enqueue | server/thrdmsg_mpscq.c:38-66 | Relinking head and tail appends one message to the FIFO and keeps a well-formed doubly linked list whose length the eventfd counts in MPSC mode. |
| MessageQueue.MsgQueue.Dequeue | server/thrdmsg_mpscq.c:68-103 | Takes the oldest message, or null exactly when empty; list and counter stay right. |
| MessageQueue.MsgQueue.Unlink | server/thrdmsg_mpscq.c:144-168 | Removing any node in the middle or at an end removes exactly that node. |
| MessageQueue.MsgQueue.Flush | server/thrdmsg_mpscq.c:128-172 | In MPSC mode exactly the order-preserving filter of messages with another subject remains; in SPSC mode nothing changes. |
| TimerOrder.LessIsEarlier | server/cltimerheap.c:8-10 | The comparison of MIN is that of the clock readings, seconds and nanoseconds together. |
| TimerOrder.SiftUpOrders | server/cltimerheap.c:46-53 | Sifting up restores the heap order under either reading of MIN. |
| TimerOrder.SiftDownOrders | server/cltimerheap.c:55-83 | Sifting down, with MIN as intended, restores the heap order. |
| TimerOrder.SiftDownAsWritten | server/cltimerheap.c:74 | With MIN as written, sifting down restores the order if and only if the intended sift stops at a leaf, at the root, or beside a child in the same second. |
| TimerOrder.SinksToLeaf | server/cltimerheap.c:74 | Otherwise the deadline is carried down to a leaf below a later second. |
| TimerOrder.RemovedOrders | server/cltimerheap.c:133-182 | Removing any deadline keeps the order with MIN as intended. |
| TimerOrder.RemovedAsWritten | server/cltimerheap.c:133-182 | With MIN as written a removal keeps the order if and only if the last deadline goes, or its replacement rises, or the intended sift stops harmlessly. |
| TimerOrder.RootIsFirst | server/cltimerheap.c:103-109 | In an ordered heap no deadline is before the root. |
| TimerHeap.Heap.Exchange | server/cltimerheap.c:12-21 | swap exchanges two clients and gives each the index of its new slot. |
| TimerHeap.Heap.HeapifyUp | server/cltimerheap.c:46-53 | The loop equals the specified sift, keeps every client knowing its slot, and permutes the clients. |
| TimerHeap.Heap.HeapifyDown | server/cltimerheap.c:55-83 | Likewise downwards, under either reading. |
| TimerHeap.Heap.Resize | server/cltimerheap.c:23-37 | Doubles the slots exactly when the doubled number fits 32 bits and keeps the contents. |
| TimerHeap.Heap.Add | server/cltimerheap.c:86-104 | Adds exactly one client with its deadline, keeping back-pointers and, under either reading, the order. |
| TimerHeap.Heap.Pop | server/cltimerheap.c:133-151 | Removes exactly the root client, which forgets its index. |
| TimerHeap.Heap.Remove | server/cltimerheap.c:153-182 | Removes exactly a client anywhere in the heap, or nothing if it is not in it. |
| TimerSweep.ComputeRootTimediff | server/cltimerheap.c:112-131 | Distinguishes empty, not applicable, expired and the milliseconds to wait, comparing whole seconds. |
| TimerSweep.Sweep | server/worker.c:768-797 | The sweep terminates and takes out only clients that no longer wait or are out of time; told that their time is up are exactly those of them that still waited, once each; with MIN as intended, or with MIN as written when every pop on the way is harmless, nobody is left whose deadline second has passed at its last clock reading. |
| TimerRuns.LeftIntended | server/worker.c:768-797 | With everybody waiting and a standing clock, nothing expired is left by a sweep with MIN as intended. |
| TimerRuns.LeftHarmless | server/cltimerheap.c:133-151 | Nor by one with MIN as written when each of its pops meets the exact condition of RemovedAsWritten. |
| TimerRuns.RunInTime | server/cltimerheap.c:86-182 | In any run of joins, departures and sweeps every sweep leaves nobody late: with MIN as intended always, as written when every removal of the run meets that condition. |
| TimerDrain.LeftExactly | server/worker.c:768-797 | For any heap, ordered or not, either reading of MIN and any clock: a sweep leaves nobody late if and only if popping on and on gives out nothing due after something that is not. |
| TimerDrain.AlwaysInTime | server/worker.c:768-797 | Sweeps leave nobody late whatever the clock says if and only if the heap gives out its deadlines in the order of their seconds. |
| TimerDrain.DrainedPermutes | server/cltimerheap.c:133-151 | Popping on and on gives out every deadline exactly once. |
| TimerDrain.JoinAdds | server/cltimerheap.c:86-104 | Under either reading a join adds exactly one deadline, four seconds after its time. |
| TimerDrain.LeaveTakes | server/cltimerheap.c:154-181 | A leave takes exactly the one in that slot. |
| TimerDrain.LeftIsPart | server/worker.c:768-797 | A sweep adds no deadline, keeps each of the others at most as often as it was there, and stops at a root that is not due. |
| TimerRuns.LeftAsWritten | server/cltimerheap.c:74 | A run from the empty heap, eight joins and the sweeps between them, after which a sweep with MIN as written has left second 6 under a root of second 7. |
| KeyOrder.UserNamesOrdered | server/clhandle.c:56-64 | The user name comparator is a strict total order on NUL-free names. |
| KeyOrder.StdClientCmpZero | server/clhandle.c:56-64 | On all keys: names compare equal if and only if lengths and the text before the first NUL agree. |
| KeyOrder.NulsConfuseNames | server/clhandle.c:56-64 | So on keys with NULs it is not a total order. |
| KeyOrder.AddressesOrdered | server/ipblock.c:38-53 | The address comparator is a strict total order on 4-byte addresses. |
| KeyOrder.NamesByFirstDifference | server/clhandle.c:56-64 | Which order that is: by the first byte that differs, unsigned, and a name before its continuations. |
| KeyOrder.AddressesByFirstDifference | server/ipblock.c:38-53 | Addresses likewise, by the first byte that differs. |
| TableChains.MaskIsBucket | server/htable.c:183-184 | The hash masked with a power of two less one is the remainder that Bucket uses. |
| TableChains.MovesUp | server/htable.c:183-184 | When the buckets multiply, a node stays in its bucket or moves behind all old ones. |
| TableChains.MoveKeeps | server/htable.c:176-247 | Moving one node keeps every chain sorted, every node in its old or new bucket, and the kept prefix of its old chain; the new bucket is behind all old ones. |
| TableChains.MovingEnds | server/htable.c:176-247 | When all old buckets are done every node is in the bucket of its hash for the new count and can be found there. |
| TableChains.LawfulHung | server/htable.c:183-184 | In a settled table with a power of two of buckets every node hangs off bucket hash & (count - 1) and off no other. |
| TableChains.NoKeyTwice | server/htable.c:274-362 | No two linked nodes have the same key. |
| TableChains.ContentAdded | server/htable.c:274-362 | An added node is one more binding of the map the table stands for. |
| TableChains.ContentRemoved | server/htable.c:365-415 | A removed node is one binding less. |
| TableChains.EveryKeyOnce | server/htable.c:480-527 | The listing in bucket order has every wanted key exactly once and nothing else. |
| TableChains.PassedBy | server/htable.c:316-349 | A key before one node of a sorted chain is before all that follow, so the walk may stop there. |
| HashTable.Table.constructor | server/htable.c:48-107 | An empty table with a power of two of buckets whose locks cover them exactly; the counts stay powers of two in every valid table. |
| HashTable.Table.Link | server/htable.c:205-236 | Hooking a node between two neighbours inserts it at that place of its chain and changes no other chain. |
| HashTable.Table.Unlink | server/htable.c:389-406 | Unhooking a node removes it from its chain and changes no other chain. |
| HashTable.Table.MoveNode | server/htable.c:176-247 | One round of the rehash loop moves a node to its new bucket at its sorted place. |
| HashTable.Table.Rebucket | server/htable.c:174-247 | The walk over one old bucket moves exactly the nodes that belong elsewhere. |
| HashTable.Table.Resize | server/htable.c:115-248 | The nodes stay the same, every one hangs off bucket hash & (count - 1) of the new count and off no other, chains sorted, locks covering the buckets, elements below the new threshold, which fewer buckets by one growth step would not allow; all loops terminate. |
| HashTable.Table.Add | server/htable.c:274-362 | Succeeds if and only if the key is absent and then adds exactly that binding, whether or not a resize happens first; with the resize lock the elements do not exceed the threshold afterwards, without it the buckets stay. |
| HashTable.Table.Remove | server/htable.c:365-415 | Removes exactly the binding of the key and returns its node, if there is one. |
| HashTable.Table.Get | server/htable.c:418-462 | Returns what the map binds the key to. |
| HashTable.Table.CopyAllKeys | server/htable.c:480-527 | The stripes visit every bucket once, in order. |
| HashTable.Table.ListsEveryKeyOnce | server/htable.c:480-527 | What is listed is exactly the wanted keys of the map, each once. |
| RefCount.StepKeepsInv | server/htable.c:546-557 | Every atomic step of any thread keeps ref_cnt equal to one for the table plus the outstanding references, and free_fn called once exactly when none is left. |
| RefCount.NoUseAfterFree | server/htable.c:418-478 | No step touches a node that has been freed, uncounted look-ups included. |
| RefCount.UncountedCanDangle | server/htable.c:418-462 | What an uncounted look-up returns can be freed by the next two steps of other threads. |
| RefCount.FreedOnce | server/htable.c:365-415 | In every run a node is freed at most once, and it is freed if and only if it is out of the table with no reference left. |
| RefCount.StaysFreed | server/htable.c:546-557 | A freed node is never referred to again. |
| RefCount.CanBeFreed | server/htable.c:546-557 | From any state of any node, those who hold it can let it go, and then it is freed. |
| RingSize.RoundUp | lib/zlog/src/fifo.c:16-31 | The bit smearing gives a power of two not below its argument, or 0 exactly when none fits 32 bits. |
| RingSize.RoundUpIsLeast | lib/zlog/src/fifo.c:16-31 | And the least such power. |
| RingSize.RingDivides | lib/zlog/src/fifo.c:33-46 | The size in bytes is a power of two that divides 2^32 and is less, for every number of pages up to 2^19. |
| RingSize.RingExists | lib/zlog/src/fifo.c:33-46 | For more pages than 2^19 the size in bytes wraps to 0. |
| RingFifo.Apart | lib/zlog/src/fifo.c:150 | Positions less than one ring apart do not share a residue. |
| RingFifo.WrapKeepsResidue | lib/zlog/src/fifo.c:139-155 | Wrapping a counter at 2^32 keeps its residue. |
| RingFifo.UsedIsExact | lib/zlog/src/fifo.h:75-84 | The difference of the wrapped counters is the exact number of live bytes. |
| RingFifo.ReserveAnswer | lib/zlog/src/fifo.c:142-148 | The answer of fifo_reserve is right if and only if header plus payload does not wrap or even the wrapped size does not fit. |
| RingFifo.LaidDisjoint | lib/zlog/src/fifo.c:139-155 | Live messages occupy disjoint residues of the ring. |
| RingFifo.LaidAt | lib/zlog/src/fifo.c:174-184 | Every live message has its head, with its size, at its first byte, and the oldest starts at the out counter. |
| RingFifo.LaidDrop | lib/zlog/src/fifo.c:186-190 | Without the oldest, the rest are still laid end to end. |
| RingFifo.MaskIsResidue | lib/zlog/src/fifo.c:150 | For such a size the bit mask is the residue. |
| RingFifo.Fifo.constructor | lib/zlog/src/fifo.c:33-46 | A fresh ring of that size, empty and well formed, for any number of pages up to 2^19. |
| RingFifo.Fifo.Reserve | lib/zlog/src/fifo.c:139-156 | Succeeds if and only if the (32-bit) total fits; then appends one reserved message and disturbs no live byte. |
| RingFifo.Fifo.SetFlag | lib/zlog/src/fifo.c:158-172 | Commit and discard change exactly one flag. |
| RingFifo.Fifo.Write | lib/zlog/src/fifo.c:139-156 | A producer byte lands in its own message, across the wrap, and nowhere else. |
| RingFifo.Fifo.Peek | lib/zlog/src/fifo.c:174-184 | Yields the oldest live message if and only if there is one. |
| RingFifo.Fifo.Read | lib/zlog/src/fifo.c:174-184 | A payload byte read is the byte written. |
| RingFifo.Fifo.Out | lib/zlog/src/fifo.c:186-190 | Removes exactly the oldest message, so messages leave in reservation order. |
| LogWriter.StepKeepsInv | lib/zlog/src/consumer.c:115-159 | Every step of any thread keeps: taken + pending <= signalled <= completed, the wrapped counters exact, nothing reserved passed over, output in order, exit last. |
| LogWriter.RunsGoOn | lib/zlog/src/consumer.c:115-159 | A run goes on with every step that is enabled in its last state, so the runs below are all that the steps allow. |
| LogWriter.WriterSafety | lib/zlog/src/consumer.c:115-159 | In every run: dequeued = sig_recv <= sig_send <= completed <= reserved; pending > 0 implies a message in the ring; output is exactly the committed logs among those taken, in order. |
| LogWriter.NothingStranded | lib/zlog/src/consumer.c:121-128 | If the writer sleeps with no wake-up under way and every producer has signalled, the ring is empty. |
| LogWriter.ExitIsLast | lib/zlog/src/consumer.c:18-38 | Once the exit command is handled, every earlier message has been taken and every committed log written once, in order. |
| LogWriter.FlushWaits | lib/zlog/src/consumer.c:357-384 | When a flush returns, everything reserved before it has been taken. |
| LogWriter.AllSent | lib/zlog/src/consumer.c:40-49 | The signals sent equal the messages reserved if and only if every message has been signalled. |
| LogWriter.CommittedExactly | lib/zlog/src/consumer.c:147-155 | What has to be written is every log that is committed, nothing that is discarded and no command, in the order of the reservations. |
| LogProgress.SeesAll | lib/zlog/src/consumer.c:121-134 | When the writer does not go to sleep, or wakes up, what it believes to be pending is everything that has been signalled and not taken. |
| LogProgress.WritesEverything | lib/zlog/src/consumer.c:115-159 | From any state of any run with every message signalled, the own steps of the writer, a number of them known beforehand, take all messages, write all committed logs in order, and end it exactly if the last message is the exit command. |
| LogProgress.NoDetour | lib/zlog/src/consumer.c:115-159 | And no sequence of its own steps is longer than that. |
| LogProgress.RestIsDone | lib/zlog/src/consumer.c:121-159 | When it rests with every message signalled everything has been taken and written, and a flush that was waited for can return. |
| LogProgress.NothingLost | lib/zlog/src/consumer.c:40-49 | From every state of every run producers and writer can still get every reserved message taken and every committed log written. |
| LogRing.Queue.Enqueue | lib/zlog/src/consumer.c:328-344 | A reservation in the byte ring succeeds exactly when the exit command is not there yet and the ring has room, and is then the step of the writer protocol; otherwise nothing happens. |
| LogRing.Queue.Settle | lib/zlog/src/consumer.c:346-355 | Committing or discarding in the ring changes the flag of that message of the protocol and no other. |
| LogRing.Queue.TakeOldest | lib/zlog/src/consumer.c:136-154 | fifo_peek and the look at the flag find a message to take exactly when the protocol has one. |
| LogRing.Queue.DropOldest | lib/zlog/src/consumer.c:155 | fifo_out of the message just handled is the dequeue step of the protocol. |
| LogRing.Queue.LoopEnds | lib/zlog/src/consumer.c:136-138 | The inner loop ends exactly when the protocol says so. |
| LogRing.Queue.WriteOut | lib/zlog/src/consumer.c:115-159 | The loop of the writer on the byte ring, with every message signalled: it ends, everything committed has been written in order, and the ring is empty. |
| LogRing.Queue.FewEnough | lib/zlog/src/consumer.c:131-134 | The ring never holds so many messages that the signal counters could not tell them apart. |
| LogRing.Queue.Run | lib/zlog/src/consumer.c:115-159 | Over any interleaving of all threads the live messages of the byte ring, with their flags, are those reserved and not dequeued, and what has been written are the committed logs taken so far, in order. |
| LogText.OneMore | lib/zlog/src/buf.c:429-466 | Appending to bounded text: what is held plus the piece when it fits, else what fits of it with the mark over the end. |
| LogText.StaysFull | lib/zlog/src/buf.c:148-212 | Once full, further text changes nothing. |
| LogText.DigitsRoundTrip | lib/zlog/src/buf.c:288-292 | Printed digits, decimal or hexadecimal, read back as the number. |
| LogText.NoLeadingZero | lib/zlog/src/buf.c:288-292 | No number but zero starts with 0. |
| LogText.NumbersFit | lib/zlog/src/buf.c:276-292 | Every 32-bit and 64-bit number fits the temporary digit buffers. |
| LogText.PaddedReads | lib/zlog/src/buf.c:275-338 | A printed number has at least the width asked for, is filled up with zeros in front, and reads back as the number. |
| LogText.AdjustedAt | lib/zlog/src/buf.c:512-600 | An adjusted string character by character: what of the string, and which filling on which side. |
| LogBuffer.Buffer.Resize | lib/zlog/src/buf.c:165-212 | Makes room for the increment, or grows to the limit and says so exactly when the limit is exceeded; the content stays. |
| LogBuffer.Buffer.Truncate | lib/zlog/src/buf.c:148-159 | The last characters become the mark, or as much of it as there is room for, and the others stay. |
| LogBuffer.Buffer.AppendStr | lib/zlog/src/buf.c:472-509 | Keeps the law for the text so far plus the string; reports the limit exactly when a non-empty piece overflows. |
| LogBuffer.Buffer.DigitsBackwards | lib/zlog/src/buf.c:288-292 | The digit loop, filling a buffer from its end, produces the digits. |
| LogBuffer.Buffer.PrintNumber | lib/zlog/src/buf.c:275-338 | Keeps the law for the zero-padded number in each of the three printers. |
| LogBuffer.Buffer.AdjustAppend | lib/zlog/src/buf.c:512-600 | Keeps the law for the cut and filled-up string, on either side. |
| LogBuffer.Buffer.WriteAll | lib/zlog/src/buf.c:275-600 | After any sequence of calls the content depends only on the whole text: all of it if it fits in one byte less than the limit; else, character by character, its beginning with the mark at the end, or the beginning of a mark that is too long. |
| LogText.BoundedHolds | lib/zlog/src/buf.c:148-212 | The same about the law itself. |
| LogBuffer.Buffer.WriteLine | lib/zlog/src/format.c:163-175 | After a restart the content is determined by the line alone, whatever the buffer held before and however far it has grown. |
| CommandLine.TokensOfRest | common/cmdparse.c:31-49 | Tokenizing what rest_after_tokens leaves gives exactly the tokens with the first ones dropped, for every line and number. |
| CommandLine.TokensRoundTrip | common/cmdparse.c:3-29 | Any words and phrases without quotes, written with quotes where needed, are read back as those tokens. |
| CommandLine.WordEnds | common/cmdparse.c:21-25 | A word ends at a blank or a tab and at no other character. |
| CommandLine.PhraseEnds | common/cmdparse.c:13-19 | A phrase ends at its closing quote, and the next token may follow at once. |
| CommandLine.Tokenize | common/cmdparse.c:3-29 | Cutting with NULs in place leaves the first tokens of the original line as C strings, in order, and as many as asked for or there are. |
| CommandLine.SplitLine | client/clcmd.c:498-508 | So a whole line with its NUL, tokenized in place, gives its first tokens as C strings, in order, and no fewer than asked for or there are. |
| CommandLine.RestAfterTokens | common/cmdparse.c:31-49 | The pointer loop stops where the specification says, without changing the line. |
| CommandLine.PassUntil | common/cmdparse.c:14-23 | The scanning loop stops at the first delimiter or at the end. |

## Left out

- ClientReceive.Client.Turn: the NUL that terminates MT_INFO and MT_REQ texts stays inside the consumed frame and is not modelled; user list caching, printing and file names are not either.
- ClientReceive.Client.TakeWrapped: what the source reads and writes outside the buffer when it handles a payload of nearly 2^64 bytes is undefined in C and not modelled; only what is removed from the buffer is.
- ServerInbound.Inbound.HandleInbound: a desynchronised client ignores its bytes; the server's resynchronising receive branch (server/worker.c:345-377) is not part of this model.
- ServerInbound.Inbound.Serve: who is online and who can be handed a message stays the same during a session, so a recipient lost in the middle of a transfer is covered for that transfer (Addressing.RecipientLost), not within a session.
- RelayMessages.SessionRelayed: messages for which the relay leaves step, by the condition of BorderReached, are excluded.
- Prepare.AnswersArrive: the user listing is a parameter.
- EndToEnd.FileDeliveredAmong: fopen succeeds and no empty text is followed by another frame.
- Conversation.Path.Run: the sender stays connected and the recipient reachable, no text is empty, and fopen succeeds; when the recipient's connection is lost, what its client had is in ClientReceive.Client.Receive.
- ClientSend.SendFile: opening and measuring the file, the path in front of its name, and normalizing the name of the recipient come before it; what befalls an upload is a parameter.
- Uploads.NextIsSwallowed: a message cut inside its header is left to Relay.HeaderRead; the client only stops there when its connection breaks.
- Outbound.StdClient.Run: a handler is one event; messages other workers enqueue during a handler count as enqueued before or after it.
- MessageQueue.MsgQueue.Flush: subjects are compared as the text before the first NUL, which is what strncmp sees.
- TimerHeap.Heap.Add: a client is added only once, and the clock reading is a parameter.
- TimerSweep.Sweep: client states do not change during one sweep.
- HashTable.Table.Add: each operation is one step under its locks; the hash function is a parameter, so the result holds for any; failing locks and allocations, and bucket counts beyond 64 bits, are not modelled.
- HashTable.Table.CopyAllKeys: the copy function is reduced to a choice of keys; the growing output buffer is not modelled.
- RefCount.FreedOnce: a node has fewer than 2^32 references at a time.
- RefCount.NoUseAfterFree: what a caller does with the result of an uncounted look-up is not a step.
- RingFifo.Fifo.Reserve: the double mapping is index arithmetic; the four pages of mmap calls in fifo_create are not modelled, and neither are weak memory orders.
- LogWriter.FlushWaits: one flush at a time and none after the exit command, as the callers in lib/zlog/src/zlog.c:358 and lib/zlog/src/zlog.c:405 ensure.
- LogRing.Queue.Run: payload sizes for which fifo_reserve wraps are excluded, as its callers never ask for them; payload bytes are in RingFifo.Fifo.Write and RingFifo.Fifo.Read.
- LogWriter.WriterSafety: a producer that never commits makes the writer spin; no fairness is assumed, so LogProgress counts the writer's own steps and says nothing about time.
- LogBuffer.Buffer.PrintNumber: widths are not negative; the source would convert a negative width to a huge one.
- LogBuffer.Buffer.Resize: reallocation succeeds, and 1.5 times the increment is exact, as it is below 2^53.
- CommandLine.Tokenize: the array of token pointers is a sequence of positions.
- Sockets, TLS, epoll, eventfd system calls, SQLite, SHA-256, JSON configuration, the readline interface, registration and IP blocking rules: foreign calls or single-branch logic.
- zlog_buf_vprintf, zlog configuration, formats, rotation and reload: depend on vsnprintf and files, or repeat the structures above.
- Shutdown, teardown and allocation-failure paths.
