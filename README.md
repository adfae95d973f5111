# Tcp-Client framing, modelled in Dafny

This project models the core of the `TcpClient` in `src/client.rs`: the
length-prefixed framing protocol it speaks over a nonblocking TCP socket.
Every message on the wire is a frame: an 8-byte little-endian `u64` giving the
payload length, followed by the payload.

- `codec.dfy` (module `Codec`): the header (`to_le_bytes` / `from_le_bytes`
  on a `u64`), a frame, and the stream made by sending several payloads. It
  proves that the header round-trips.
- `writer.dfy` (module `Writer`): `send`. The socket's write half is a class
  whose `Write` method consumes the next entry of a script of `write`
  outcomes: `Ok(n)`, `WouldBlock` or another error kind. The bytes the socket
  accepted are kept in a ghost sequence. The two write loops (header, then
  body) are one method, `WriteLoop`, called twice. Each loop is proved
  against the recursive function `Drain`, and `send` against `SendSpec`.
- `reassembly.dfy` (module `Reassembly`): the loop that `receive` runs on its
  own thread. The state (`buffer`, `read_bytes`, `amount_to_read`) lives in
  the class `Pump`, and one pass through the loop body is `Pump.Step`. The
  handler is a ghost sequence that every dispatch appends to. What an
  iteration observes is an `Event`:
  - the shutdown channel delivered `true`;
  - `read` returned k ≥ 1 bytes;
  - `read` returned 0 bytes;
  - `read` failed with `WouldBlock`;
  - `read` failed otherwise.

  The methods are proved against the functions `Prepare` (decode and resize
  at the top of the loop), `Absorb` (the read and the dispatch check),
  `Iterate` and `Run`. The main theorem is `ReassemblesFrames`: feed the loop
  the frames of non-empty payloads, cut into reads of any sizes and
  interleaved with read errors, and it hands exactly those payloads to the
  handler, in order.
- `client.dfy` (module `Client`): `disconnect`, and the poll of the shutdown
  channel at the top of the receive loop. The channel is a queue of `bool`
  messages.

The model keeps these behaviours of the code as they are:

- The length is decoded one iteration late. On the read that completes the
  header, `amount_to_read` is still 0. The next iteration decodes it and grows
  the buffer (`HeaderCompletesUndecoded`).
- A frame with an empty payload is never dispatched. Once its header is in,
  however it was split over reads, the buffer stays 8 bytes long, every later
  read is handed an empty slice, the state never changes again, and anything
  the handler still receives is an empty payload, from 0-byte reads
  (`EmptyFrameHeaderWedges`, `WedgedForever`). `ReassemblesFrames` therefore
  requires non-empty payloads.
- A 0-byte read calls the handler with an empty payload and does not end the
  loop. The commented-out `exit(0)` at src/client.rs:152 suggests the loop
  was once meant to stop there; this model follows the code as it stands.
- Read errors other than `WouldBlock` are ignored, and the loop goes on.
- `WouldBlock` and other read errors still pass through the top-of-loop
  decode and resize, so right after a header completes they grow the buffer
  (`ReadsWithoutBytesKeepState`).

## Model

| member | source | states |
|---|---|---|
| Codec.EncodeHeader | src/client.rs:78 | the header of a length is exactly 8 bytes |
| Codec.DecodeHeader | src/client.rs:139-140 | the length read back from 8 header bytes is below 2^64 |
| Codec.HeaderRoundTrip | src/client.rs:78 | decoding the header written for a length gives that length back |
| Codec.HeaderDecodesUniquely | src/client.rs:139-140 | every 8-byte header is the encoding of the length it decodes to |
| Codec.FromLittleEndianInverse | src/client.rs:78 | reading back the k little-endian digits of n < 256^k gives n |
| Codec.LittleEndianInverse | src/client.rs:139-140 | writing out the number a byte sequence denotes gives that sequence back |
| Codec.Frame | src/client.rs:78-114 | what one `send` puts on the wire, header then payload, is 8 bytes longer than the payload |
| Codec.Wire | src/client.rs:78-114 | the bytes of several `send` calls one after another, empty exactly when no payload was sent |
| Codec.FrameSplits | src/client.rs:78-114 | the first 8 bytes of a frame decode to the payload length, and the rest of the frame is the payload |
| Codec.WireStartsWithFrame | src/client.rs:78-114 | a stream of frames is the first frame followed by the stream of the others |
| Writer.Report | src/client.rs:83 | `write` reports at most as many bytes as it was handed, and passes errors through unchanged |
| Writer.WriteHalf.constructor | src/client.rs:76 | a socket starts with its script of outcomes and nothing emitted |
| Writer.WriteHalf.Write | src/client.rs:83 | one `write` consumes one outcome and emits exactly the reported prefix of its slice |
| Writer.Drain | src/client.rs:82-97 | a write loop never consumes more outcomes than the script holds |
| Writer.WriteLoop | src/client.rs:82-97 | the header loop (and the identical body loop at lines 99-114) ends, emits and leaves the script exactly as `Drain` says |
| Writer.TurnKeepsAccount | src/client.rs:84-91 | a write that is not fatal advances the counter by the reported size only (by nothing for 0 bytes or `WouldBlock`), never past the span, and keeps the loop's account of emitted bytes |
| Writer.SendSpec | src/client.rs:74-117 | `send` as a function of the script: the header loop, then the body loop only once the header is done; it never consumes more outcomes than the script holds |
| Writer.Send | src/client.rs:74-117 | `send` writes the header loop, then the body loop only if the header finished, with result, emitted bytes and remaining script as `SendSpec` says |
| Writer.DrainEmitsPrefix | src/client.rs:82-97 | a write loop emits a prefix of what is left of its span, each byte once and in order, and reports `Done` exactly when it emitted all of it |
| Writer.DrainRestIsSuffix | src/client.rs:82-97 | a write loop consumes a prefix of the script |
| Writer.DrainAbortsAtFirstFatal | src/client.rs:89-94 | a write loop that aborts does so on the first fatal error and consumes nothing after it |
| Writer.DrainWithoutFatal | src/client.rs:89-94 | without a fatal error a write loop never aborts |
| Writer.DrainTrickle | src/client.rs:82-88 | a socket taking at least one byte per call finishes the span within as many calls as there are bytes left |
| Writer.SendEmitsFramePrefix | src/client.rs:82-116 | `send` emits a prefix of the frame (no body byte before the whole header), and returns `Ok` exactly when it emitted the whole frame |
| Writer.SendFailsAtFirstFatal | src/client.rs:92-94 | `send` returns `Err(kind)` only at the first fatal error, with the same kind, and issues no write after it (likewise lines 109-111) |
| Writer.SendFatalFails | src/client.rs:89-94 | any fatal error among the writes `send` issued makes it return `Err` at once (likewise lines 106-111), never go on or run out |
| Writer.OutOfScriptNoFatal | src/client.rs:89-94 | a write loop that is still retrying when the outcomes run out met no fatal error |
| Writer.SendWithoutFatal | src/client.rs:89-111 | a socket that never reports a fatal error never makes `send` fail |
| Writer.SendTrickle | src/client.rs:74-117 | a socket taking one or more bytes per call delivers the whole frame, `send` succeeds, and at most 8 + len calls are used |
| Writer.SendRestIsSuffix | src/client.rs:74-117 | `send` consumes write outcomes from the front of the script, so nothing is written after the last outcome it used |
| Writer.DoneConsumedNoFatal | src/client.rs:82-97 | a write loop that finished consumed no fatal error |
| Reassembly.Valid | src/client.rs:124-163 | what holds between passes: an 8-byte buffer while no length is decoded, and once it is, the buffer is 8 + decoded length with the header read and the frame still incomplete; `read_bytes` never exceeds the buffer (its preservation is stated by `Iterate`) |
| Reassembly.Start | src/client.rs:124-126 | the loop starts with an 8-byte buffer, nothing read and no length |
| Reassembly.Resize | src/client.rs:143 | `resize(n, 0)` keeps the first bytes and pads with zeros to length n |
| Reassembly.Prepare | src/client.rs:138-145 | before 8 bytes are in nothing changes; afterwards the length is the decoded header and the buffer is exactly 8 + length long, with the read bytes kept |
| Reassembly.Absorb | src/client.rs:147-173 | a read, a 0-byte read or an error leaves the loop state well formed, keeps going, and calls the handler at most once |
| Reassembly.Iterate | src/client.rs:129-174 | one pass keeps the shape invariant (8-byte buffer until the header is in, then 8 + decoded length; `read_bytes` never beyond the buffer), and breaks exactly on shutdown |
| Reassembly.Run | src/client.rs:129-174 | the loop over a sequence of events keeps the shape invariant and takes no more events than offered |
| Reassembly.RunAdvances | src/client.rs:129-174 | one more pass either ends the run or keeps the loop's running account of handled payloads and taken events |
| Reassembly.Pump.constructor | src/client.rs:124-126 | a fresh loop state with nothing handed to the handler |
| Reassembly.Pump.Step | src/client.rs:130-173 | one pass changes the state, the handler log and the exit flag exactly as `Iterate` says |
| Reassembly.Pump.SizeBuffer | src/client.rs:138-145 | the top of the loop changes the state as `Prepare` says and calls no handler |
| Reassembly.Pump.ReadOnce | src/client.rs:147-173 | the read and the dispatch change the state and the handler log as `Absorb` says |
| Reassembly.Pump.Receive | src/client.rs:129-174 | the whole loop ends in the state, with the handler calls and after the events that `Run` gives |
| Reassembly.DispatchExactlyWhenComplete | src/client.rs:155-164 | a payload is dispatched exactly when `amount_to_read > 0` and `read_bytes` reaches 8 + length; it is everything read after the header and the state resets to an 8-byte buffer with both counters 0; otherwise the read bytes are kept and counted |
| Reassembly.ReadsWithoutBytesKeepState | src/client.rs:147-172 | a 0-byte read calls the handler once with an empty payload, errors call nothing, and none of them changes the state beyond the top-of-loop resize |
| Reassembly.ShutdownBeforeRead | src/client.rs:130-135 | when the channel delivers `true` the loop ends before reading, dispatching nothing and leaving the partial frame as it was |
| Reassembly.HeaderCompletesUndecoded | src/client.rs:138-157 | the read that completes the header leaves the length at 0 and the buffer at 8 bytes; the next pass decodes the length and resizes |
| Reassembly.EmptyFrameHeaderWedges | src/client.rs:138-152 | a fresh loop that reads the header of an empty payload, split over any reads and read errors, ends wedged |
| Reassembly.EmptyHeaderArrives | src/client.rs:138-157 | while the header of an empty payload comes in the loop only collects it, and once it is in the loop is wedged |
| Reassembly.HeaderStep | src/client.rs:138-172 | a read or read error before the header is complete appends what it reads to the header and leaves the length undecoded |
| Reassembly.HeaderRead | src/client.rs:147-157 | a read before the header is complete appends its bytes to the header and dispatches nothing, since the length is still 0 |
| Reassembly.WedgedForever | src/client.rs:138-152 | once wedged, every read is handed an empty slice, the state never changes and only empty payloads reach the handler |
| Reassembly.RunStopsAtShutdown | src/client.rs:129-135 | the loop takes every event up to and including the first shutdown and none after it |
| Reassembly.RunTakesAll | src/client.rs:129-174 | without a shutdown, and even after 0-byte reads, the loop takes every event |
| Reassembly.SyncRoom | src/client.rs:138-147 | with frame bytes still to come, the next read is handed room for at least one byte |
| Reassembly.SyncHeader | src/client.rs:138-140 | once the header of the current frame is in, it decodes to that frame's payload length |
| Reassembly.SyncStep | src/client.rs:147-173 | a read or read error keeps the loop in step with the stream, handing over the current payload exactly when its frame is complete |
| Reassembly.SyncIdle | src/client.rs:168-172 | a read error keeps the loop in step with the stream and hands nothing over |
| Reassembly.SyncReceived | src/client.rs:147-166 | a read either completes the current frame, whose payload is handed over, or extends it |
| Reassembly.SyncDispatch | src/client.rs:157-163 | when the bytes read are the whole first frame, the dispatched slice is its payload and what follows is the stream of the others |
| Reassembly.SyncEnd | src/client.rs:129-174 | with no bytes to come, every payload was handed over and the loop is reset |
| Reassembly.RunQuiet | src/client.rs:129-174 | a read or read error does not end the loop; the run continues with the rest of the events |
| Reassembly.SyncRun | src/client.rs:129-174 | reads that deliver the rest of the stream hand over the remaining payloads in order and leave the loop reset |
| Reassembly.ReassemblesFrames | src/client.rs:123-174 | the frames of non-empty payloads, read in any chunking and interleaved with read errors, reach the handler as exactly those payloads, in order, and the loop ends reset |
| Reassembly.OneByteReads | src/client.rs:147 | the stream read one byte per call |
| Reassembly.OneByteReadsFeasible | src/client.rs:147 | a socket may deliver a frame stream one byte per read |
| Reassembly.ByteAtATime | src/client.rs:123-174 | a socket returning one byte per read still gets exactly the sent payloads to the handler |
| Client.TryRecv | src/client.rs:131 | `try_recv` yields nothing exactly on an empty queue, and otherwise the oldest message |
| Client.AfterRecv | src/client.rs:131 | `try_recv` removes exactly the oldest message |
| Client.Connection.constructor | src/client.rs:35-42 | a new connection is not shut down and its channel is empty |
| Client.Connection.Disconnect | src/client.rs:62-72 | `disconnect` returns whether the shutdown succeeded, and only then marks the socket shut down and queues `true` |
| Client.Connection.Poll | src/client.rs:130-135 | the poll takes at most one message and breaks the loop exactly when it is `true` |
| Client.StopsIffQueued | src/client.rs:130-135 | with only `true` ever sent, the next poll breaks the loop exactly when a message is queued |
| Client.DisconnectKeepsOnlyTrue | src/client.rs:66-67 | `disconnect` only ever queues `true` |
| Client.DisconnectStopsNextPoll | src/client.rs:62-72 | after a successful `disconnect` the next poll breaks the receive loop; after a failed one the loop goes on unless an earlier message is still queued |

## Left out

- Connecting (`TcpClientData::new`, `TcpClient::connect`) and putting the socket into nonblocking mode: this is OS socket set-up with no framing logic.
- The real `read`, `write` and `shutdown` calls. They are replaced by scripted outcomes (`WriteResult`), by read events (`Event`) and by the `shutdownOk` parameter of `Disconnect`. A read is assumed to return between 1 and as many bytes as its slice holds (`Admissible`). A write is assumed to report at most as many bytes as its slice holds (`Report`).
- Threads, the `Arc`/`Mutex` sharing, the mpsc channel mechanics and the branches taken when a mutex is poisoned. These are about concurrency. The handler is a ghost log of its arguments. The channel poll of each pass is folded into the event: `Shutdown` when it delivered `true`, any other event when it delivered nothing. `Client.Connection.Poll` models that poll on its own.
- The `thread::sleep` back-offs after `WouldBlock`: they are timing, not behaviour.
- `set_on_message_received` and `TcpClient::set_nonblocking`. The first replaces the boxed handler across threads. The second stores a flag nothing reads.
- `src/custom_types.rs`: plain data declarations whose only behaviour is derived serialization, which is not part of this model.
- Reassembly.Prepare: lengths are unbounded `nat`s. The `usize` overflow of `8 + amount_to_read` for a hostile header, and the allocation failure of a huge `resize`, are not modelled.
- Writer.Send: when the script of outcomes runs out before a loop finishes, the model returns `Unfinished` (`OutOfScript` from `WriteLoop`). The code would keep calling `write`.
- Reassembly.Pump.Receive: the loop runs over a finite sequence of events. The code's loop runs until the shutdown message arrives.
- Reassembly.ReassemblesFrames: only non-empty payloads are covered, because the code never dispatches an empty one (see `WedgedForever`).
- Client.Connection.Disconnect: the socket's shut-down state is recorded but the receive loop does not see it. After `shutdown(Both)`, a pass already past the poll would read 0 bytes and call the handler with an empty payload before it polls `true`. The model allows this only because the read events are arbitrary; it does not derive them from the socket's state.
