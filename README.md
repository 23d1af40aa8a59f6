# OBPF Python client: wire codec, receiver and game loop

This project models the core of the Python client of the Open Brick Protocol
Foundation in Dafny. The client starts two block-stacking simulators, one
for the local player and one for the opponent. It sends the local key
events to a game server every fifteen frames. It decodes the server's
broadcasts on a receiver thread and advances the opponent's simulator only
as far as the broadcasts confirm.

The modules follow the source files:

- `Wrappers`: `Option` and `Result`.
- `Bytes`: bytes, u16 and u64 fields, and the big-endian encoding of
  Python's `struct` format `"!"`, with round-trip and exact-inverse lemmas.
- `Tetrion` (tetrion.py):
  - `Key`, `EventType` and `Event`, with the enum lookups of `Key` and
    `EventType`;
  - `TetrominoType` as the cell type only: the `TetrominoType(...)`
    conversion of a native cell value (tetrion.py:167) is part of the cell
    getter, which `ReadMatrix` takes as a parameter;
  - `_grouper`;
  - `Matrix`, including its constructor assertion, `rows` and indexing;
  - the `Tetrion` class. The native simulator behind the class is a frame
    counter and an event list. The class's handle-release logic (`__del__`,
    `__exit__`) is modelled.
- `LineClear` (line_clear_delay_state.py): `from_obpf`.
- `Wire` (main.py):
  - the bytes of `send_event_buffer`;
  - the GAME_START and EVENT_BROADCAST payload decoders, one `struct.unpack`
    at a time, plus the imperative broadcast decoding loop;
  - a reference encoder proved to be their exact inverse.
- `Receiver` (main.py `keep_receiving`): the resumable decoder as a step
  function on (buffer, pending header, queue), its properties, and a class
  whose methods run the loop body over given chunks.
- `Session` (main.py `main`, the game loop): input capture, the local
  simulation one frame behind, the drain of broadcasts, the remote frontier
  `min(frame - 30, other_client_frame)`, and the catch-up loop that sends
  and clears the event buffer at every frame divisible by 15.

In these places the code behaves differently from what one might expect of
the protocol, and the model follows the code:

- **Several messages in one chunk.** One might expect every message in a
  chunk to be decoded. The code parses at most one header and one payload per received
  chunk, so the second message waits for the next chunk
  (`Receiver.ConcatenatedMessagesTakeTwoSteps`).
- **Empty reads.** An empty `recv` result does not end the loop. It runs
  one more step.
- **Bytes consumed.** A payload's bytes are taken by its structure (17 bytes,
  or 9 bytes plus the client groups), not by `payload_size`.
- **Unusable tags.** Tags 0 (HEARTBEAT) and 1 (GRID_STATE) are rejected
  only once `payload_size` bytes are buffered. A tag above 3 is rejected as
  soon as the header is read.
- **Missing keys.** main.py builds `Key.DOWN`, `Key.ROTATE_CCW` and
  `Key.ROTATE_CW`, but tetrion.py's `Key` has only LEFT, RIGHT and DROP. In
  the model these key bindings end the tick with `MissingKey`, as the
  attribute lookup would raise.
- **The seed.** main.py:228 calls `Tetrion(seed)`, but `Tetrion.__init__`
  (tetrion.py:171) takes no argument. As written the call raises TypeError
  and the game loop is never reached. The game loop is modelled as if
  construction had succeeded, and the model's constructor takes no seed.

## Model

| member | source | states |
|---|---|---|
| Bytes.FromBigEndianBound | main.py:136 | an n-byte big-endian field decodes to a value below 256^n |
| Bytes.BigEndianRoundTrip | main.py:53-55 | decoding the n-byte big-endian encoding of x gives x back |
| Bytes.BigEndianInverse | main.py:136 | re-encoding a decoded n-byte field gives the same bytes: the encoding is a bijection |
| Bytes.U16RoundTrip | main.py:53 | a packed u16 field unpacks to its value |
| Bytes.U64RoundTrip | main.py:53-55 | a packed u64 field unpacks to its value |
| Bytes.U16Inverse | main.py:136 | any two bytes are the packing of the u16 they unpack to |
| Bytes.U64Inverse | main.py:156 | any eight bytes are the packing of the u64 they unpack to |
| Bytes.U16Layout | main.py:53 | a u16 field is its high byte followed by its low byte |
| Tetrion.KeyOf | tetrion.py:39-42 | Key(b) succeeds exactly for b < 3, and the key found has value b |
| Tetrion.EventTypeOf | tetrion.py:45-47 | EventType(b) succeeds exactly for b < 2, and the type found has value b |
| Tetrion.KeyRoundTrip | tetrion.py:39-42 | looking up a key's value gives the key back |
| Tetrion.EventTypeRoundTrip | tetrion.py:45-47 | looking up an event type's value gives the type back |
| Tetrion.Grouper | tetrion.py:215-217 | with n <= 0 nothing is yielded; every tuple yielded has exactly n items |
| Tetrion.GrouperSpec | tetrion.py:215-217 | the grouper yields len/n tuples, these concatenate to the front of the input, and it raises afterwards exactly when len % n != 0 |
| Tetrion.GrouperCount | tetrion.py:215-217 | for len == q*n + r with 0 <= r < n: q tuples, concatenating to the first q*n items, and a failure exactly when r != 0 |
| Tetrion.NewMatrix | tetrion.py:221-224 | construction succeeds exactly when width > 0 and width divides len(minos); width 0 is the ZeroDivisionError; on success minos and width are kept and height = len // width |
| Tetrion.Width | tetrion.py:226-228 | a matrix's width is positive and divides len(minos) |
| Tetrion.Height | tetrion.py:230-232 | height * width == len(minos): the floor division is exact |
| Tetrion.Rows | tetrion.py:234-236 | rows is exactly the grouper's output, which never reaches its ragged-tail failure: height rows of width cells that concatenate to minos |
| Tetrion.Get | tetrion.py:238-241 | indexing succeeds exactly for 0 <= x < width and 0 <= y < height; otherwise IndexError carries the position |
| Tetrion.FlattenAt | tetrion.py:234-241 | in rows of equal width w, flat index y*w + x is cell x of row y |
| Tetrion.GetIsRowsCell | tetrion.py:234-241 | m[Vec2(x, y)] equals cell x of row y of m.rows |
| Tetrion.RowMajor | tetrion.py:185-188 | the double loop reads height * width cells |
| Tetrion.RowMajorAt | tetrion.py:185-188 | the cell read for (x, y) sits at index y * width + x |
| Tetrion.Tetrion.constructor | tetrion.py:171-172 | a fresh handle: not destroyed, nothing simulated or enqueued |
| Tetrion.Tetrion.SimulateUpUntil | tetrion.py:177-178 | the simulated frontier becomes the larger of the old one and the frame asked for |
| Tetrion.Tetrion.EnqueueEvent | tetrion.py:180-181 | the event is appended to the events handed to the simulator |
| Tetrion.Tetrion.Del | tetrion.py:206-209 | destroys the handle only if it is still present, so it is destroyed at most once and is gone afterwards |
| Tetrion.Tetrion.Exit | tetrion.py:202-204 | releases the handle and suppresses nothing after an exception (returns true exactly when none was raised) |
| Tetrion.Tetrion.ReadMatrix | tetrion.py:183-189 | fails exactly when width is 0; otherwise a width x height matrix whose every in-range cell is the native cell at that position |
| Tetrion.WithBlock | tetrion.py:199-209 | leaving a with-block and then garbage collection destroy the native handle exactly once |
| LineClear.FromObpf | line_clear_delay_state.py:24-34 | the lines are the first min(count, 4) of the four slots, in order (none when count is 0); countdown and delay are copied |
| Wire.MessageTypeOf | main.py:81-85 | MessageType(b) succeeds exactly for b <= 3, and the type found has value b |
| Wire.EventRecord | main.py:55 | one event record is 10 bytes |
| Wire.EventRecords | main.py:54-55 | n event records are 10n bytes |
| Wire.EventBufferMessage | main.py:52-55 | the message is 12 + 10n bytes, and the n event records follow the 12-byte head |
| Wire.SendEventBuffer | main.py:50-56 | fails (struct.error) exactly when there are more than 255 events; otherwise the bytes are tag 0, size, frame, count and the records |
| Wire.ParseEvent | main.py:156-158 | one record fails exactly when fewer than 10 bytes remain, the key byte is above 2 or the type byte above 1; truncation is reported first, then the key; a success consumes 10 bytes |
| Wire.ParseEvents | main.py:155-158 | fewer than 10 bytes per record always fail; a success yields count events and consumes exactly 10 * count bytes |
| Wire.ParseClient | main.py:152-159 | fewer than 2 bytes fail with struct.error; a success carries client_id and event_count events and consumes 2 + 10 * event_count bytes |
| Wire.ParseClients | main.py:151-159 | fewer than 2 bytes per group always fail; a success yields num_clients groups and consumes at least 2 bytes per group |
| Wire.ParseBroadcast | main.py:148-160 | fewer than 9 bytes fail with struct.error; a success is a broadcast for the unpacked frame with num_clients groups, consuming at least 9 + 2 * num_clients bytes |
| Wire.ParseGameStart | main.py:142-144 | succeeds exactly when 17 bytes are there, then consumes exactly 17 and carries the client id; otherwise struct.error |
| Wire.ParsePayload | main.py:140-163 | tags 0 and 1 raise the invalid-message-type exception; a decoded message's kind is the one its tag names, and it consumes at least one byte |
| Wire.DecodeEvents | main.py:155-158 | the inner loop over event_count records returns exactly what the record decoder returns, errors included |
| Wire.DecodeEventBroadcast | main.py:147-161 | the outer loop over num_clients groups returns exactly what the recursive broadcast decoder returns, errors included |
| Wire.EncodeClientsLength | main.py:151-159 | the encoded client groups take 2 + 10 * count bytes each |
| Wire.PayloadLength | main.py:141-161 | a GAME_START payload is 17 bytes; a broadcast payload is 9 bytes plus its groups |
| Wire.EventRoundTrip | main.py:156-158 | an event record decodes to its event and leaves the following bytes |
| Wire.EventInverse | main.py:156-158 | a decoded event record is exactly the encoding of the event it yields |
| Wire.EventsRoundTrip | main.py:155-158 | n encoded events decode, as n records, to the same events in order |
| Wire.EventsInverse | main.py:155-158 | a successful decode of count records yields count events whose encoding is exactly the bytes consumed |
| Wire.ClientsRoundTrip | main.py:151-159 | encoded client groups decode to the same groups in order |
| Wire.ClientInverse | main.py:152-159 | a decoded client group is exactly the encoding of the group it yields |
| Wire.ClientsInverse | main.py:151-159 | a successful decode of num_clients groups yields that many groups whose encoding is exactly the bytes consumed |
| Wire.GameStartRoundTrip | main.py:142-144 | an encoded GAME_START payload decodes to the same message and leaves the following bytes |
| Wire.BroadcastRoundTrip | main.py:148-160 | an encoded EVENT_BROADCAST payload decodes to the same message and leaves the following bytes |
| Wire.PayloadRoundTrip | main.py:140-161 | decoding an encoded payload under its own tag gives the message back |
| Wire.GameStartInverse | main.py:142-143 | a successful GAME_START decode consumes exactly 17 bytes, and they encode the message |
| Wire.BroadcastInverse | main.py:148-160 | a successful broadcast decode yields num_clients groups and consumes exactly 9 bytes plus 2 + 10 * count per group, which encode the message |
| Wire.EventBufferHeadLayout | main.py:52-53 | the "!BHQB" head is 12 bytes: tag 0, size 9 + 10n, the frame, the count n |
| Wire.EventBufferLayout | main.py:50-56 | the message is 12 + 10n bytes; it carries tag 0, a size equal to the true payload length 9 + 10n, the frame and n; the body decodes back to the events |
| Receiver.Receiver.constructor | main.py:114-115 | starts with an empty buffer, no pending header and an empty queue |
| Receiver.Receiver.HandleChunk | main.py:134-164 | on success the new state is the step function's value; on an exception the error is reported and the queue is untouched |
| Receiver.Receiver.KeepReceiving | main.py:117-164 | after a run of chunks the state and error are those of feeding the chunks one step at a time, stopping at the first error |
| Receiver.FeedStopsAfterFailure | main.py:121-163 | once a chunk has raised, no later chunk changes anything |
| Receiver.HeaderPhase | main.py:135-138 | fails exactly when no header is pending, 3 bytes are there and the tag is above 3 (the ValueError carries the tag); reading a header removes exactly the 3 header bytes and records their tag and size; a pending header is kept |
| Receiver.PayloadPhase | main.py:139-164 | with no header or fewer than payload_size bytes nothing changes; past that gate a success appends exactly one message, drops the header and consumes at least one byte; errors arise only past the gate |
| Receiver.Step | main.py:134-164 | one chunk keeps the queue as a prefix and adds at most one message, clearing the pending header when it adds one |
| Receiver.Feed | main.py:121-164 | over any run of chunks the old queue stays at the front and at most one message per chunk is added |
| Receiver.StepWaitsForHeader | main.py:135-138 | with no header pending and fewer than 3 bytes, a step only buffers |
| Receiver.StepWaitsForPayload | main.py:139 | with a header pending and fewer than payload_size bytes, a step only buffers |
| Receiver.StepKeepsPendingHeader | main.py:135 | a pending header is never re-read; it stays or is dropped together with one decoded message |
| Receiver.StepDecodesOnlyWhenPayloadBuffered | main.py:139-161 | a message is decoded only once payload_size bytes are buffered, and with the kind its tag names |
| Receiver.StepConsumesByStructure | main.py:141-161 | the bytes a decoded message takes are exactly its own encoding, whatever payload_size said |
| Receiver.StepRejectsUnknownTag | main.py:136-138 | a tag above 3 raises as soon as the header is read |
| Receiver.StepRejectsHeartbeatAndGridState | main.py:162-163 | tags 0 and 1 raise "invalid message type", but only once payload_size bytes are buffered |
| Receiver.UnderstatedPayloadSizeTruncates | main.py:139-143 | with payload_size below 17, a GAME_START decode on a short buffer fails in struct.unpack |
| Receiver.StepDecodesFramed | main.py:134-164 | a framed message at the front of the buffer is decoded in one step, and the bytes after it stay buffered |
| Receiver.SplitDelivery | main.py:134-164 | a framed message split into two chunks at any offset is decoded exactly once, with nothing left over |
| Receiver.SplitInHeader | main.py:134-164 | a split inside the 3 header bytes: the first chunk only buffers, the second decodes |
| Receiver.SplitInPayload | main.py:134-164 | a split after the header: the first chunk records the header, the second decodes the payload |
| Receiver.SplitAtEnd | main.py:134-164 | a whole message decodes in one chunk, and a following empty chunk changes nothing |
| Receiver.ConcatenatedMessagesTakeTwoSteps | main.py:134-164 | two messages in one chunk: only the first is decoded; the second needs another step, even an empty one |
| Session.KeyFor | main.py:250-273 | only the LEFT, RIGHT and DROP bindings name a key tetrion.py defines |
| Session.React | main.py:244-298 | a press or release of a mapped key emits that key, pressed or released, tagged with the current frame; QUIT or the quit key down requests quit; DOWN and the rotations fail; everything else is ignored |
| Session.Edge | main.py:250-298 | a key edge emits exactly for LEFT, RIGHT and DROP, with that key, the edge given and the current frame; an unbound key is ignored; DOWN and the rotations fail with MissingKey; an edge never quits |
| Session.Capture | main.py:244-298 | a tick captures at most one event per pygame event, each tagged with the tick's frame |
| Session.CaptureProperties | main.py:244-298 | every captured event carries the tick's frame; a tick fails exactly when some event names a missing key; without failure, quit is captured exactly when requested |
| Session.CaptureStopsAfterFailure | main.py:244-298 | once an event fails the tick, later events are not processed |
| Session.LocalTarget | main.py:300-301 | the local simulation is advanced exactly when frame > 0, to frame - 1 |
| Session.RemoteTarget | main.py:311-312 | the remote simulation is advanced exactly when frame > 30 and a broadcast has arrived; its target is never above frame - 30 nor above the other client's frame, and is one of them |
| Session.RemoteTargetScenario | main.py:311-312 | at frame 100 with no broadcast it waits; after a broadcast for frame 50 it runs to 50; at frame 60 it runs to 30; at frame 30 it waits |
| Session.AcceptedPrefix | main.py:303-306 | the drain accepts exactly the leading broadcasts that have at least one client, and stops at the first message that is not one |
| Session.LatestFrame | main.py:303-307 | with no accepted broadcast other_client_frame is unchanged; otherwise it is set, to the frame of one of them |
| Session.HighestFrame | main.py:307 | the highest confirmed frame bounds every accepted broadcast frame, never falls, and is the previous value or one of those frames: the maximum reached |
| Session.FlushFramesExact | main.py:332-336 | the buffer is sent at exactly the loop frames divisible by 15, in increasing order |
| Session.FlushFramesExtend | main.py:332-336 | a longer catch-up only appends send frames |
| Session.FirstFlush | main.py:332-335 | with nothing sent before frame f, a send at f is the first in any longer run |
| Session.FlushFramesFit | main.py:332-336 | every send frame is a u64, as struct.pack's "Q" field demands |
| Session.Sends | main.py:332-335 | one message is sent per send frame |
| Session.SendsAt | main.py:332-335 | the i-th message sent is the packed buffer at the i-th send frame, emptied after the first |
| Session.CatchUpFinished | main.py:332-336 | a catch-up run to its end leaves the frame at max(frame, new_frame - 1), the buffer sent at the first send frame and empty buffers at later ones |
| Session.CatchUpStopped | main.py:332-335 | a first send that cannot be packed stops the catch-up at that frame with nothing sent and the buffer kept |
| Session.Session.constructor | main.py:233-239 | frame 0, an empty event buffer, no other client frame, nothing sent, not done |
| Session.Session.HandleInput | main.py:244-298 | an emitted event is enqueued into the local simulation and buffered, tagged with a frame the local simulation has not reached; a quit sets done; a failure changes nothing |
| Session.Session.ProcessInputs | main.py:244-298 | the events enqueued and buffered, the quit flag and the failure are those of capturing the tick's events in order |
| Session.Session.Drain | main.py:303-309 | the other client's frame becomes the last accepted broadcast's frame; the first non-broadcast or clientless message raises |
| Session.Session.Simulate | main.py:300-312 | the local simulation reaches frame - 1; after the drain the remote one reaches min(frame - 30, other frame) when both conditions hold; the frontier invariant is kept |
| Session.Session.Flush | main.py:333-335 | sends the buffer's message and clears it, or fails with more than 255 events and changes nothing |
| Session.Session.CatchUp | main.py:332-336 | the frame becomes max(frame, new_frame - 1); the messages sent are the buffer at the first send frame and empty buffers at later ones; a buffer over 255 events fails at the first send frame |
| Session.Session.Tick | main.py:243-336 | done is set exactly by a quit among the tick's events, whose key events are enqueued in order; a missing key stops the tick before the simulations with the earlier events buffered; otherwise the local simulation reaches frame - 1, other_client_frame becomes the last accepted broadcast's frame, and the remote simulation reaches its min target unless the drain raised; a drain failure stops before the catch-up; otherwise the frame, what is sent and the buffer are the catch-up's outcome on the old buffer plus the tick's events; frames and frontiers only move forward |
| Session.Session.Run | main.py:243-336 | the loop stops at quit or failure; across ticks the frontiers only move forward and the frontier invariant holds |
| Session.Session.Advance | main.py:336 | the frame counter is incremented and nothing else changes |

## Left out

- Sockets, `select`, the 4096-byte `recv` limit, the receiver thread and the shared `done` flag: the receiver is given its chunks, and what the game loop sends is appended to a sequence.
- The lobby and HTTP flow and the connection set-up (main.py:170-217) are outside this model.
- The wait for and removal of the GAME_START message (main.py:219-226) is not modelled: it is a busy-wait, and the seed it yields only reaches the native simulator.
- The native simulator library is foreign code. It is modelled by the frame it has been asked to reach and the events it was handed. Active tetrominoes, ghost tetrominoes and the content of the cells it reports are not modelled: the cell getter is a parameter of `ReadMatrix`.
- Rendering (`render_tetrion`, pygame's display and FPS counter) is left out as output only.
- The floating-point clock (main.py:329-330) is replaced by the frame number the clock reports, an input of each tick.
- Enqueuing the opponent's events into the remote simulation is commented out in the source (main.py:308-309), so the model never changes the remote event list.
- synchronized.py and controls.py are not part of this model. The key bindings are the abstract `Control` values.
- Unwinding a main-loop exception through the two with-blocks is not linked to the loop. `Tetrion.WithBlock` models the release of one handle on its own.
- Receiver.Receiver.HandleChunk: on an exception the thread ends, so its buffer and header are unobservable. The model leaves the whole state unchanged and does not model the partial buffer cut.
- Session.Session.Run: states validity, termination at quit or failure, and monotonicity across ticks, not each tick's outcome (that is what `Tick` states).
- Session.LatestFrame: its contract says the new other_client_frame is the frame of one of the accepted broadcasts; that it is the last one is its definition, which `Drain` and `Tick` use.
- Session.FlushFrames: has no contract of its own; FlushFramesExact, FlushFramesExtend and FirstFlush state what it computes, which keeps the catch-up proof small.
- Tetrion.NewMatrix: takes a non-negative width. Python's `Matrix` also accepts a negative width that divides len(minos) (`6 % -3 == 0`), but `Tetrion.matrix` only passes the native width, which is unsigned.
- Tetrion.Tetrion.SimulateUpUntil: the native call's effect on the game state is not modelled, only the frontier, taken as never moving back.
- ctypes conversions (`c_int` keys, `c_uint8` slots) are modelled by the value ranges of the fields.
