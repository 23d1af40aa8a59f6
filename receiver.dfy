/**
 * The resumable decoder in the body of keep_receiving (main.py): a byte
 * buffer and an optional pending header, stepped once per chunk that recv
 * returns, appending decoded messages to the message queue.  select, recv,
 * the thread and the shared done flag are not part of the model: the chunks
 * are given.
 */
module Receiver {
  import opened Wrappers
  import opened Bytes
  import opened Wire

  datatype ReceiverState = ReceiverState(buffer: seq<Byte>, header: Option<MessageHeader>, queue: seq<Message>)

  /** The header phase: a header is read once none is pending and three bytes are there. */
  function HeaderPhase(buffer: seq<Byte>, header: Option<MessageHeader>): (r: Result<(seq<Byte>, Option<MessageHeader>), DecodeError>)
    ensures r.Err? <==> header.None? && |buffer| >= 3 && buffer[0] > 3
    ensures r.Err? ==> r.error == InvalidTypeValue(buffer[0])
    ensures r.Ok? && header.Some? ==> r.value == (buffer, header)
    ensures r.Ok? && header.None? ==> (r.value.1.Some? <==> |buffer| >= 3)
    ensures r.Ok? && r.value.1 != header ==>
      r.value.0 == buffer[3..] && MessageTypeValue(r.value.1.value.messageType) == buffer[0] &&
      U16Bytes(r.value.1.value.payloadSize) == buffer[1..3]
  {
    if header.None? && |buffer| >= 3 then
      match MessageTypeOf(buffer[0])
      case None => Err(InvalidTypeValue(buffer[0]))
      case Some(t) =>
        U16Inverse(buffer[1..3]);
        Ok((buffer[3..], Some(MessageHeader(t, ReadU16(buffer[1..3])))))
    else
      Ok((buffer, header))
  }

  /** The payload phase: with a header pending and at least payload_size bytes
      buffered, the payload is decoded by its structure and the header dropped. */
  function PayloadPhase(buffer: seq<Byte>, header: Option<MessageHeader>, queue: seq<Message>): (r: Result<ReceiverState, DecodeError>)
    ensures !(header.Some? && |buffer| >= header.value.payloadSize) ==> r == Ok(ReceiverState(buffer, header, queue))
    ensures r.Ok? && header.Some? && |buffer| >= header.value.payloadSize ==>
      r.value.header.None? && |r.value.queue| == |queue| + 1 && r.value.queue[..|queue|] == queue &&
      |r.value.buffer| < |buffer|
    ensures r.Err? ==> header.Some? && |buffer| >= header.value.payloadSize
  {
    if header.Some? && |buffer| >= header.value.payloadSize then
      match ParsePayload(header.value.messageType, buffer)
      case Err(e) => Err(e)
      case Ok((message, rest)) => Ok(ReceiverState(rest, None, queue + [message]))
    else
      Ok(ReceiverState(buffer, header, queue))
  }

  /** One iteration of keep_receiving's loop after recv returned `chunk`. */
  function Step(s: ReceiverState, chunk: seq<Byte>): (r: Result<ReceiverState, DecodeError>)
    ensures r.Ok? ==> |s.queue| <= |r.value.queue| <= |s.queue| + 1 && r.value.queue[..|s.queue|] == s.queue
    ensures r.Ok? && |r.value.queue| > |s.queue| ==> r.value.header.None?
  {
    match HeaderPhase(s.buffer + chunk, s.header)
    case Err(e) => Err(e)
    case Ok((buffer, header)) => PayloadPhase(buffer, header, s.queue)
  }

  /** Where the receiver stands after a run of chunks: the last state it
      reached, and the error that ended the loop, if one did. */
  datatype Fed = Fed(state: ReceiverState, failure: Option<DecodeError>)

  function Feed(s: ReceiverState, chunks: seq<seq<Byte>>): (r: Fed)
    ensures |s.queue| <= |r.state.queue| <= |s.queue| + |chunks| && r.state.queue[..|s.queue|] == s.queue
  {
    if chunks == [] then Fed(s, None)
    else
      var before := Feed(s, chunks[..|chunks| - 1]);
      if before.failure.Some? then before
      else match Step(before.state, chunks[|chunks| - 1])
        case Err(e) => Fed(before.state, Some(e))
        case Ok(t) => Fed(t, None)
  }

  class Receiver {
    var buffer: seq<Byte>
    var header: Option<MessageHeader>
    var queue: seq<Message>

    function State(): ReceiverState
      reads this
    {
      ReceiverState(buffer, header, queue)
    }

    constructor ()
      ensures State() == ReceiverState([], None, [])
    {
      buffer, header, queue := [], None, [];
    }

    /** The loop body of keep_receiving for one received chunk.  On an
        exception the thread ends; its locals are then unobservable and the
        queue is left as it was. */
    method HandleChunk(chunk: seq<Byte>) returns (failure: Option<DecodeError>)
      modifies this
      ensures Step(old(State()), chunk).Ok? ==> failure.None? && State() == Step(old(State()), chunk).value
      ensures Step(old(State()), chunk).Err? ==> failure == Some(Step(old(State()), chunk).error) && State() == old(State())
    {
      var buf := buffer + chunk;
      var hdr := header;
      if hdr.None? && |buf| >= 3 {
        var typeValue, payloadSize := buf[0], ReadU16(buf[1..3]);
        buf := buf[3..];
        var messageType := MessageTypeOf(typeValue);
        if messageType.None? {
          return Some(InvalidTypeValue(typeValue));
        }
        hdr := Some(MessageHeader(messageType.value, payloadSize));
      }
      var q := queue;
      if hdr.Some? && |buf| >= hdr.value.payloadSize {
        var message: Message;
        match hdr.value.messageType {
          case GameStart =>
            if |buf| < 17 {
              return Some(Truncated);
            }
            message := GameStartMessage(buf[0], ReadU64(buf[1..9]), ReadU64(buf[9..17]));
            buf := buf[17..];
          case EventBroadcast =>
            var decoded := DecodeEventBroadcast(buf);
            if decoded.Err? {
              return Some(decoded.error);
            }
            message, buf := decoded.value.0, decoded.value.1;
          case _ =>
            return Some(UnexpectedType(hdr.value.messageType));
        }
        q := q + [message];
        hdr := None;
      }
      buffer, header, queue := buf, hdr, q;
      failure := None;
    }

    /** keep_receiving over a given run of chunks: stops at the first error. */
    method KeepReceiving(chunks: seq<seq<Byte>>) returns (failure: Option<DecodeError>)
      modifies this
      ensures State() == Feed(old(State()), chunks).state
      ensures failure == Feed(old(State()), chunks).failure
    {
      var i := 0;
      while i < |chunks|
        invariant 0 <= i <= |chunks|
        invariant Feed(old(State()), chunks[..i]) == Fed(State(), None)
      {
        assert chunks[..i + 1][..i] == chunks[..i];
        failure := HandleChunk(chunks[i]);
        if failure.Some? {
          FeedStopsAfterFailure(old(State()), chunks[..i + 1], chunks[i + 1..]);
          assert chunks[..i + 1] + chunks[i + 1..] == chunks;
          return;
        }
        i := i + 1;
      }
      assert chunks[..i] == chunks;
      failure := None;
    }
  }

  /** Once the loop has ended with an error, later chunks are never read. */
  lemma {:induction false} FeedStopsAfterFailure(s: ReceiverState, chunks: seq<seq<Byte>>, later: seq<seq<Byte>>)
    requires Feed(s, chunks).failure.Some?
    ensures Feed(s, chunks + later) == Feed(s, chunks)
    decreases |later|
  {
    if later != [] {
      var init := later[..|later| - 1];
      FeedStopsAfterFailure(s, chunks, init);
      assert (chunks + later)[..|chunks + later| - 1] == chunks + init;
    } else {
      assert chunks + later == chunks;
    }
  }

  // ---------------------------------------------------------------------
  // Properties of one step

  /** Without a pending header and with fewer than three bytes, nothing is parsed. */
  lemma StepWaitsForHeader(s: ReceiverState, chunk: seq<Byte>)
    requires s.header.None? && |s.buffer + chunk| < 3
    ensures Step(s, chunk) == Ok(ReceiverState(s.buffer + chunk, None, s.queue))
  {
  }

  /** With a header pending and fewer than payload_size bytes, nothing is decoded. */
  lemma StepWaitsForPayload(s: ReceiverState, chunk: seq<Byte>)
    requires s.header.Some? && |s.buffer + chunk| < s.header.value.payloadSize
    ensures Step(s, chunk) == Ok(s.(buffer := s.buffer + chunk))
  {
  }

  /** A pending header is never read again: the buffer is not re-scanned for one. */
  lemma StepKeepsPendingHeader(s: ReceiverState, chunk: seq<Byte>)
    requires s.header.Some? && Step(s, chunk).Ok?
    ensures var t := Step(s, chunk).value;
      t.header == s.header || (t.header.None? && |t.queue| == |s.queue| + 1)
  {
  }

  /** A message is decoded only once the buffered payload bytes reach
      payload_size, and only for the GAME_START and EVENT_BROADCAST tags. */
  lemma StepDecodesOnlyWhenPayloadBuffered(s: ReceiverState, chunk: seq<Byte>)
    requires Step(s, chunk).Ok? && |Step(s, chunk).value.queue| > |s.queue|
    ensures var (buffer, header) := HeaderPhase(s.buffer + chunk, s.header).value;
      header.Some? && |buffer| >= header.value.payloadSize &&
      var m := Step(s, chunk).value.queue[|s.queue|];
      (header.value.messageType == GameStart && m.GameStartMessage?) ||
      (header.value.messageType == EventBroadcast && m.BroadcastMessage?)
  {
    var (buffer, header) := HeaderPhase(s.buffer + chunk, s.header).value;
    var (m, rest) := ParsePayload(header.value.messageType, buffer).value;
    assert Step(s, chunk).value.queue == s.queue + [m];
  }

  /** The bytes a decoded message takes from the buffer are its own encoding:
      17 for GAME_START, 9 plus the groups for EVENT_BROADCAST, whatever
      payload_size said; the rest stays buffered for the next header. */
  lemma StepConsumesByStructure(s: ReceiverState, chunk: seq<Byte>)
    requires Step(s, chunk).Ok? && |Step(s, chunk).value.queue| > |s.queue|
    ensures var t := Step(s, chunk).value;
      var m := t.queue[|s.queue|];
      Encodable(m) && HeaderPhase(s.buffer + chunk, s.header).value.0 == EncodePayload(m) + t.buffer
  {
    var (buffer, header) := HeaderPhase(s.buffer + chunk, s.header).value;
    var (m, rest) := ParsePayload(header.value.messageType, buffer).value;
    assert Step(s, chunk).value.queue == s.queue + [m];
    if header.value.messageType == GameStart {
      GameStartInverse(buffer);
    } else {
      BroadcastInverse(buffer);
    }
  }

  /** A tag above 3 fails the MessageType conversion as soon as the header is read. */
  lemma StepRejectsUnknownTag(s: ReceiverState, chunk: seq<Byte>)
    requires s.header.None? && |s.buffer + chunk| >= 3 && (s.buffer + chunk)[0] > 3
    ensures Step(s, chunk) == Err(InvalidTypeValue((s.buffer + chunk)[0]))
  {
  }

  /** HEARTBEAT (0) and GRID_STATE (1) reach the "invalid message type" branch,
      but only once payload_size bytes are buffered. */
  lemma StepRejectsHeartbeatAndGridState(s: ReceiverState, chunk: seq<Byte>)
    requires HeaderPhase(s.buffer + chunk, s.header).Ok?
    requires var (buffer, header) := HeaderPhase(s.buffer + chunk, s.header).value;
      header.Some? && header.value.messageType in {Heartbeat, GridState}
    ensures var (buffer, header) := HeaderPhase(s.buffer + chunk, s.header).value;
      if |buffer| >= header.value.payloadSize then Step(s, chunk) == Err(UnexpectedType(header.value.messageType))
      else Step(s, chunk) == Ok(ReceiverState(buffer, header, s.queue))
  {
  }

  /** A payload_size below the structure's size opens the gate early, and the
      structural unpack then fails on the short buffer. */
  lemma UnderstatedPayloadSizeTruncates(s: ReceiverState, chunk: seq<Byte>)
    requires s.header.Some? && s.header.value.messageType == GameStart
    requires s.header.value.payloadSize <= |s.buffer + chunk| < 17
    ensures Step(s, chunk) == Err(Truncated)
  {
  }

  // ---------------------------------------------------------------------
  // Whole messages

  /** A header-free receiver whose buffered bytes begin with a framed message
      decodes that message in one step and keeps what follows it. */
  lemma StepDecodesFramed(s: ReceiverState, chunk: seq<Byte>, m: Message, rest: seq<Byte>)
    requires s.header.None? && Encodable(m) && |EncodePayload(m)| < 0x1_0000
    requires s.buffer + chunk == EncodeMessage(m) + rest
    ensures Step(s, chunk) == Ok(ReceiverState(rest, None, s.queue + [m]))
  {
    var payload := EncodePayload(m);
    var buffer := s.buffer + chunk;
    assert buffer[0] == MessageTag(m);
    assert buffer[1..3] == U16Bytes(|payload|);
    U16RoundTrip(|payload|);
    assert buffer[3..] == payload + rest;
    PayloadRoundTrip(m, rest);
  }

  /** Feeding two chunks is two steps. */
  lemma FeedTwo(s: ReceiverState, first: seq<Byte>, second: seq<Byte>, t: ReceiverState, u: ReceiverState)
    requires Step(s, first) == Ok(t) && Step(t, second) == Ok(u)
    ensures Feed(s, [first, second]) == Fed(u, None)
  {
    var chunks: seq<seq<Byte>> := [first, second];
    var one := chunks[..1];
    assert one == [first] && one[..0] == [];
    assert Feed(s, one[..0]) == Fed(s, None);
    assert Feed(s, one) == Fed(t, None);
  }

  /** Resumability: a framed message split into two chunks at any offset is
      decoded exactly once, leaving nothing buffered and no header pending. */
  lemma SplitDelivery(s: ReceiverState, m: Message, k: nat)
    requires s.buffer == [] && s.header.None?
    requires Encodable(m) && |EncodePayload(m)| < 0x1_0000
    requires k <= |EncodeMessage(m)|
    ensures var bytes := EncodeMessage(m);
      Feed(s, [bytes[..k], bytes[k..]]) == Fed(ReceiverState([], None, s.queue + [m]), None)
  {
    var bytes := EncodeMessage(m);
    var done := ReceiverState([], None, s.queue + [m]);
    var t;
    if k < 3 {
      t := SplitInHeader(s, m, k);
    } else if k < |bytes| {
      t := SplitInPayload(s, m, k);
    } else {
      SplitAtEnd(s, m);
      assert bytes[..k] == bytes && bytes[k..] == [];
      t := done;
    }
    FeedTwo(s, bytes[..k], bytes[k..], t, done);
  }

  /** A split inside the header: the first step only buffers. */
  lemma SplitInHeader(s: ReceiverState, m: Message, k: nat) returns (t: ReceiverState)
    requires s.buffer == [] && s.header.None?
    requires Encodable(m) && |EncodePayload(m)| < 0x1_0000
    requires k < 3
    ensures Step(s, EncodeMessage(m)[..k]) == Ok(t)
    ensures Step(t, EncodeMessage(m)[k..]) == Ok(ReceiverState([], None, s.queue + [m]))
  {
    var bytes := EncodeMessage(m);
    var first, second := bytes[..k], bytes[k..];
    assert s.buffer + first == first;
    t := ReceiverState(first, None, s.queue);
    assert bytes == bytes + [];
    StepDecodesFramed(t, second, m, []);
  }

  /** No split: the first chunk decodes the message, the empty second one
      changes nothing. */
  lemma SplitAtEnd(s: ReceiverState, m: Message)
    requires s.buffer == [] && s.header.None?
    requires Encodable(m) && |EncodePayload(m)| < 0x1_0000
    ensures Step(s, EncodeMessage(m)) == Ok(ReceiverState([], None, s.queue + [m]))
    ensures Step(ReceiverState([], None, s.queue + [m]), []) == Ok(ReceiverState([], None, s.queue + [m]))
  {
    var bytes := EncodeMessage(m);
    assert s.buffer + bytes == bytes + [];
    StepDecodesFramed(s, bytes, m, []);
    StepWaitsForHeader(ReceiverState([], None, s.queue + [m]), []);
  }

  /** A split after the header: the first step records the header, the second
      decodes the payload. */
  lemma SplitInPayload(s: ReceiverState, m: Message, k: nat) returns (t: ReceiverState)
    requires s.buffer == [] && s.header.None?
    requires Encodable(m) && |EncodePayload(m)| < 0x1_0000
    requires 3 <= k < |EncodeMessage(m)|
    ensures Step(s, EncodeMessage(m)[..k]) == Ok(t)
    ensures Step(t, EncodeMessage(m)[k..]) == Ok(ReceiverState([], None, s.queue + [m]))
  {
    var bytes := EncodeMessage(m);
    var payload := EncodePayload(m);
    var first, second := bytes[..k], bytes[k..];
    assert s.buffer + first == first;
    var header := MessageHeader(if m.GameStartMessage? then GameStart else EventBroadcast, |payload|);
    assert first[0] == bytes[0] == MessageTag(m);
    assert first[1..3] == bytes[1..3] == U16Bytes(|payload|);
    U16RoundTrip(|payload|);
    t := ReceiverState(first[3..], Some(header), s.queue);
    assert Step(s, first) == Ok(t);
    assert t.buffer + second == payload + [];
    PayloadRoundTrip(m, []);
    assert HeaderPhase(t.buffer + second, t.header) == Ok((payload + [], Some(header)));
  }

  /** Two framed messages arriving in one chunk: only the first is decoded by
      that iteration; the second stays buffered until the next chunk, which
      may be empty, decodes it. */
  lemma ConcatenatedMessagesTakeTwoSteps(s: ReceiverState, m1: Message, m2: Message)
    requires s.buffer == [] && s.header.None?
    requires Encodable(m1) && |EncodePayload(m1)| < 0x1_0000
    requires Encodable(m2) && |EncodePayload(m2)| < 0x1_0000
    ensures var e1, e2 := EncodeMessage(m1), EncodeMessage(m2);
      Step(s, e1 + e2) == Ok(ReceiverState(e2, None, s.queue + [m1])) &&
      Step(ReceiverState(e2, None, s.queue + [m1]), []) == Ok(ReceiverState([], None, s.queue + [m1, m2]))
  {
    var e1, e2 := EncodeMessage(m1), EncodeMessage(m2);
    var t := ReceiverState(e2, None, s.queue + [m1]);
    assert Step(s, e1 + e2) == Ok(t) by {
      StepDecodesFramed(s, e1 + e2, m1, e2);
    }
    assert Step(t, []) == Ok(ReceiverState([], None, t.queue + [m2])) by {
      assert t.buffer + [] == e2 + [];
      StepDecodesFramed(t, [], m2, []);
    }
    assert t.queue + [m2] == s.queue + [m1, m2];
  }
}
