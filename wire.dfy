/**
 * The binary messages exchanged with the game server (main.py): the outbound
 * event buffer, and the inbound GAME_START and EVENT_BROADCAST payloads as the
 * receiver unpacks them.  Every multi-byte field is big-endian.
 */
module Wire {
  import opened Wrappers
  import opened Bytes
  import opened Tetrion

  datatype MessageType = Heartbeat | GridState | GameStart | EventBroadcast

  function MessageTypeValue(t: MessageType): Byte
  {
    match t
    case Heartbeat => 0
    case GridState => 1
    case GameStart => 2
    case EventBroadcast => 3
  }

  /** MessageType(b): only the values 0 to 3 name a message type. */
  function MessageTypeOf(b: Byte): (r: Option<MessageType>)
    ensures r.Some? <==> b <= 3
    ensures r.Some? ==> MessageTypeValue(r.value) == b
  {
    if b == 0 then Some(Heartbeat)
    else if b == 1 then Some(GridState)
    else if b == 2 then Some(GameStart)
    else if b == 3 then Some(EventBroadcast)
    else None
  }

  datatype MessageHeader = MessageHeader(messageType: MessageType, payloadSize: U16)

  datatype ClientEvents = ClientEvents(clientId: Byte, events: seq<Event>)

  /** The two kinds of message the receiver puts on the message queue. */
  datatype Message =
    | GameStartMessage(clientId: Byte, startFrame: U64, randomSeed: U64)
    | BroadcastMessage(frame: U64, eventsPerClient: seq<ClientEvents>)

  datatype DecodeError =
    | InvalidTypeValue(value: Byte)          // MessageType(b) raises ValueError
    | UnexpectedType(messageType: MessageType) // the "invalid message type" exception
    | Truncated                              // struct.unpack on too few bytes
    | InvalidKeyValue(value: Byte)           // Key(b) raises ValueError
    | InvalidEventTypeValue(value: Byte)     // EventType(b) raises ValueError

  // ---------------------------------------------------------------------
  // send_event_buffer

  /** The 10-byte record of one event: key, type, frame. */
  function EventRecord(e: Event): (s: seq<Byte>)
    ensures |s| == 10
  {
    [KeyValue(e.key), EventTypeValue(e.eventType)] + U64Bytes(e.frame)
  }

  function EventRecords(events: seq<Event>): (s: seq<Byte>)
    ensures |s| == 10 * |events|
  {
    if events == [] then [] else EventRecords(events[..|events| - 1]) + EventRecord(events[|events| - 1])
  }

  /** struct.pack("!BHQB", 0, 9 + 10 * n, frame, n) followed by the n records. */
  function EventBufferMessage(events: seq<Event>, frame: U64): (s: seq<Byte>)
    requires |events| <= 255
    ensures |s| == 12 + 10 * |events|
    ensures s[12..] == EventRecords(events)
  {
    [0] + U16Bytes(9 + 10 * |events|) + U64Bytes(frame) + [|events|] + EventRecords(events)
  }

  /** struct.pack raises once the event count does not fit its one-byte field. */
  datatype PackError = TooManyEvents(count: nat)

  /** send_event_buffer, with the bytes handed to the socket as the result. */
  method SendEventBuffer(events: seq<Event>, frame: U64) returns (r: Result<seq<Byte>, PackError>)
    ensures r.Err? <==> |events| > 255
    ensures r.Err? ==> r.error == TooManyEvents(|events|)
    ensures r.Ok? ==> |events| <= 255 && r.value == EventBufferMessage(events, frame)
  {
    var payloadSize := 9 + 10 * |events|;
    if |events| > 255 {
      return Err(TooManyEvents(|events|));
    }
    var data := [0] + U16Bytes(payloadSize) + U64Bytes(frame) + [|events|];
    var i := 0;
    while i < |events|
      invariant 0 <= i <= |events|
      invariant data == [0] + U16Bytes(payloadSize) + U64Bytes(frame) + [|events|] + EventRecords(events[..i])
    {
      assert events[..i + 1][..i] == events[..i];
      data := data + EventRecord(events[i]);
      i := i + 1;
    }
    assert events[..i] == events;
    r := Ok(data);
  }

  // ---------------------------------------------------------------------
  // The receiver's payload decoding, one struct.unpack at a time

  /** struct.unpack("!BBQ", ...) of one event record, then Key(...) and EventType(...). */
  function ParseEvent(buf: seq<Byte>): (r: Result<(Event, seq<Byte>), DecodeError>)
    ensures r.Err? <==> |buf| < 10 || buf[0] > 2 || buf[1] > 1
    ensures |buf| < 10 ==> r == Err(Truncated)
    ensures |buf| >= 10 && buf[0] > 2 ==> r == Err(InvalidKeyValue(buf[0]))
    ensures r.Ok? ==> |r.value.1| == |buf| - 10
  {
    if |buf| < 10 then Err(Truncated)
    else match (KeyOf(buf[0]), EventTypeOf(buf[1]))
      case (None, _) => Err(InvalidKeyValue(buf[0]))
      case (Some(_), None) => Err(InvalidEventTypeValue(buf[1]))
      case (Some(k), Some(t)) => Ok((Event(k, t, ReadU64(buf[2..10])), buf[10..]))
  }

  /** `count` event records in a row. */
  function ParseEvents(buf: seq<Byte>, count: nat): (r: Result<(seq<Event>, seq<Byte>), DecodeError>)
    ensures |buf| < 10 * count ==> r.Err?
    ensures r.Ok? ==> |r.value.0| == count && |r.value.1| == |buf| - 10 * count
    decreases count
  {
    if count == 0 then Ok(([], buf))
    else match ParseEvent(buf)
      case Err(e) => Err(e)
      case Ok((event, rest)) => Prepend([event], ParseEvents(rest, count - 1))
  }

  /** Puts already decoded items in front of what a later parse produces. */
  function Prepend<T>(done: seq<T>, r: Result<(seq<T>, seq<Byte>), DecodeError>): Result<(seq<T>, seq<Byte>), DecodeError>
  {
    match r
    case Err(e) => Err(e)
    case Ok((items, rest)) => Ok((done + items, rest))
  }

  lemma PrependNothing<T>(r: Result<(seq<T>, seq<Byte>), DecodeError>)
    ensures Prepend([], r) == r
  {
    if r.Ok? {
      assert [] + r.value.0 == r.value.0;
    }
  }

  lemma PrependTwice<T>(a: seq<T>, b: seq<T>, r: Result<(seq<T>, seq<Byte>), DecodeError>)
    ensures Prepend(a, Prepend(b, r)) == Prepend(a + b, r)
  {
    if r.Ok? {
      assert a + (b + r.value.0) == (a + b) + r.value.0;
    }
  }

  /** One client's group: struct.unpack("!BB", ...) then event_count records. */
  function ParseClient(buf: seq<Byte>): (r: Result<(ClientEvents, seq<Byte>), DecodeError>)
    ensures |buf| < 2 ==> r == Err(Truncated)
    ensures r.Ok? ==> r.value.0.clientId == buf[0] && |r.value.0.events| == buf[1] &&
                      |r.value.1| == |buf| - 2 - 10 * (buf[1] as int)
  {
    if |buf| < 2 then Err(Truncated)
    else match ParseEvents(buf[2..], buf[1])
      case Err(e) => Err(e)
      case Ok((events, rest)) => Ok((ClientEvents(buf[0], events), rest))
  }

  function ParseClients(buf: seq<Byte>, count: nat): (r: Result<(seq<ClientEvents>, seq<Byte>), DecodeError>)
    ensures |buf| < 2 * count ==> r.Err?
    ensures r.Ok? ==> |r.value.0| == count && |r.value.1| <= |buf| - 2 * count
    decreases count
  {
    if count == 0 then Ok(([], buf))
    else match ParseClient(buf)
      case Err(e) => Err(e)
      case Ok((client, rest)) => Prepend([client], ParseClients(rest, count - 1))
  }

  /** The EVENT_BROADCAST payload: struct.unpack("!QB", ...) then num_clients groups. */
  function ParseBroadcast(buf: seq<Byte>): (r: Result<(Message, seq<Byte>), DecodeError>)
    ensures |buf| < 9 ==> r == Err(Truncated)
    ensures r.Ok? ==> r.value.0.BroadcastMessage? && r.value.0.frame == ReadU64(buf[..8]) &&
                      |r.value.0.eventsPerClient| == buf[8] &&
                      |r.value.1| <= |buf| - 9 - 2 * (buf[8] as int)
  {
    if |buf| < 9 then Err(Truncated)
    else match ParseClients(buf[9..], buf[8])
      case Err(e) => Err(e)
      case Ok((clients, rest)) => Ok((BroadcastMessage(ReadU64(buf[..8]), clients), rest))
  }

  /** The GAME_START payload: struct.unpack("!BQQ", buffer[:17]). */
  function ParseGameStart(buf: seq<Byte>): (r: Result<(Message, seq<Byte>), DecodeError>)
    ensures r.Ok? <==> |buf| >= 17
    ensures r.Err? ==> r.error == Truncated
    ensures r.Ok? ==> r.value.0.GameStartMessage? && r.value.0.clientId == buf[0] && |r.value.1| == |buf| - 17
  {
    if |buf| < 17 then Err(Truncated)
    else Ok((GameStartMessage(buf[0], ReadU64(buf[1..9]), ReadU64(buf[9..17])), buf[17..]))
  }

  /** The match on the header's type once the payload gate has opened. */
  function ParsePayload(t: MessageType, buf: seq<Byte>): (r: Result<(Message, seq<Byte>), DecodeError>)
    ensures t == Heartbeat || t == GridState ==> r == Err(UnexpectedType(t))
    ensures r.Ok? ==> (t == GameStart <==> r.value.0.GameStartMessage?) && (t == EventBroadcast <==> r.value.0.BroadcastMessage?)
    ensures r.Ok? ==> |r.value.1| < |buf|
  {
    match t
    case GameStart => ParseGameStart(buf)
    case EventBroadcast => ParseBroadcast(buf)
    case _ => Err(UnexpectedType(t))
  }

  /** The inner decoding loop of the EVENT_BROADCAST branch: `count` event
      records unpacked one at a time. */
  method DecodeEvents(buffer: seq<Byte>, count: Byte) returns (r: Result<(seq<Event>, seq<Byte>), DecodeError>)
    ensures r == ParseEvents(buffer, count)
  {
    var buf := buffer;
    var events: seq<Event> := [];
    var e := 0;
    PrependNothing(ParseEvents(buf, count));
    while e < count
      invariant 0 <= e <= count
      invariant ParseEvents(buffer, count) == Prepend(events, ParseEvents(buf, count - e))
    {
      if |buf| < 10 {
        return Err(Truncated);
      }
      var key, eventType := KeyOf(buf[0]), EventTypeOf(buf[1]);
      if key.None? {
        return Err(InvalidKeyValue(buf[0]));
      }
      if eventType.None? {
        return Err(InvalidEventTypeValue(buf[1]));
      }
      var eventFrame := ReadU64(buf[2..10]);
      var event := Event(key.value, eventType.value, eventFrame);
      PrependTwice(events, [event], ParseEvents(buf[10..], count - e - 1));
      buf := buf[10..];
      events := events + [event];
      e := e + 1;
    }
    assert events + [] == events;
    r := Ok((events, buf));
  }

  /** The outer decoding loop of the EVENT_BROADCAST branch of keep_receiving. */
  method DecodeEventBroadcast(buffer: seq<Byte>) returns (r: Result<(Message, seq<Byte>), DecodeError>)
    ensures r == ParseBroadcast(buffer)
  {
    if |buffer| < 9 {
      return Err(Truncated);
    }
    var messageFrame := ReadU64(buffer[..8]);
    var numClients := buffer[8];
    var buf := buffer[9..];
    var eventsPerClient: seq<ClientEvents> := [];
    var c := 0;
    PrependNothing(ParseClients(buf, numClients));
    while c < numClients
      invariant 0 <= c <= numClients
      invariant ParseClients(buffer[9..], numClients) == Prepend(eventsPerClient, ParseClients(buf, numClients - c))
    {
      if |buf| < 2 {
        return Err(Truncated);
      }
      var clientId, eventCount := buf[0], buf[1];
      var decoded := DecodeEvents(buf[2..], eventCount);
      if decoded.Err? {
        return Err(decoded.error);
      }
      var client := ClientEvents(clientId, decoded.value.0);
      assert ParseClient(buf) == Ok((client, decoded.value.1));
      PrependTwice(eventsPerClient, [client], ParseClients(decoded.value.1, numClients - c - 1));
      buf := decoded.value.1;
      eventsPerClient := eventsPerClient + [client];
      c := c + 1;
    }
    assert eventsPerClient + [] == eventsPerClient;
    r := Ok((BroadcastMessage(messageFrame, eventsPerClient), buf));
  }

  // ---------------------------------------------------------------------
  // The sender's side of the inbound messages, as a reference encoding

  /** A message whose counts fit the one-byte count fields. */
  predicate Encodable(m: Message)
  {
    match m
    case GameStartMessage(_, _, _) => true
    case BroadcastMessage(_, clients) => |clients| <= 255 && GroupsFit(clients)
  }

  predicate GroupsFit(clients: seq<ClientEvents>)
  {
    forall i :: 0 <= i < |clients| ==> |clients[i].events| <= 255
  }

  function EncodeClient(c: ClientEvents): seq<Byte>
    requires |c.events| <= 255
  {
    [c.clientId, |c.events|] + EventRecords(c.events)
  }

  function EncodeClients(clients: seq<ClientEvents>): seq<Byte>
    requires GroupsFit(clients)
  {
    if clients == [] then [] else EncodeClient(clients[0]) + EncodeClients(clients[1..])
  }

  /** The payload bytes of a GAME_START or EVENT_BROADCAST message. */
  function EncodePayload(m: Message): seq<Byte>
    requires Encodable(m)
  {
    match m
    case GameStartMessage(id, start, seed) => [id] + U64Bytes(start) + U64Bytes(seed)
    case BroadcastMessage(frame, clients) => U64Bytes(frame) + [|clients|] + EncodeClients(clients)
  }

  function MessageTag(m: Message): Byte
  {
    if m.GameStartMessage? then MessageTypeValue(GameStart) else MessageTypeValue(EventBroadcast)
  }

  /** A framed message: the tag, the u16 payload size, the payload. */
  function EncodeMessage(m: Message): (s: seq<Byte>)
    requires Encodable(m) && |EncodePayload(m)| < 0x1_0000
  {
    [MessageTag(m)] + U16Bytes(|EncodePayload(m)|) + EncodePayload(m)
  }

  /** The bytes the client groups of a broadcast take: 2 + 10 per event each. */
  function GroupsSize(clients: seq<ClientEvents>): nat
  {
    if clients == [] then 0 else 2 + 10 * |clients[0].events| + GroupsSize(clients[1..])
  }

  lemma {:induction false} EncodeClientsLength(clients: seq<ClientEvents>)
    requires GroupsFit(clients)
    ensures |EncodeClients(clients)| == GroupsSize(clients)
  {
    if clients != [] {
      EncodeClientsLength(clients[1..]);
    }
  }

  /** A GAME_START payload is 17 bytes; a broadcast's is 9 plus its groups. */
  lemma PayloadLength(m: Message)
    requires Encodable(m)
    ensures m.GameStartMessage? ==> |EncodePayload(m)| == 17
    ensures m.BroadcastMessage? ==> |EncodePayload(m)| == 9 + GroupsSize(m.eventsPerClient)
  {
    if m.BroadcastMessage? {
      EncodeClientsLength(m.eventsPerClient);
    }
  }

  // ---------------------------------------------------------------------
  // Round trips and exact inverses

  lemma {:induction false} EventRecordsCons(events: seq<Event>)
    requires events != []
    ensures EventRecords(events) == EventRecord(events[0]) + EventRecords(events[1..])
    decreases |events|
  {
    if |events| > 1 {
      var init := events[..|events| - 1];
      EventRecordsCons(init);
      assert init[1..] == events[1..][..|events[1..]| - 1];
    }
  }

  /** An event record decodes, with the !BBQ layout, to the event it encodes. */
  lemma EventRoundTrip(e: Event, rest: seq<Byte>)
    ensures ParseEvent(EventRecord(e) + rest) == Ok((e, rest))
  {
    var buf := EventRecord(e) + rest;
    KeyRoundTrip(e.key);
    EventTypeRoundTrip(e.eventType);
    assert buf[2..10] == U64Bytes(e.frame);
    U64RoundTrip(e.frame);
    assert buf[10..] == rest;
  }

  /** A decoded event record is exactly the encoding of the event it yields. */
  lemma EventInverse(buf: seq<Byte>)
    requires ParseEvent(buf).Ok?
    ensures buf == EventRecord(ParseEvent(buf).value.0) + ParseEvent(buf).value.1
  {
    U64Inverse(buf[2..10]);
    assert buf == buf[..2] + buf[2..10] + buf[10..];
  }

  lemma {:induction false} EventsRoundTrip(events: seq<Event>, rest: seq<Byte>)
    ensures ParseEvents(EventRecords(events) + rest, |events|) == Ok((events, rest))
    decreases |events|
  {
    if events != [] {
      var buf := EventRecords(events) + rest;
      var tail := EventRecords(events[1..]) + rest;
      EventRecordsCons(events);
      assert buf == EventRecord(events[0]) + tail;
      EventRoundTrip(events[0], tail);
      EventsRoundTrip(events[1..], rest);
      assert ParseEvents(buf, |events|) == Prepend([events[0]], ParseEvents(tail, |events| - 1));
      assert [events[0]] + events[1..] == events;
    } else {
      assert EventRecords(events) + rest == rest;
    }
  }

  lemma {:induction false} EventsInverse(buf: seq<Byte>, count: nat)
    requires ParseEvents(buf, count).Ok?
    ensures |ParseEvents(buf, count).value.0| == count
    ensures buf == EventRecords(ParseEvents(buf, count).value.0) + ParseEvents(buf, count).value.1
    decreases count
  {
    if count > 0 {
      EventInverse(buf);
      var (event, after) := ParseEvent(buf).value;
      EventsInverse(after, count - 1);
      var (others, rest) := ParseEvents(after, count - 1).value;
      var events := [event] + others;
      assert ParseEvents(buf, count) == Ok((events, rest));
      EventRecordsCons(events);
      assert events[0] == event && events[1..] == others;
    }
  }

  lemma {:induction false} ClientsRoundTrip(clients: seq<ClientEvents>, rest: seq<Byte>)
    requires GroupsFit(clients)
    ensures ParseClients(EncodeClients(clients) + rest, |clients|) == Ok((clients, rest))
    decreases |clients|
  {
    if clients != [] {
      var c := clients[0];
      var tail := EncodeClients(clients[1..]) + rest;
      var buf := EncodeClients(clients) + rest;
      assert buf == [c.clientId, |c.events|] + (EventRecords(c.events) + tail);
      assert buf[2..] == EventRecords(c.events) + tail;
      EventsRoundTrip(c.events, tail);
      assert ParseClient(buf) == Ok((c, tail));
      ClientsRoundTrip(clients[1..], rest);
      assert ParseClients(buf, |clients|) == Prepend([c], ParseClients(tail, |clients| - 1));
      assert [c] + clients[1..] == clients;
    } else {
      assert EncodeClients(clients) + rest == rest;
    }
  }

  lemma ClientInverse(buf: seq<Byte>)
    requires ParseClient(buf).Ok?
    ensures |ParseClient(buf).value.0.events| <= 255
    ensures buf == EncodeClient(ParseClient(buf).value.0) + ParseClient(buf).value.1
  {
    var body := buf[2..];
    var (events, rest) := ParseEvents(body, buf[1]).value;
    assert |events| == buf[1] && body == EventRecords(events) + rest by {
      EventsInverse(body, buf[1]);
    }
    assert ParseClient(buf) == Ok((ClientEvents(buf[0], events), rest));
    assert buf == [buf[0], buf[1]] + body;
  }

  lemma {:induction false} ClientsInverse(buf: seq<Byte>, count: nat)
    requires ParseClients(buf, count).Ok?
    ensures GroupsFit(ParseClients(buf, count).value.0)
    ensures |ParseClients(buf, count).value.0| == count
    ensures buf == EncodeClients(ParseClients(buf, count).value.0) + ParseClients(buf, count).value.1
    decreases count
  {
    if count > 0 {
      var (client, after) := ParseClient(buf).value;
      var (others, rest) := ParseClients(after, count - 1).value;
      assert ParseClients(buf, count) == Ok(([client] + others, rest));
      assert |client.events| <= 255 && buf == EncodeClient(client) + after by {
        ClientInverse(buf);
      }
      assert GroupsFit(others) && after == EncodeClients(others) + rest by {
        ClientsInverse(after, count - 1);
      }
      var clients := [client] + others;
      assert clients[0] == client && clients[1..] == others;
    }
  }

  lemma GameStartRoundTrip(id: Byte, start: U64, seed: U64, rest: seq<Byte>)
    ensures ParseGameStart(EncodePayload(GameStartMessage(id, start, seed)) + rest) == Ok((GameStartMessage(id, start, seed), rest))
  {
    var buf := EncodePayload(GameStartMessage(id, start, seed)) + rest;
    assert buf == [id] + U64Bytes(start) + U64Bytes(seed) + rest;
    assert buf[1..9] == U64Bytes(start);
    assert buf[9..17] == U64Bytes(seed);
    assert buf[17..] == rest;
    U64RoundTrip(start);
    U64RoundTrip(seed);
  }

  lemma BroadcastRoundTrip(frame: U64, clients: seq<ClientEvents>, rest: seq<Byte>)
    requires Encodable(BroadcastMessage(frame, clients))
    ensures ParseBroadcast(EncodePayload(BroadcastMessage(frame, clients)) + rest) == Ok((BroadcastMessage(frame, clients), rest))
  {
    var buf := EncodePayload(BroadcastMessage(frame, clients)) + rest;
    assert buf == U64Bytes(frame) + ([|clients|] + (EncodeClients(clients) + rest));
    assert buf[..8] == U64Bytes(frame);
    assert buf[8] == |clients|;
    assert buf[9..] == EncodeClients(clients) + rest;
    U64RoundTrip(frame);
    ClientsRoundTrip(clients, rest);
  }

  /** Decoding the payload of an encoded message gives the message back and
      leaves whatever followed it. */
  lemma PayloadRoundTrip(m: Message, rest: seq<Byte>)
    requires Encodable(m)
    ensures ParsePayload(if m.GameStartMessage? then GameStart else EventBroadcast, EncodePayload(m) + rest) == Ok((m, rest))
  {
    match m
    case GameStartMessage(id, start, seed) =>
      GameStartRoundTrip(id, start, seed, rest);
    case BroadcastMessage(frame, clients) =>
      BroadcastRoundTrip(frame, clients, rest);
  }

  /** GAME_START: a successful decode removes exactly 17 bytes, which are the
      encoding of the message it yields. */
  lemma GameStartInverse(buf: seq<Byte>)
    requires ParseGameStart(buf).Ok?
    ensures var (m, rest) := ParseGameStart(buf).value;
      m.GameStartMessage? && |buf| - |rest| == 17 && buf == EncodePayload(m) + rest
  {
    U64Inverse(buf[1..9]);
    U64Inverse(buf[9..17]);
    assert buf == [buf[0]] + buf[1..9] + buf[9..17] + buf[17..];
  }

  /** EVENT_BROADCAST: a successful decode yields num_clients groups, each with
      its event_count events, consumes exactly 9 + the groups' 2 + 10 * count
      bytes, and those bytes are the encoding of the message it yields. */
  lemma BroadcastInverse(buf: seq<Byte>)
    requires ParseBroadcast(buf).Ok?
    ensures var (m, rest) := ParseBroadcast(buf).value;
      m.BroadcastMessage? && Encodable(m) &&
      |m.eventsPerClient| == buf[8] &&
      buf == EncodePayload(m) + rest &&
      |buf| - |rest| == 9 + GroupsSize(m.eventsPerClient)
  {
    var (m, rest) := ParseBroadcast(buf).value;
    var (clients, after) := ParseClients(buf[9..], buf[8]).value;
    assert m == BroadcastMessage(ReadU64(buf[..8]), clients) && rest == after;
    assert GroupsFit(clients) && |clients| == buf[8] && buf[9..] == EncodeClients(clients) + rest by {
      ClientsInverse(buf[9..], buf[8]);
    }
    assert buf[..8] == U64Bytes(m.frame) by {
      U64Inverse(buf[..8]);
    }
    assert buf == buf[..8] + [buf[8]] + buf[9..];
    PayloadLength(m);
  }

  /** The fixed 12-byte head of send_event_buffer's bytes. */
  function EventBufferHead(n: Byte, frame: U64): (head: seq<Byte>)
  {
    [0] + U16Bytes(9 + 10 * n) + U64Bytes(frame) + [n]
  }

  lemma EventBufferHeadLayout(n: Byte, frame: U64)
    requires n <= 255
    ensures |EventBufferHead(n, frame)| == 12
    ensures EventBufferHead(n, frame)[0] == 0
    ensures ReadU16(EventBufferHead(n, frame)[1..3]) == 9 + 10 * n
    ensures ReadU64(EventBufferHead(n, frame)[3..11]) == frame
    ensures EventBufferHead(n, frame)[11] == n
  {
    var head := EventBufferHead(n, frame);
    assert head[1..3] == U16Bytes(9 + 10 * n);
    assert head[3..11] == U64Bytes(frame);
    U16RoundTrip(9 + 10 * n);
    U64RoundTrip(frame);
  }

  /** send_event_buffer's bytes: tag 0, a payload size that is the true payload
      length 9 + 10n, the frame, the count n, then the events in order. */
  lemma EventBufferLayout(events: seq<Event>, frame: U64)
    requires |events| <= 255
    ensures |EventBufferMessage(events, frame)| == 3 + 9 + 10 * |events|
    ensures EventBufferMessage(events, frame)[0] == 0
    ensures ReadU16(EventBufferMessage(events, frame)[1..3]) == 9 + 10 * |events|
    ensures ReadU64(EventBufferMessage(events, frame)[3..11]) == frame
    ensures EventBufferMessage(events, frame)[11] == |events|
    ensures ParseEvents(EventBufferMessage(events, frame)[12..], |events|) == Ok((events, []))
  {
    var records := EventRecords(events);
    var head := EventBufferHead(|events|, frame);
    var msg := EventBufferMessage(events, frame);
    EventBufferHeadLayout(|events|, frame);
    assert msg == head + records;
    assert msg[1..3] == head[1..3];
    assert msg[3..11] == head[3..11];
    assert msg[12..] == records + [];
    EventsRoundTrip(events, []);
  }
}
