/**
 * The body of main()'s game loop (main.py): key events tagged with the
 * current frame, the local simulation kept one frame behind, the remote one
 * held back by a fixed input delay and by the last broadcast frame, and the
 * catch-up loop that sends the event buffer every fifteen frames.
 * Rendering, the pygame clock and the float frame clock are not modelled:
 * the new frame number is an input.
 */
module Session {
  import opened Wrappers
  import opened Bytes
  import opened Tetrion
  import opened Wire

  /** Frames the remote simulation trails the local frame. */
  const InputDelay := 30
  /** Frames between two sends of the event buffer. */
  const SendInterval := 15

  function Max(a: int, b: int): int
  {
    if a >= b then a else b
  }

  function Min(a: int, b: int): int
  {
    if a <= b then a else b
  }

  // ---------------------------------------------------------------------
  // Key-event capture

  /** The bindings main() compares against (controls.py is not part of this model). */
  datatype Control =
    | QuitControl | LeftControl | RightControl | DownControl
    | RotateCounterClockwiseControl | RotateClockwiseControl | DropControl | Unbound

  datatype InputEvent = QuitEvent | KeyDown(control: Control) | KeyUp(control: Control) | OtherInput

  datatype Failure =
    | MissingKey(control: Control)   // Key.DOWN, Key.ROTATE_CCW and Key.ROTATE_CW do not exist
    | NotABroadcast                  // assert isinstance(..., BroadcastMessage)
    | NoClients                      // assert len(events_per_client) >= 1
    | SendFailed(count: nat)         // struct.pack of the event buffer raises

  datatype Reaction = Ignore | RequestQuit | Emit(event: Event) | Fail(failure: Failure)

  /** The Key member main() names for a control, when the simulator defines it. */
  function KeyFor(c: Control): (r: Option<Key>)
    ensures r.Some? <==> c in {LeftControl, RightControl, DropControl}
  {
    match c
    case LeftControl => Some(Left)
    case RightControl => Some(Right)
    case DropControl => Some(Drop)
    case _ => None
  }

  /** What the event loop does with one pygame event at `frame`. */
  function React(input: InputEvent, frame: U64): (r: Reaction)
    ensures r.Emit? ==> r.event.frame == frame
    ensures r.Emit? <==> (input.KeyDown? || input.KeyUp?) && KeyFor(input.control).Some?
    ensures r.Emit? ==> Some(r.event.key) == KeyFor(input.control) &&
                        r.event.eventType == (if input.KeyDown? then Pressed else Released)
    ensures r == RequestQuit <==> input == QuitEvent || input == KeyDown(QuitControl)
    ensures r.Fail? <==> (input.KeyDown? || input.KeyUp?) &&
                         input.control in {DownControl, RotateCounterClockwiseControl, RotateClockwiseControl}
  {
    match input
    case QuitEvent => RequestQuit
    case KeyDown(QuitControl) => RequestQuit
    case KeyDown(c) => Edge(c, Pressed, frame)
    case KeyUp(QuitControl) => Ignore
    case KeyUp(c) => Edge(c, Released, frame)
    case OtherInput => Ignore
  }

  /** A key edge of a bound control other than quit. */
  function Edge(c: Control, t: EventType, frame: U64): (r: Reaction)
    requires c != QuitControl
    ensures r.Emit? <==> KeyFor(c).Some?
    ensures r.Emit? ==> Some(r.event.key) == KeyFor(c) && r.event.eventType == t && r.event.frame == frame
    ensures r == Ignore <==> c == Unbound
    ensures r.Fail? ==> r.failure == MissingKey(c)
    ensures !r.RequestQuit?
  {
    match c
    case LeftControl => Emit(Event(Left, t, frame))
    case RightControl => Emit(Event(Right, t, frame))
    case DropControl => Emit(Event(Drop, t, frame))
    case Unbound => Ignore
    case _ => Fail(MissingKey(c))
  }

  /** The outcome of the event loop over one tick's events, in order, up to
      the first failure. */
  datatype Captured = Captured(events: seq<Event>, quit: bool, failure: Option<Failure>)

  function Capture(inputs: seq<InputEvent>, frame: U64): (r: Captured)
    ensures |r.events| <= |inputs|
    ensures forall i :: 0 <= i < |r.events| ==> r.events[i].frame == frame
  {
    if inputs == [] then Captured([], false, None)
    else
      var before := Capture(inputs[..|inputs| - 1], frame);
      if before.failure.Some? then before
      else match React(inputs[|inputs| - 1], frame)
        case Ignore => before
        case RequestQuit => before.(quit := true)
        case Emit(e) => before.(events := before.events + [e])
        case Fail(f) => before.(failure := Some(f))
  }

  /** Every captured event is tagged with the frame of its tick; a quit
      request is captured exactly when one was seen before any failure; the
      tick fails exactly when some event names a key the simulator lacks. */
  lemma {:induction false} CaptureProperties(inputs: seq<InputEvent>, frame: U64)
    ensures Capture(inputs, frame).failure.None? <==> forall i :: 0 <= i < |inputs| ==> !React(inputs[i], frame).Fail?
    ensures Capture(inputs, frame).failure.None? ==>
              (Capture(inputs, frame).quit <==> exists i :: 0 <= i < |inputs| && React(inputs[i], frame) == RequestQuit)
  {
    if inputs != [] {
      var init := inputs[..|inputs| - 1];
      CaptureProperties(init, frame);
      assert forall i :: 0 <= i < |init| ==> init[i] == inputs[i];
      var c := Capture(inputs, frame);
      if Capture(init, frame).failure.None? && React(inputs[|inputs| - 1], frame) == RequestQuit {
        assert c.quit;
      }
    }
  }

  // ---------------------------------------------------------------------
  // Simulation targets

  /** simulate_up_until on the local simulation: frame - 1, once frame > 0. */
  function LocalTarget(frame: U64): (t: Option<U64>)
    ensures t.Some? <==> frame > 0
    ensures t.Some? ==> t.value == frame - 1
  {
    if frame > 0 then Some(frame - 1) else None
  }

  /** simulate_up_until on the remote simulation, once frame > 30 and a
      broadcast has set the other client's frame. */
  function RemoteTarget(frame: U64, otherClientFrame: Option<U64>): (t: Option<U64>)
    ensures t.Some? <==> frame > InputDelay && otherClientFrame.Some?
    ensures t.Some? ==> t.value <= frame - InputDelay && t.value <= otherClientFrame.value
    ensures t.Some? ==> t.value == frame - InputDelay || t.value == otherClientFrame.value
  {
    if frame > InputDelay && otherClientFrame.Some? then Some(Min(frame - InputDelay, otherClientFrame.value)) else None
  }

  /** With no broadcast yet the remote simulation is held; after one for frame
      50 at local frame 100 it may run to 50. */
  lemma RemoteTargetScenario()
    ensures RemoteTarget(100, None) == None
    ensures RemoteTarget(100, Some(50)) == Some(50)
    ensures RemoteTarget(60, Some(50)) == Some(30)
    ensures RemoteTarget(30, Some(50)) == None
  {
  }

  /** A drained message the loop accepts: a broadcast with at least one client. */
  predicate Acceptable(m: Message)
  {
    m.BroadcastMessage? && |m.eventsPerClient| >= 1
  }

  /** How many messages at the front of the queue the loop accepts before an
      assertion fails. */
  function AcceptedPrefix(msgs: seq<Message>): (n: nat)
    ensures n <= |msgs|
    ensures forall i :: 0 <= i < n ==> Acceptable(msgs[i])
    ensures n < |msgs| ==> !Acceptable(msgs[n])
  {
    if msgs == [] || !Acceptable(msgs[0]) then 0 else 1 + AcceptedPrefix(msgs[1..])
  }

  /** The assertion that stops the drain, if one does. */
  function DrainFailure(msgs: seq<Message>): Option<Failure>
  {
    var k := AcceptedPrefix(msgs);
    if k == |msgs| then None else if msgs[k].BroadcastMessage? then Some(NoClients) else Some(NotABroadcast)
  }

  /** other_client_frame after the accepted broadcasts: the last one's frame. */
  function LatestFrame(previous: Option<U64>, msgs: seq<Message>): (r: Option<U64>)
    requires forall i :: 0 <= i < |msgs| ==> msgs[i].BroadcastMessage?
    ensures msgs == [] ==> r == previous
    ensures msgs != [] ==> r.Some? && exists i :: 0 <= i < |msgs| && r.value == msgs[i].frame
  {
    if msgs == [] then previous else Some(msgs[|msgs| - 1].frame)
  }

  /** The highest broadcast frame seen, -1 before the first. */
  function HighestFrame(previous: int, msgs: seq<Message>): (h: int)
    requires forall i :: 0 <= i < |msgs| ==> msgs[i].BroadcastMessage?
    ensures h >= previous
    ensures forall i :: 0 <= i < |msgs| ==> msgs[i].frame <= h
    ensures h == previous || exists i :: 0 <= i < |msgs| && h == msgs[i].frame
  {
    if msgs == [] then previous else Max(HighestFrame(previous, msgs[..|msgs| - 1]), msgs[|msgs| - 1].frame)
  }

  // ---------------------------------------------------------------------
  // The catch-up loop

  /** The loop frames in [lo, hi) at which the event buffer is sent, in order. */
  function FlushFrames(lo: int, hi: int): seq<int>
    decreases hi - lo
  {
    if hi <= lo then [] else FlushFrames(lo, hi - 1) + (if (hi - 1) % SendInterval == 0 then [hi - 1] else [])
  }

  /** The buffer is sent exactly at the loop frames divisible by 15, in
      increasing order. */
  lemma {:induction false} FlushFramesExact(lo: int, hi: int)
    ensures forall f :: f in FlushFrames(lo, hi) <==> lo <= f < hi && f % SendInterval == 0
    ensures forall i, j :: 0 <= i < j < |FlushFrames(lo, hi)| ==> FlushFrames(lo, hi)[i] < FlushFrames(lo, hi)[j]
    decreases hi - lo
  {
    if hi > lo {
      FlushFramesExact(lo, hi - 1);
      var shorter := FlushFrames(lo, hi - 1);
      assert forall i :: 0 <= i < |shorter| ==> shorter[i] in shorter;
    }
  }

  /** Running the loop further only adds flush frames at the end. */
  lemma {:induction false} FlushFramesExtend(lo: int, mid: int, hi: int)
    requires mid <= hi
    ensures |FlushFrames(lo, mid)| <= |FlushFrames(lo, hi)|
    ensures FlushFrames(lo, mid) == FlushFrames(lo, hi)[..|FlushFrames(lo, mid)|]
    decreases hi - mid
  {
    if mid < hi {
      FlushFramesExtend(lo, mid, hi - 1);
      if hi <= lo {
        assert FlushFrames(lo, hi) == [] && FlushFrames(lo, mid) == [];
      } else {
        var shorter := FlushFrames(lo, hi - 1);
        assert FlushFrames(lo, hi)[..|shorter|] == shorter;
        assert FlushFrames(lo, hi)[..|FlushFrames(lo, mid)|] == shorter[..|FlushFrames(lo, mid)|];
      }
    }
  }

  /** With nothing flushed before f, a flush at f is the first of any longer run. */
  lemma FirstFlush(lo: int, f: int, hi: int)
    requires lo <= f < hi && f % SendInterval == 0 && FlushFrames(lo, f) == []
    ensures FlushFrames(lo, hi) != [] && FlushFrames(lo, hi)[0] == f
  {
    assert FlushFrames(lo, f + 1) == [f];
    FlushFramesExtend(lo, f + 1, hi);
    assert FlushFrames(lo, hi)[..1] == [f];
  }

  predicate FramesFit(flushes: seq<int>)
  {
    forall i :: 0 <= i < |flushes| ==> 0 <= flushes[i] < 0x1_0000_0000_0000_0000
  }

  lemma FlushFramesFit(lo: int, hi: int)
    requires 0 <= lo && hi <= 0x1_0000_0000_0000_0000
    ensures FramesFit(FlushFrames(lo, hi))
  {
    FlushFramesExact(lo, hi);
    var flushes := FlushFrames(lo, hi);
    assert forall i :: 0 <= i < |flushes| ==> flushes[i] in flushes;
  }

  /** The messages the loop sends at the given flush frames: the buffer at the
      first, and an empty buffer at every later one. */
  function Sends(buffer: seq<Event>, flushes: seq<int>): (r: seq<seq<Byte>>)
    requires flushes == [] || |buffer| <= 255
    requires FramesFit(flushes)
    ensures |r| == |flushes|
  {
    if flushes == [] then []
    else Sends(buffer, flushes[..|flushes| - 1]) +
         [EventBufferMessage(if |flushes| == 1 then buffer else [], flushes[|flushes| - 1])]
  }

  /** What the catch-up loop leaves when started at `start` with `buffer0`
      buffered and `sent0` sent, for a clock at `newFrame`: if the buffer is
      too large to pack, the first send frame is where it stops with nothing
      sent; otherwise the frame reaches new_frame - 1 and the buffer went out
      at the first send frame, an empty buffer at each later one. */
  ghost predicate CatchUpOutcome(start: int, newFrame: int, buffer0: seq<Event>, sent0: seq<seq<Byte>>,
                                 failure: Option<Failure>, frame: int, sent: seq<seq<Byte>>, buffer: seq<Event>)
  {
    var flushes := FlushFrames(start, newFrame - 1);
    FramesFit(flushes) &&
    if flushes != [] && |buffer0| > 255 then
      failure == Some(SendFailed(|buffer0|)) && frame == flushes[0] && sent == sent0 && buffer == buffer0
    else
      failure.None? && frame == Max(start, newFrame - 1) &&
      sent == sent0 + Sends(buffer0, flushes) &&
      buffer == (if flushes == [] then buffer0 else [])
  }

  /** The catch-up loop run to its end leaves the outcome CatchUpOutcome states. */
  lemma CatchUpFinished(start: nat, frame: int, newFrame: U64, buffer0: seq<Event>, sent0: seq<seq<Byte>>,
                        sent: seq<seq<Byte>>, buffer: seq<Event>)
    requires start <= frame && (frame == newFrame - 1 || (frame == start && newFrame - 1 <= start))
    requires CatchUpProgress(start, frame, buffer0, sent0, sent, buffer)
    ensures CatchUpOutcome(start, newFrame, buffer0, sent0, None, frame, sent, buffer)
  {
    if frame != newFrame - 1 {
      assert FlushFrames(start, newFrame - 1) == [] == FlushFrames(start, frame);
    }
  }

  /** A first send that cannot be packed stops the loop at that frame with
      nothing sent, as CatchUpOutcome states. */
  lemma CatchUpStopped(start: nat, frame: int, newFrame: U64, buffer0: seq<Event>, sent0: seq<seq<Byte>>)
    requires start <= frame < newFrame - 1 && frame % SendInterval == 0
    requires FlushFrames(start, frame) == [] && |buffer0| > 255
    ensures CatchUpOutcome(start, newFrame, buffer0, sent0, Some(SendFailed(|buffer0|)), frame, sent0, buffer0)
  {
    FirstFlush(start, frame, newFrame - 1);
    FlushFramesFit(start, newFrame - 1);
  }

  /** The i-th message sent is the buffer at the i-th flush frame, emptied
      after the first. */
  lemma {:induction false} SendsAt(buffer: seq<Event>, flushes: seq<int>, i: nat)
    requires flushes == [] || |buffer| <= 255
    requires FramesFit(flushes) && i < |flushes|
    ensures Sends(buffer, flushes)[i] == EventBufferMessage(if i == 0 then buffer else [], flushes[i])
  {
    var init := flushes[..|flushes| - 1];
    if i < |init| {
      SendsAt(buffer, init, i);
    }
  }

  /** One more loop frame adds at most that frame. */
  lemma FlushFramesStep(lo: int, f: int)
    requires lo <= f
    ensures FlushFrames(lo, f + 1) == FlushFrames(lo, f) + (if f % SendInterval == 0 then [f] else [])
  {
  }

  /** One more flush adds one message. */
  lemma SendsSnoc(buffer: seq<Event>, flushes: seq<int>, f: int)
    requires |buffer| <= 255
    requires FramesFit(flushes) && 0 <= f < 0x1_0000_0000_0000_0000
    ensures FramesFit(flushes + [f])
    ensures Sends(buffer, flushes + [f]) ==
            Sends(buffer, flushes) + [EventBufferMessage(if flushes == [] then buffer else [], f)]
  {
    assert (flushes + [f])[..|flushes|] == flushes;
  }

  /** The catch-up loop's invariant, on values: started at `start` with
      `buffer0` buffered and `sent0` sent, it has reached `frame` having sent
      `sent` and holding `buffer`. */
  ghost predicate CatchUpProgress(start: int, frame: int, buffer0: seq<Event>, sent0: seq<seq<Byte>>,
                                  sent: seq<seq<Byte>>, buffer: seq<Event>)
  {
    var flushes := FlushFrames(start, frame);
    (flushes == [] || |buffer0| <= 255) &&
    FramesFit(flushes) &&
    sent == sent0 + Sends(buffer0, flushes) &&
    buffer == (if flushes == [] then buffer0 else [])
  }

  /** One loop frame keeps the invariant: a flush frame sends the buffer
      (which fails only on the first flush), any other frame sends nothing. */
  lemma CatchUpStep(start: nat, frame: U64, buffer0: seq<Event>, sent0: seq<seq<Byte>>,
                    sent: seq<seq<Byte>>, buffer: seq<Event>)
    requires start <= frame < 0xFFFF_FFFF_FFFF_FFFF
    requires CatchUpProgress(start, frame, buffer0, sent0, sent, buffer)
    ensures frame % SendInterval == 0 && |buffer| <= 255 ==>
      CatchUpProgress(start, frame + 1, buffer0, sent0, sent + [EventBufferMessage(buffer, frame)], [])
    ensures frame % SendInterval == 0 && |buffer| > 255 ==> FlushFrames(start, frame) == [] && buffer == buffer0
    ensures frame % SendInterval != 0 ==> CatchUpProgress(start, frame + 1, buffer0, sent0, sent, buffer)
  {
    FlushFramesExact(start, frame + 1);
    FlushFramesStep(start, frame);
    var flushed := FlushFrames(start, frame);
    if frame % SendInterval != 0 {
      assert FlushFrames(start, frame + 1) == flushed;
    } else if |buffer| <= 255 {
      SendsSnoc(buffer0, flushed, frame);
      assert FlushFrames(start, frame + 1) == flushed + [frame];
    }
  }

  /** What one pass of the game loop is given: the pygame events of the
      tick, the messages the receiver thread queued, and the clock's frame. */
  datatype TickInput = TickInput(inputs: seq<InputEvent>, incoming: seq<Message>, clockFrame: U64)

  // ---------------------------------------------------------------------
  // The game loop's state

  /**
   * The variables of main()'s game loop with the two simulations it drives.
   * `sent` is what went to the game-server socket; `flushedEvents` are the
   * events already sent in it; `highestConfirmed` is the highest broadcast
   * frame seen (-1 before the first).
   */
  class Session {
    const local: Tetrion
    const remote: Tetrion
    var frame: U64
    var eventBuffer: seq<Event>
    var otherClientFrame: Option<U64>
    var sent: seq<seq<Byte>>
    var done: bool
    ghost var highestConfirmed: int
    ghost var flushedEvents: seq<Event>

    /**
     * The local simulation is always behind the current frame; the remote one
     * has never been advanced past frame - 30 nor past a confirmed broadcast
     * frame; every event the local simulation was given has been sent or is
     * still in the event buffer, which holds no event from a later frame.
     */
    ghost predicate Valid()
      reads this, local, remote
    {
      local != remote &&
      local.simulatedUpTo < frame &&
      (remote.simulatedUpTo == -1 ||
        (0 <= remote.simulatedUpTo <= frame - InputDelay && remote.simulatedUpTo <= highestConfirmed)) &&
      (otherClientFrame.Some? ==> otherClientFrame.value <= highestConfirmed) &&
      local.enqueued == flushedEvents + eventBuffer &&
      (forall i :: 0 <= i < |eventBuffer| ==> eventBuffer[i].frame <= frame)
    }

    constructor (local: Tetrion, remote: Tetrion)
      requires local != remote
      requires local.simulatedUpTo == -1 && remote.simulatedUpTo == -1 && local.enqueued == []
      ensures this.local == local && this.remote == remote
      ensures Valid()
      ensures frame == 0 && eventBuffer == [] && otherClientFrame.None? && sent == [] && !done
    {
      this.local := local;
      this.remote := remote;
      frame := 0;
      eventBuffer := [];
      otherClientFrame := None;
      sent := [];
      done := false;
      highestConfirmed := -1;
      flushedEvents := [];
    }

    /** One pygame event: a mapped key edge is enqueued into the local
        simulation, tagged with the current frame, and buffered for sending. */
    method HandleInput(input: InputEvent) returns (failure: Option<Failure>)
      requires Valid()
      modifies this, local`enqueued
      ensures Valid()
      ensures var r := React(input, frame);
        failure == (if r.Fail? then Some(r.failure) else None) &&
        done == (old(done) || r == RequestQuit) &&
        local.enqueued == old(local.enqueued) + (if r.Emit? then [r.event] else []) &&
        eventBuffer == old(eventBuffer) + (if r.Emit? then [r.event] else [])
      ensures React(input, frame).Emit? ==> React(input, frame).event.frame > local.simulatedUpTo
      ensures frame == old(frame) && otherClientFrame == old(otherClientFrame) && sent == old(sent)
      ensures highestConfirmed == old(highestConfirmed) && local.simulatedUpTo == old(local.simulatedUpTo)
    {
      failure := None;
      match React(input, frame)
      case Ignore =>
      case RequestQuit =>
        done := true;
      case Emit(e) =>
        local.EnqueueEvent(e);
        eventBuffer := eventBuffer + [e];
      case Fail(f) =>
        failure := Some(f);
    }

    /** The event loop of one tick. */
    method ProcessInputs(inputs: seq<InputEvent>) returns (failure: Option<Failure>)
      requires Valid()
      modifies this, local`enqueued
      ensures Valid()
      ensures var c := Capture(inputs, frame);
        failure == c.failure && done == (old(done) || c.quit) &&
        local.enqueued == old(local.enqueued) + c.events &&
        eventBuffer == old(eventBuffer) + c.events
      ensures frame == old(frame) && otherClientFrame == old(otherClientFrame) && sent == old(sent)
      ensures highestConfirmed == old(highestConfirmed) && local.simulatedUpTo == old(local.simulatedUpTo)
    {
      var i := 0;
      while i < |inputs|
        invariant 0 <= i <= |inputs|
        invariant Valid()
        invariant Capture(inputs[..i], frame).failure.None?
        invariant done == (old(done) || Capture(inputs[..i], frame).quit)
        invariant local.enqueued == old(local.enqueued) + Capture(inputs[..i], frame).events
        invariant eventBuffer == old(eventBuffer) + Capture(inputs[..i], frame).events
        invariant frame == old(frame) && otherClientFrame == old(otherClientFrame) && sent == old(sent)
        invariant highestConfirmed == old(highestConfirmed) && local.simulatedUpTo == old(local.simulatedUpTo)
      {
        CaptureStep(inputs, i, frame);
        failure := HandleInput(inputs[i]);
        if failure.Some? {
          CaptureStopsAfterFailure(inputs[..i + 1], inputs[i + 1..], frame);
          assert inputs[..i + 1] + inputs[i + 1..] == inputs;
          return;
        }
        i := i + 1;
      }
      assert inputs[..i] == inputs;
      failure := None;
    }

    /** main.py:303-309: drain the queue of messages, each of which must be
        a broadcast with at least one client; the last one's frame becomes
        the other client's frame. */
    method Drain(incoming: seq<Message>) returns (failure: Option<Failure>)
      requires Valid()
      modifies this
      ensures Valid()
      ensures var k := AcceptedPrefix(incoming);
        failure == DrainFailure(incoming) &&
        otherClientFrame == LatestFrame(old(otherClientFrame), incoming[..k]) &&
        highestConfirmed == HighestFrame(old(highestConfirmed), incoming[..k])
      ensures frame == old(frame) && eventBuffer == old(eventBuffer) && sent == old(sent) && done == old(done)
    {
      var i := 0;
      while i < |incoming|
        invariant 0 <= i <= AcceptedPrefix(incoming)
        invariant otherClientFrame == LatestFrame(old(otherClientFrame), incoming[..i])
        invariant highestConfirmed == HighestFrame(old(highestConfirmed), incoming[..i])
        invariant Valid()
        invariant frame == old(frame) && eventBuffer == old(eventBuffer) && sent == old(sent) && done == old(done)
      {
        var message := incoming[i];
        if !message.BroadcastMessage? {
          return Some(NotABroadcast);
        }
        if |message.eventsPerClient| < 1 {
          return Some(NoClients);
        }
        assert incoming[..i + 1][..i] == incoming[..i];
        otherClientFrame := Some(message.frame);
        highestConfirmed := Max(highestConfirmed, message.frame);
        i := i + 1;
      }
      assert incoming[..i] == incoming;
      failure := None;
    }

    /** main.py:300-312: advance the local simulation, drain the queue of
        broadcasts, and advance the remote simulation within its frontier. */
    method Simulate(incoming: seq<Message>) returns (failure: Option<Failure>)
      requires Valid()
      modifies this, local`simulatedUpTo, remote`simulatedUpTo
      ensures Valid()
      ensures var k := AcceptedPrefix(incoming);
        failure == DrainFailure(incoming) &&
        otherClientFrame == LatestFrame(old(otherClientFrame), incoming[..k]) &&
        highestConfirmed == HighestFrame(old(highestConfirmed), incoming[..k])
      ensures var t := LocalTarget(frame);
        local.simulatedUpTo == if t.Some? then Max(old(local.simulatedUpTo), t.value) else old(local.simulatedUpTo)
      ensures var t := RemoteTarget(frame, otherClientFrame);
        remote.simulatedUpTo == if failure.None? && t.Some? then Max(old(remote.simulatedUpTo), t.value)
                                else old(remote.simulatedUpTo)
      ensures frame == old(frame) && eventBuffer == old(eventBuffer) && sent == old(sent) && done == old(done)
    {
      if frame > 0 {
        local.SimulateUpUntil(frame - 1);
      }
      failure := Drain(incoming);
      if failure.None? && frame > InputDelay && otherClientFrame.Some? {
        remote.SimulateUpUntil(Min(frame - InputDelay, otherClientFrame.value));
      }
    }

    /** One send of the event buffer at the current loop frame, then clearing it. */
    method Flush() returns (failure: Option<Failure>)
      requires Valid()
      modifies this
      ensures Valid()
      ensures if |old(eventBuffer)| > 255 then
          failure == Some(SendFailed(|old(eventBuffer)|)) && sent == old(sent) && eventBuffer == old(eventBuffer)
        else
          failure.None? && sent == old(sent) + [EventBufferMessage(old(eventBuffer), frame)] && eventBuffer == []
      ensures frame == old(frame) && otherClientFrame == old(otherClientFrame) && done == old(done)
      ensures highestConfirmed == old(highestConfirmed)
    {
      var r := SendEventBuffer(eventBuffer, frame);
      if r.Err? {
        return Some(SendFailed(|eventBuffer|));
      }
      sent := sent + [r.value];
      flushedEvents := flushedEvents + eventBuffer;
      eventBuffer := [];
      assert flushedEvents + [] == flushedEvents;
      failure := None;
    }

    /** main.py:332-336: count the frame up to new_frame - 1, sending and
        clearing the event buffer at every frame divisible by 15. */
    method CatchUp(newFrame: U64) returns (failure: Option<Failure>)
      requires Valid()
      modifies this
      ensures Valid()
      ensures CatchUpOutcome(old(frame), newFrame, old(eventBuffer), old(sent), failure, frame, sent, eventBuffer)
      ensures otherClientFrame == old(otherClientFrame) && done == old(done)
      ensures highestConfirmed == old(highestConfirmed)
    {
      ghost var start, buffer0, sent0 := frame, eventBuffer, sent;
      while frame < newFrame - 1
        invariant start <= frame && (frame <= newFrame - 1 || frame == start)
        invariant CaughtUpTo(start, buffer0, sent0)
        invariant Valid()
        invariant otherClientFrame == old(otherClientFrame) && done == old(done)
        invariant highestConfirmed == old(highestConfirmed)
      {
        CatchUpStep(start, frame, buffer0, sent0, sent, eventBuffer);
        if frame % SendInterval == 0 {
          failure := Flush();
          if failure.Some? {
            CatchUpStopped(start, frame, newFrame, buffer0, sent0);
            return;
          }
        }
        Advance();
      }
      CatchUpFinished(start, frame, newFrame, buffer0, sent0, sent, eventBuffer);
      failure := None;
    }

    /** What the catch-up loop has sent since it started at `start` with
        `buffer0` buffered and `sent0` already sent. */
    ghost predicate CaughtUpTo(start: int, buffer0: seq<Event>, sent0: seq<seq<Byte>>)
      reads this
    {
      CatchUpProgress(start, frame, buffer0, sent0, sent, eventBuffer)
    }

    /** One pass of the game loop's body: this tick's pygame events, then the
        two simulations with the messages the receiver has queued, then the
        catch-up to the frame the clock reports. */
    method Tick(t: TickInput) returns (failure: Option<Failure>)
      requires Valid()
      modifies this, local`enqueued, local`simulatedUpTo, remote`simulatedUpTo
      ensures Valid()
      ensures old(frame) <= frame && old(highestConfirmed) <= highestConfirmed
      ensures old(local.simulatedUpTo) <= local.simulatedUpTo && old(remote.simulatedUpTo) <= remote.simulatedUpTo
      ensures var c := Capture(t.inputs, old(frame));
        done == (old(done) || c.quit) && local.enqueued == old(local.enqueued) + c.events
      // an unknown key stops the tick before the simulations are touched
      ensures var c := Capture(t.inputs, old(frame));
        c.failure.Some? ==>
          failure == c.failure && frame == old(frame) && sent == old(sent) &&
          eventBuffer == old(eventBuffer) + c.events && otherClientFrame == old(otherClientFrame) &&
          local.simulatedUpTo == old(local.simulatedUpTo) && remote.simulatedUpTo == old(remote.simulatedUpTo)
      // otherwise the local simulation reaches frame - 1, the accepted
      // broadcasts set other_client_frame, and the remote simulation follows
      // when the drain did not fail
      ensures var c, k := Capture(t.inputs, old(frame)), AcceptedPrefix(t.incoming);
        var lt, rt := LocalTarget(old(frame)), RemoteTarget(old(frame), otherClientFrame);
        c.failure.None? ==>
          otherClientFrame == LatestFrame(old(otherClientFrame), t.incoming[..k]) &&
          highestConfirmed == HighestFrame(old(highestConfirmed), t.incoming[..k]) &&
          local.simulatedUpTo == (if lt.Some? then Max(old(local.simulatedUpTo), lt.value) else old(local.simulatedUpTo)) &&
          remote.simulatedUpTo == (if DrainFailure(t.incoming).None? && rt.Some? then Max(old(remote.simulatedUpTo), rt.value)
                                   else old(remote.simulatedUpTo))
      ensures var c := Capture(t.inputs, old(frame));
        c.failure.None? && DrainFailure(t.incoming).Some? ==>
          failure == DrainFailure(t.incoming) && frame == old(frame) && sent == old(sent) &&
          eventBuffer == old(eventBuffer) + c.events
      // and then the catch-up sends the tick's buffer at the frames divisible by 15
      ensures var c := Capture(t.inputs, old(frame));
        c.failure.None? && DrainFailure(t.incoming).None? ==>
          CatchUpOutcome(old(frame), t.clockFrame, old(eventBuffer) + c.events, old(sent), failure, frame, sent, eventBuffer)
    {
      failure := ProcessInputs(t.inputs);
      if failure.Some? {
        return;
      }
      failure := Simulate(t.incoming);
      if failure.Some? {
        return;
      }
      ghost var before := frame;
      FlushFramesExact(before, t.clockFrame - 1);
      failure := CatchUp(t.clockFrame);
      var flushes := FlushFrames(before, t.clockFrame - 1);
      if flushes != [] {
        assert flushes[0] in flushes;
      }
    }

    /** The game loop: ticks run while the player has not quit and no tick
        has failed. */
    method Run(ticks: seq<TickInput>) returns (failure: Option<Failure>, ticksRun: nat)
      requires Valid()
      modifies this, local`enqueued, local`simulatedUpTo, remote`simulatedUpTo
      ensures Valid()
      ensures ticksRun <= |ticks|
      ensures failure.None? ==> ticksRun == |ticks| || done
      ensures old(frame) <= frame && old(highestConfirmed) <= highestConfirmed
      ensures old(local.simulatedUpTo) <= local.simulatedUpTo && old(remote.simulatedUpTo) <= remote.simulatedUpTo
      ensures old(done) ==> ticksRun == 0
    {
      ticksRun := 0;
      failure := None;
      while ticksRun < |ticks| && !done
        invariant ticksRun <= |ticks|
        invariant Valid()
        invariant old(frame) <= frame && old(highestConfirmed) <= highestConfirmed
        invariant old(local.simulatedUpTo) <= local.simulatedUpTo && old(remote.simulatedUpTo) <= remote.simulatedUpTo
        invariant old(done) ==> done && ticksRun == 0
      {
        failure := Tick(ticks[ticksRun]);
        ticksRun := ticksRun + 1;
        if failure.Some? {
          return;
        }
      }
    }

    /** The catch-up loop's increment of the frame counter. */
    method Advance()
      requires Valid()
      requires frame < 0xFFFF_FFFF_FFFF_FFFF
      modifies this
      ensures Valid()
      ensures frame == old(frame) + 1
      ensures eventBuffer == old(eventBuffer) && sent == old(sent) && otherClientFrame == old(otherClientFrame)
      ensures done == old(done) && highestConfirmed == old(highestConfirmed)
    {
      frame := frame + 1;
    }
  }

  /** The event loop's next event, after no failure so far. */
  lemma CaptureStep(inputs: seq<InputEvent>, i: nat, frame: U64)
    requires i < |inputs| && Capture(inputs[..i], frame).failure.None?
    ensures var c, r := Capture(inputs[..i], frame), React(inputs[i], frame);
      Capture(inputs[..i + 1], frame) ==
        match r
        case Ignore => c
        case RequestQuit => c.(quit := true)
        case Emit(e) => c.(events := c.events + [e])
        case Fail(f) => c.(failure := Some(f))
  {
    assert inputs[..i + 1][..i] == inputs[..i];
  }

  /** Once an event has failed the tick, the events after it are not looked at. */
  lemma {:induction false} CaptureStopsAfterFailure(inputs: seq<InputEvent>, later: seq<InputEvent>, frame: U64)
    requires Capture(inputs, frame).failure.Some?
    ensures Capture(inputs + later, frame) == Capture(inputs, frame)
    decreases |later|
  {
    if later != [] {
      var init := later[..|later| - 1];
      CaptureStopsAfterFailure(inputs, init, frame);
      assert (inputs + later)[..|inputs + later| - 1] == inputs + init;
    } else {
      assert inputs + later == inputs;
    }
  }
}
