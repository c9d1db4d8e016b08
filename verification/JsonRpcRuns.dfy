/** Properties of every run of the adapter: any sequence of polls and inbound messages. */
module JsonRpcRuns {
  import opened AxtpTypes
  import opened Json
  import opened JsonRpcAdapter
  import SessionIds

  /**
   A poll reports the connection and tries at most one write; a message may make the core throw, and tries at most
   two writes. Messages that arrive while the transport is polled come before the poll they arrive in.
   */
  datatype Input =
    | Polled(connected: bool, generation: nat, write: Write)
    | Received(message: Option<Json>, coreThrows: bool, write: Write, errorWrite: Write)

  function Next(a: Adapter, i: Input): Adapter {
    match i
    case Polled(connected, generation, write) => AfterPoll(a, connected, generation, write)
    case Received(message, _, _, _) => AfterMessage(a, message)
  }

  function Events(a: Adapter, i: Input): seq<Event> {
    match i
    case Polled(connected, generation, write) => PollEvents(a, connected, generation, write)
    case Received(message, coreThrows, write, errorWrite) => MessageEvents(a, message, coreThrows, write, errorWrite)
  }

  function Run(inputs: seq<Input>): Adapter {
    if inputs == [] then Start() else Next(Run(inputs[..|inputs| - 1]), inputs[|inputs| - 1])
  }

  function Log(inputs: seq<Input>): seq<Event> {
    if inputs == [] then [] else Log(inputs[..|inputs| - 1]) + Events(Run(inputs[..|inputs| - 1]), inputs[|inputs| - 1])
  }

  // One reaction per message.

  /**
   A message causes exactly one reaction: it is answered by IDENTIFIED, answered by an error, or forwarded. A second
   reaction, an error, is tried exactly when the write of the first or the core behind the forward threw.
   */
  lemma OneReaction(a: Adapter, message: Option<Json>, coreThrows: bool, write: Write, errorWrite: Write)
    ensures var events := MessageEvents(a, message, coreThrows, write, errorWrite);
            && events != []
            && (events[0].TriedIdentified? || events[0].TriedError? || events[0].Forwarded?)
            && (|events| == 2 <==>
                  message.Some? && Dispatch(a, message.value, write).Ok? && events[0].Threw(coreThrows))
            && (|events| == 2 ==> events[1] == InvalidMessage(AfterMessage(a, message), errorWrite))
            && (|events| != 2 ==> |events| == 1)
  {
  }

  /** When every write returns, the second reaction remains only for a core that throws. */
  lemma OneReactionWhenWritten(a: Adapter, message: Option<Json>, coreThrows: bool)
    ensures var events := MessageEvents(a, message, coreThrows, Wrote, Wrote);
            |events| == 2 <==> events[0].Forwarded? && coreThrows
  {
    OneReaction(a, message, coreThrows, Wrote, Wrote);
  }

  // The gate.

  /** An IDENTIFY was processed for the session `sid`, whether or not its answer could be written. */
  predicate Names(e: Event, sid: string) {
    e.TriedIdentified? && e.sid == sid
  }

  /** At position `i` an IDENTIFY for the session `sid` has been processed in the current activation. */
  ghost predicate HeldAt(log: seq<Event>, i: nat, sid: string) {
    i <= |log| &&
    exists j :: 0 <= j < i && Names(log[j], sid) && forall k | j < k < i :: !log[k].Activated?
  }

  /** Every IDENTIFY of the current activation was processed for the same session. */
  ghost predicate OneSessionAt(log: seq<Event>, i: nat, sid: string) {
    i <= |log| &&
    forall j | 0 <= j < i && log[j].TriedIdentified? && (forall k | j < k < i :: !log[k].Activated?) ::
      log[j].sid == sid
  }

  ghost predicate Gate(log: seq<Event>) {
    forall i | 0 <= i < |log| && log[i].Forwarded? ::
      && log[i].op != REQUEST_BATCH
      && (log[i].op == REQUEST ==> log[i].sid != "" && HeldAt(log, i, log[i].sid) && OneSessionAt(log, i, log[i].sid))
  }

  ghost predicate Consistent(a: Adapter, log: seq<Event>) {
    && a.sid != ""
    && (a.identified ==> HeldAt(log, |log|, a.sid) && OneSessionAt(log, |log|, a.sid))
    && (!a.identified ==> forall sid :: !HeldAt(log, |log|, sid))
  }

  lemma ForwardNeedsSession(a: Adapter, j: Json, write: Write)
    requires Dispatch(a, j, write).Ok? && Dispatch(a, j, write).value.1.Forwarded?
    ensures var f := Dispatch(a, j, write).value.1;
            f.op != REQUEST_BATCH && (f.op == REQUEST ==> a.identified && f.sid == a.sid && a.sid != "")
  {
  }

  lemma SessionIdNonEmpty(seed: uint32, counter: uint32)
    ensures SessionIds.SessionId(seed, counter) != ""
  {
  }

  /** Appending an event that is neither an activation nor an IDENTIFIED changes nothing about the session held. */
  lemma PlainEventKeepsSession(a: Adapter, log: seq<Event>, e: Event)
    requires Consistent(a, log) && !e.Activated? && !e.TriedIdentified?
    ensures Consistent(a, log + [e])
  {
    var more := log + [e];
    assert forall j | 0 <= j < |log| :: more[j] == log[j];
    if a.identified {
      var j :| 0 <= j < |log| && Names(log[j], a.sid) && forall k | j < k < |log| :: !log[k].Activated?;
      assert Names(more[j], a.sid) && forall k | j < k < |more| :: !more[k].Activated?;
      forall i | 0 <= i < |more| && more[i].TriedIdentified? && (forall k | i < k < |more| :: !more[k].Activated?)
        ensures more[i].sid == a.sid
      {
        assert forall k | i < k < |log| :: !more[k].Activated?;
      }
    } else {
      forall sid ensures !HeldAt(more, |more|, sid) {
        HeldAfterPlain(log, e, sid);
      }
    }
  }

  lemma HeldAfterPlain(log: seq<Event>, e: Event, sid: string)
    requires !e.Activated? && !e.TriedIdentified?
    ensures HeldAt(log + [e], |log| + 1, sid) ==> HeldAt(log, |log|, sid)
  {
    var more := log + [e];
    if HeldAt(more, |more|, sid) {
      var j :| 0 <= j < |more| && Names(more[j], sid) && forall k | j < k < |more| :: !more[k].Activated?;
      assert Names(log[j], sid);
      assert forall k | j < k < |log| :: log[k] == more[k];
    }
  }

  lemma NotHeldAfterActivation(log: seq<Event>, e: Event, sid: string)
    requires e.Activated?
    ensures !HeldAt(log + [e], |log| + 1, sid)
  {
    var more := log + [e];
    assert more[|log|] == e;
  }

  /** A forwarded event is admissible after `log`. */
  ghost predicate Admissible(log: seq<Event>, e: Event) {
    e.Forwarded? ==>
      && e.op != REQUEST_BATCH
      && (e.op == REQUEST ==> e.sid != "" && HeldAt(log, |log|, e.sid) && OneSessionAt(log, |log|, e.sid))
  }

  lemma GateExtends(log: seq<Event>, e: Event)
    requires Gate(log) && Admissible(log, e)
    ensures Gate(log + [e])
  {
    var more := log + [e];
    forall i | 0 <= i < |more| && more[i].Forwarded?
      ensures more[i].op != REQUEST_BATCH
      ensures more[i].op == REQUEST ==>
                more[i].sid != "" && HeldAt(more, i, more[i].sid) && OneSessionAt(more, i, more[i].sid)
    {
      SameBefore(log, e, i, more[i].sid);
      assert i < |log| ==> more[i] == log[i];
    }
  }

  lemma SameBefore(log: seq<Event>, e: Event, i: nat, sid: string)
    requires i <= |log|
    ensures HeldAt(log + [e], i, sid) <==> HeldAt(log, i, sid)
    ensures OneSessionAt(log + [e], i, sid) <==> OneSessionAt(log, i, sid)
  {
    assert forall j | 0 <= j < i :: (log + [e])[j] == log[j];
  }

  /** A new activation holds no session. */
  lemma ActivationDropsSession(a: Adapter, log: seq<Event>, e: Event)
    requires e.Activated? && !a.identified && a.sid != ""
    ensures Consistent(a, log + [e])
  {
    var more := log + [e];
    forall sid ensures !HeldAt(more, |more|, sid) {
      NotHeldAfterActivation(log, e, sid);
    }
  }

  /** An IDENTIFIED names the session held from then on; a repeated one names the same. */
  lemma IdentifiedHoldsSession(a: Adapter, log: seq<Event>, b: Adapter, write: Write)
    requires Consistent(a, log) && b.identified && b.sid != "" && (a.identified ==> b.sid == a.sid)
    ensures Consistent(b, log + [TriedIdentified(b.sid, write)])
  {
    var e := TriedIdentified(b.sid, write);
    var more := log + [e];
    assert more[|log|] == e;
    forall i | 0 <= i < |more| && more[i].TriedIdentified? && (forall k | i < k < |more| :: !more[k].Activated?)
      ensures more[i].sid == b.sid
    {
      if i < |log| {
        assert log[i] == more[i] && forall k | i < k < |log| :: !log[k].Activated? by {
          assert forall k | i < k < |log| :: log[k] == more[k];
        }
        assert HeldAt(log, |log|, log[i].sid);
      }
    }
  }

  lemma MessageKeepsGate(a: Adapter, log: seq<Event>, message: Option<Json>, coreThrows: bool,
                         write: Write, errorWrite: Write)
    requires Consistent(a, log) && Gate(log)
    ensures var more := log + MessageEvents(a, message, coreThrows, write, errorWrite);
            Consistent(AfterMessage(a, message), more) && Gate(more)
  {
    var events := MessageEvents(a, message, coreThrows, write, errorWrite);
    var b := AfterMessage(a, message);
    OneReaction(a, message, coreThrows, write, errorWrite);
    var one := log + [events[0]];
    GateStep(a, log, message, coreThrows, write, errorWrite);
    if |events| == 1 {
      assert log + events == one;
    } else {
      assert log + events == one + [events[1]];
      PlainEventKeepsSession(b, one, events[1]);
      GateExtends(one, events[1]);
    }
  }

  lemma GateStep(a: Adapter, log: seq<Event>, message: Option<Json>, coreThrows: bool, write: Write, errorWrite: Write)
    requires Consistent(a, log) && Gate(log)
    ensures var events := MessageEvents(a, message, coreThrows, write, errorWrite);
            events != [] && Consistent(AfterMessage(a, message), log + [events[0]]) && Gate(log + [events[0]])
  {
    var e := MessageEvents(a, message, coreThrows, write, errorWrite)[0];
    if e.TriedIdentified? {
      IdentifyEffect(a, message.value, write);
      IdentifiedHoldsSession(a, log, AfterMessage(a, message), write);
    } else {
      PlainEventKeepsSession(a, log, e);
      if e.Forwarded? {
        ForwardNeedsSession(a, message.value, write);
      }
    }
    GateExtends(log, e);
  }

  lemma IdentifyEffect(a: Adapter, j: Json, write: Write)
    requires a.sid != "" && Dispatch(a, j, write).Ok? && Dispatch(a, j, write).value.1.TriedIdentified?
    ensures var (b, e) := Dispatch(a, j, write).value;
            && b.identified && b.sid != "" && e == TriedIdentified(b.sid, write)
            && (a.identified ==> b == a)
            && AfterMessage(a, Some(j)) == b
  {
    SessionIdNonEmpty(0, a.nextSessionId);
  }

  lemma PollKeepsGate(a: Adapter, log: seq<Event>, connected: bool, generation: nat, write: Write)
    requires Consistent(a, log) && Gate(log)
    ensures var more := log + PollEvents(a, connected, generation, write);
            Consistent(AfterPoll(a, connected, generation, write), more) && Gate(more)
  {
    var b := AfterPoll(a, connected, generation, write);
    var events := PollEvents(a, connected, generation, write);
    var hello := TriedHello(write);
    if Activates(a, connected, generation) {
      SessionIdNonEmpty(0, a.nextSessionId);
      ActivationDropsSession(b, log, events[0]);
      GateExtends(log, events[0]);
      PlainEventKeepsSession(b, log + [events[0]], hello);
      GateExtends(log + [events[0]], hello);
      assert log + events == log + [events[0]] + [hello];
    } else if events != [] {
      PlainEventKeepsSession(b, log, hello);
      GateExtends(log, hello);
    } else {
      assert log + events == log;
    }
  }

  /**
   Over any run, a REQUEST reaches the core only with the session id of an IDENTIFY processed in the current
   activation, all IDENTIFYs of that activation were processed for that one session, and a REQUEST_BATCH never
   gets through.
   */
  lemma {:induction false} RequestsPassTheGate(inputs: seq<Input>)
    ensures Consistent(Run(inputs), Log(inputs)) && Gate(Log(inputs))
  {
    if inputs == [] {
      SessionIdNonEmpty(0, 1);
    } else {
      var before := inputs[..|inputs| - 1];
      RequestsPassTheGate(before);
      match inputs[|inputs| - 1]
      case Polled(connected, generation, write) =>
        PollKeepsGate(Run(before), Log(before), connected, generation, write);
      case Received(message, coreThrows, write, errorWrite) =>
        MessageKeepsGate(Run(before), Log(before), message, coreThrows, write, errorWrite);
    }
  }

  function ResumingIdentify(resume: string): Json {
    Object(map["op" := Unsigned(IDENTIFY), "d" := Object(map["resumeSid" := Str(resume)])])
  }

  function BareRequest(sid: string): Json {
    Object(map["op" := Unsigned(REQUEST), "sid" := Str(sid)])
  }

  lemma ResumingIdentifyDispatch(a: Adapter, resume: string, write: Write)
    requires !a.identified && resume != ""
    ensures Dispatch(a, ResumingIdentify(resume), write) ==
            Ok((a.(identified := true, sid := resume), TriedIdentified(resume, write)))
  {
  }

  lemma BareRequestDispatch(a: Adapter, write: Write)
    requires a.identified && a.sid != ""
    ensures Dispatch(a, BareRequest(a.sid), write) == Ok((a, Forwarded(REQUEST, a.sid)))
  {
  }

  /** The gate does not wait for the answer: a session whose IDENTIFIED was lost lets its requests through. */
  lemma LostAnswerOpensGate(a: Adapter, resume: string)
    requires !a.identified && resume != ""
    ensures var b := AfterMessage(a, Some(ResumingIdentify(resume)));
            && MessageEvents(a, Some(ResumingIdentify(resume)), false, Lost, Wrote) ==
                 [TriedIdentified(resume, Lost), InvalidMessage(b, Wrote)]
            && MessageEvents(b, Some(BareRequest(resume)), false, Wrote, Wrote) == [Forwarded(REQUEST, resume)]
  {
    ResumingIdentifyDispatch(a, resume, Lost);
    ResumingIdentifyDispatch(a, resume, Wrote);
    BareRequestDispatch(a.(identified := true, sid := resume), Wrote);
    hide Dispatch, ResumingIdentify, BareRequest;
  }

  // HELLOs and activations.

  predicate IsHello(e: Event) {
    e.TriedHello? && e.write.Wrote?
  }

  /** HELLOs whose write returned. */
  function Hellos(log: seq<Event>): nat {
    if log == [] then 0 else Hellos(log[..|log| - 1]) + if IsHello(log[|log| - 1]) then 1 else 0
  }

  function Activations(log: seq<Event>): nat {
    if log == [] then 0 else Activations(log[..|log| - 1]) + if log[|log| - 1].Activated? then 1 else 0
  }

  /** The latest activation still waits for a HELLO whose write returns. */
  predicate AwaitsHello(log: seq<Event>) {
    log != [] && (log[|log| - 1].Activated? || (!IsHello(log[|log| - 1]) && AwaitsHello(log[..|log| - 1])))
  }

  /** Activations that were superseded while they still waited. */
  function Unsaid(log: seq<Event>): nat {
    if log == [] then 0
    else
      var before := log[..|log| - 1];
      Unsaid(before) + if log[|log| - 1].Activated? && AwaitsHello(before) then 1 else 0
  }

  /** The transport reported a connection of generation zero before any other, and a HELLO could be written to it. */
  ghost predicate EarlyHello(inputs: seq<Input>) {
    exists k :: 0 <= k < |inputs| && inputs[k] == Polled(true, 0, Wrote) &&
                forall i | 0 <= i < k && inputs[i].Polled? && inputs[i].connected :: inputs[i].generation == 0
  }

  lemma CountSnoc(log: seq<Event>, e: Event)
    ensures Hellos(log + [e]) == Hellos(log) + (if IsHello(e) then 1 else 0)
    ensures Activations(log + [e]) == Activations(log) + (if e.Activated? then 1 else 0)
    ensures AwaitsHello(log + [e]) <==> e.Activated? || (!IsHello(e) && AwaitsHello(log))
    ensures Unsaid(log + [e]) == Unsaid(log) + (if e.Activated? && AwaitsHello(log) then 1 else 0)
  {
    assert (log + [e])[..|log|] == log;
  }

  /** What one input adds: `tried` says that it wrote a HELLO, `activated` that it began an activation. */
  lemma EventCounts(log: seq<Event>, a: Adapter, i: Input)
    ensures var more := log + Events(a, i);
            var activated := i.Polled? && Activates(a, i.connected, i.generation);
            var said := i.Polled? && i.connected && (activated || !a.helloSent) && i.write.Wrote?;
            && Activations(more) == Activations(log) + (if activated then 1 else 0)
            && Hellos(more) == Hellos(log) + (if said then 1 else 0)
            && Unsaid(more) == Unsaid(log) + (if activated && AwaitsHello(log) then 1 else 0)
            && (AwaitsHello(more) <==> (activated || AwaitsHello(log)) && !said)
  {
    hide Hellos, Activations, AwaitsHello, Unsaid, Dispatch;
    var events := Events(a, i);
    if i.Received? {
      OneReaction(a, i.message, i.coreThrows, i.write, i.errorWrite);
    }
    if events == [] {
      assert log + events == log;
    } else {
      CountSnoc(log, events[0]);
      if |events| == 1 {
        assert log + events == log + [events[0]];
      } else {
        CountSnoc(log + [events[0]], events[1]);
        assert log + events == log + [events[0]] + [events[1]];
      }
    }
  }

  lemma MessageKeepsConnection(a: Adapter, message: Option<Json>)
    ensures var b := AfterMessage(a, message); b.helloSent == a.helloSent && b.activeGeneration == a.activeGeneration
  {
  }

  lemma NoEvents()
    ensures Hellos([]) == 0 && Activations([]) == 0 && Unsaid([]) == 0 && !AwaitsHello([]) && !EarlyHello([])
  {
  }

  lemma EarlyHelloExtends(before: seq<Input>, i: Input)
    ensures EarlyHello(before + [i]) <==>
            EarlyHello(before) || (i == Polled(true, 0, Wrote) && OnlyGenerationZero(before))
  {
    var inputs := before + [i];
    assert forall k | 0 <= k < |before| :: inputs[k] == before[k];
    if EarlyHello(before) {
      var k :| 0 <= k < |before| && before[k] == Polled(true, 0, Wrote) &&
               forall l | 0 <= l < k && before[l].Polled? && before[l].connected :: before[l].generation == 0;
      assert inputs[k] == Polled(true, 0, Wrote);
    }
    if i == Polled(true, 0, Wrote) {
      assert inputs[|before|] == i;
    }
  }

  /** No connection of a generation above zero has been seen. */
  ghost predicate OnlyGenerationZero(inputs: seq<Input>) {
    forall k | 0 <= k < |inputs| && inputs[k].Polled? && inputs[k].connected :: inputs[k].generation == 0
  }

  /**
   Every activation gets one HELLO, except those still waiting for a write that returns or superseded while they
   waited; and there is one more exactly when the first connection had generation zero and its HELLO was written.
   */
  lemma {:induction false} OneHelloPerActivation(inputs: seq<Input>)
    ensures var log := Log(inputs);
            && Hellos(log) + Unsaid(log) + (if AwaitsHello(log) then 1 else 0) ==
                 Activations(log) + (if EarlyHello(inputs) then 1 else 0)
            && (Activations(log) == 0 <==> OnlyGenerationZero(inputs))
            && (AwaitsHello(log) <==> Activations(log) > 0 && !Run(inputs).helloSent)
    ensures OnlyGenerationZero(inputs) ==>
              Run(inputs).activeGeneration == 0 && (Run(inputs).helloSent <==> EarlyHello(inputs))
  {
    hide Hellos, Activations, AwaitsHello, Unsaid, Dispatch, EarlyHello;
    if inputs == [] {
      NoEvents();
    } else {
      var before, i := inputs[..|inputs| - 1], inputs[|inputs| - 1];
      assert inputs == before + [i];
      OneHelloPerActivation(before);
      EventCounts(Log(before), Run(before), i);
      EarlyHelloExtends(before, i);
      if i.Received? {
        MessageKeepsConnection(Run(before), i.message);
      }
      assert OnlyGenerationZero(inputs) <==>
             OnlyGenerationZero(before) && !(i.Polled? && i.connected && i.generation != 0);
    }
  }

  /** When every write returns, nothing waits and nothing is superseded unsaid. */
  lemma {:induction false} AllSaid(inputs: seq<Input>)
    requires forall i | i in inputs && i.Polled? :: i.write.Wrote?
    ensures !AwaitsHello(Log(inputs)) && Unsaid(Log(inputs)) == 0
  {
    hide AwaitsHello, Unsaid, Dispatch, Hellos, Activations;
    if inputs == [] {
      NoEvents();
    } else {
      var before, i := inputs[..|inputs| - 1], inputs[|inputs| - 1];
      AllSaid(before);
      assert i in inputs;
      EventCounts(Log(before), Run(before), i);
    }
  }

  // Provisional session ids.

  ghost predicate FromCounter(sid: string, next: uint32) {
    exists c: uint32 :: 2 <= c < next && sid == SessionIds.SessionId(0, c)
  }

  ghost predicate ProvisionalIds(log: seq<Event>, next: uint32) {
    && (forall i | 0 <= i < |log| && log[i].Activated? :: FromCounter(log[i].provisionalSid, next))
    && (forall i, j | 0 <= i < j < |log| && log[i].Activated? && log[j].Activated? ::
          log[i].provisionalSid != log[j].provisionalSid)
  }

  lemma OtherEventsKeepProvisional(log: seq<Event>, next: uint32, events: seq<Event>, later: uint32)
    requires ProvisionalIds(log, next) && next <= later && forall e | e in events :: !e.Activated?
    ensures ProvisionalIds(log + events, later)
  {
    var more := log + events;
    assert forall i | |log| <= i < |more| :: more[i] == events[i - |log|] && more[i] in events;
    forall i | 0 <= i < |more| && more[i].Activated?
      ensures FromCounter(more[i].provisionalSid, later)
    {
      var c: uint32 :| 2 <= c < next && log[i].provisionalSid == SessionIds.SessionId(0, c);
      assert 2 <= c < later && more[i].provisionalSid == SessionIds.SessionId(0, c);
    }
  }

  lemma ActivationKeepsProvisional(log: seq<Event>, next: uint32)
    requires ProvisionalIds(log, next) && 2 <= next < 0xFFFF_FFFF
    ensures ProvisionalIds(log + [Activated(SessionIds.SessionId(0, next))], next + 1)
  {
    hide SessionIds.SessionId;
    var sid := SessionIds.SessionId(0, next);
    var more := log + [Activated(sid)];
    var later: uint32 := next + 1;
    forall i | 0 <= i < |more| && more[i].Activated?
      ensures FromCounter(more[i].provisionalSid, later)
      ensures i < |log| ==> more[i].provisionalSid != sid
    {
      if i < |log| {
        var c: uint32 :| 2 <= c < next && log[i].provisionalSid == SessionIds.SessionId(0, c);
        SessionIds.UnseededIdsDistinct(c, next);
        assert 2 <= c < later && more[i].provisionalSid == SessionIds.SessionId(0, c);
      }
    }
  }

  lemma MessageAllocates(a: Adapter, message: Option<Json>, coreThrows: bool, write: Write, errorWrite: Write)
    ensures var b := AfterMessage(a, message);
            b.nextSessionId == a.nextSessionId || b.nextSessionId == Successor(a.nextSessionId)
    ensures forall e | e in MessageEvents(a, message, coreThrows, write, errorWrite) :: !e.Activated?
  {
  }

  /** Until the counter comes round, no two activations start under the same session id. */
  lemma {:induction false} ActivationsDiffer(inputs: seq<Input>)
    requires |inputs| <= 0xFFFF_FFFD
    ensures 2 <= Run(inputs).nextSessionId <= 2 + |inputs| && ProvisionalIds(Log(inputs), Run(inputs).nextSessionId)
  {
    hide SessionIds.SessionId, FromCounter, ProvisionalIds, Dispatch;
    if inputs == [] {
      NoProvisional();
    } else {
      var before, i := inputs[..|inputs| - 1], inputs[|inputs| - 1];
      ActivationsDiffer(before);
      var a, b, log := Run(before), Run(inputs), Log(before);
      var next := a.nextSessionId;
      if i.Polled? && Activates(a, i.connected, i.generation) {
        var e := Activated(SessionIds.SessionId(0, next));
        ActivationKeepsProvisional(log, next);
        OtherEventsKeepProvisional(log + [e], next + 1, [TriedHello(i.write)], next + 1);
        assert log + Events(a, i) == log + [e] + [TriedHello(i.write)];
      } else if i.Polled? {
        OtherEventsKeepProvisional(log, next, Events(a, i), next);
      } else {
        MessageAllocates(a, i.message, i.coreThrows, i.write, i.errorWrite);
        OtherEventsKeepProvisional(log, next, Events(a, i), b.nextSessionId);
      }
    }
  }

  lemma NoProvisional()
    ensures ProvisionalIds([], 2)
  {
  }
}
