/**
 A client session and an adapter joined by one ordered channel each way. A new connection replaces both channels at
 once; the adapter notices it only at its next poll, and until then handles what arrives under its old session. The
 client program may start a new session for the connection or keep the old one.
 */
module JsonRpcHandshake {
  import opened AxtpTypes
  import opened Json
  import opened JsonRpcAdapter
  import opened Client = RpcClientSession
  import JsonRpcRuns
  import SessionIds

  // The adapter's replies as the client reads them.

  function HelloMessage(version: string): Json {
    Object(map["sid" := Str(""), "op" := Unsigned(HELLO), "d" := Object(map["axtpVersion" := Str(version)])])
  }

  function IdentifiedMessage(sid: string): Json {
    Object(map["sid" := Str(sid), "op" := Unsigned(IDENTIFIED), "d" := Object(map[])])
  }

  function ErrorMessage(e: Event): Json
    requires e.TriedError?
  {
    var op := if e.batch then REQUEST_BATCH_RESPONSE else REQUEST_RESPONSE;
    Object(map["sid" := Str(e.sid), "op" := Unsigned(op), "d" := Object(map["id" := Unsigned(e.requestId)])])
  }

  function RequestMessage(sid: string, id: uint32, name: string): Json {
    Object(map["sid" := Str(sid), "op" := Unsigned(REQUEST),
               "d" := Object(map["id" := Unsigned(id), "method" := Str(name)])])
  }

  /** The reply of one event, if it reaches the wire. */
  function Arriving(e: Event, version: string): seq<Json> {
    match e
    case TriedHello(write) => if write.Lost? then [] else [HelloMessage(version)]
    case TriedIdentified(sid, write) => if write.Lost? then [] else [IdentifiedMessage(sid)]
    case TriedError(_, _, _, _, _, write) => if write.Lost? then [] else [ErrorMessage(e)]
    case _ => []
  }

  function Replies(events: seq<Event>, version: string): seq<Json> {
    if events == [] then [] else Arriving(events[0], version) + Replies(events[1..], version)
  }

  /**
   `kept` says that the client program kept its session for the current connection, `established` that the client
   accepted an IDENTIFIED on it, and `early` that the adapter handled a message of it before noticing it.
   */
  datatype World = World(
    adapter: Adapter,
    client: Session,
    toClient: seq<Json>,
    toAdapter: seq<Json>,
    connected: bool,
    generation: nat,
    kept: bool,
    established: bool,
    early: bool)

  datatype Step =
    | Connect(generation: nat, newSession: bool)
    | Disconnect
    | Poll(write: Write)
    | AdapterReceives(coreThrows: bool, write: Write, errorWrite: Write)
    | ClientTakesHello(seed: uint32, eventMasks: string)
    | ClientTakesIdentified
    | ClientDrops
    | ClientReidentifies(eventMasks: string)
    | ClientRequests(id: uint32, name: string)

  /** The adapter has not noticed the current connection yet. */
  predicate Awaiting(w: World) {
    Activates(w.adapter, w.connected, w.generation)
  }

  predicate Enabled(w: World, s: Step) {
    match s
    case Connect(_, _) => true
    case Disconnect => w.connected
    case Poll(_) => true
    case AdapterReceives(_, _, _) => w.toAdapter != []
    case ClientReidentifies(_) => w.connected && w.client.sid != ""
    case ClientRequests(_, _) => w.established
    case _ => w.toClient != []
  }

  /** A step that is not enabled does nothing. */
  function Next(w: World, s: Step, version: string): World {
    if !Enabled(w, s) then w else
    match s
    case Connect(generation, newSession) =>
      var client := if newSession then NEW_SESSION else w.client;
      World(w.adapter, client, [], [], true, generation, !newSession, false, false)
    case Disconnect =>
      w.(toClient := [], toAdapter := [], connected := false, established := false, early := false)
    case Poll(write) =>
      w.(adapter := AfterPoll(w.adapter, w.connected, w.generation, write),
         toClient := w.toClient + Replies(PollEvents(w.adapter, w.connected, w.generation, write), version))
    case AdapterReceives(coreThrows, write, errorWrite) =>
      var message := Some(w.toAdapter[0]);
      w.(adapter := AfterMessage(w.adapter, message), toAdapter := w.toAdapter[1..], early := w.early || Awaiting(w),
         toClient := w.toClient + Replies(MessageEvents(w.adapter, message, coreThrows, write, errorWrite), version))
    case ClientTakesHello(seed, eventMasks) =>
      var hello := w.toClient[0];
      w.(client := AfterHello(w.client, hello), toClient := w.toClient[1..],
         toAdapter := w.toAdapter + if IsHello(hello) then [IdentifyMessage(seed, eventMasks)] else [])
    case ClientTakesIdentified =>
      var identified := w.toClient[0];
      w.(client := AfterIdentified(w.client, identified), toClient := w.toClient[1..],
         established := w.established || (w.client.helloAccepted && IdentifiedSid(identified).Some?))
    case ClientDrops => w.(toClient := w.toClient[1..])
    case ClientReidentifies(eventMasks) => w.(toAdapter := w.toAdapter + [ReidentifyMessage(w.client.sid, eventMasks)])
    case ClientRequests(id, name) => w.(toAdapter := w.toAdapter + [RequestMessage(w.client.sid, id, name)])
  }

  const START: World := World(Start(), NEW_SESSION, [], [], false, 0, false, false, false)

  function Run(steps: seq<Step>, version: string): World {
    if steps == [] then START else Next(Run(steps[..|steps| - 1], version), steps[|steps| - 1], version)
  }

  // The invariant of every run.

  ghost predicate FromAdapter(w: World, j: Json) {
    IdentifiedSid(j).Some? ==> w.adapter.identified && IdentifiedSid(j).value == w.adapter.sid
  }

  ghost predicate FromClient(w: World, j: Json) {
    || (exists seed: uint32, masks :: j == IdentifyMessage(seed, masks))
    || (exists sid, masks :: j == ReidentifyMessage(sid, masks))
    || (w.established && exists id: uint32, name :: j == RequestMessage(w.adapter.sid, id, name))
  }

  /** What is under way names the adapter's session, and an established client holds it. */
  ghost predicate Agree(w: World) {
    && (forall j | j in w.toClient :: FromAdapter(w, j))
    && (forall j | j in w.toAdapter :: FromClient(w, j))
    && (w.established ==> w.adapter.identified && w.client.sid == w.adapter.sid)
  }

  /** The ends agree unless a message was handled early and the adapter then noticed the connection. */
  ghost predicate Inv(w: World) {
    && w.adapter.sid != ""
    && (w.client.sid != "" || w.toAdapter != [] ==> w.client.helloAccepted)
    && (w.established ==> w.client.sid != "")
    && (!w.connected ==> w.toClient == [] && w.toAdapter == [] && !w.established && !w.early)
    && (Awaiting(w) && !w.early ==> w.toClient == [] && !w.established)
    && (Awaiting(w) && !w.early && w.client.sid == "" ==> w.toAdapter == [])
    && (Awaiting(w) && !w.kept ==> !w.client.helloAccepted)
    && (w.early ==> w.kept)
    && (Awaiting(w) || !w.early ==> Agree(w))
  }

  // How the adapter reacts to each kind of message of the client.

  /** Every IDENTIFY opens a session on an adapter that has none, and is answered with the session it holds. */
  lemma IdentifyDispatch(a: Adapter, seed: uint32, masks: string, write: Write)
    ensures var d := Dispatch(a, IdentifyMessage(seed, masks), write);
            && d.Ok? && d.value.1 == TriedIdentified(d.value.0.sid, write) && d.value.0.identified
            && d.value.0.sid == (if a.identified then a.sid else SessionIds.SessionId(seed, a.nextSessionId))
  {
  }

  /**
   A REIDENTIFY never changes the session of an identified adapter, whatever sid it carries, and is answered with
   it; an adapter without a session opens a new one and does not resume the old.
   */
  lemma ReidentifyDispatch(a: Adapter, sid: string, masks: string, write: Write)
    ensures var d := Dispatch(a, ReidentifyMessage(sid, masks), write);
            && d.Ok? && d.value.1 == TriedIdentified(d.value.0.sid, write) && d.value.0.identified
            && (a.identified ==> d.value.0 == a)
            && (!a.identified ==> d.value.0.sid == SessionIds.SessionId(0, a.nextSessionId))
  {
  }

  /** A REQUEST with the adapter's own session id passes the gate. */
  lemma RequestDispatch(a: Adapter, id: uint32, name: string, write: Write)
    requires a.identified && a.sid != ""
    ensures Dispatch(a, RequestMessage(a.sid, id, name), write) == Ok((a, Forwarded(REQUEST, a.sid)))
  {
  }

  lemma RequestReads(sid: string, id: uint32, name: string)
    ensures var j := RequestMessage(sid, id, name);
            ParseOp(j) == Ok(REQUEST) && DecodeEndpointMetadata(j) == Ok(NO_ENDPOINT)
  {
  }

  /** The messages of both ends by the numbers of their operations. */
  lemma WireShapes(version: string, sid: string, id: uint32, name: string, e: Event)
    requires e.TriedError?
    ensures Find(HelloMessage(version), "op") == Some(Unsigned(0))
    ensures Find(IdentifiedMessage(sid), "op") == Some(Unsigned(3))
    ensures Find(IdentifiedMessage(sid), "sid") == Some(Str(sid))
    ensures Find(RequestMessage(sid, id, name), "op") == Some(Unsigned(7)) && IsRequest(RequestMessage(sid, id, name))
    ensures Find(ErrorMessage(e), "op") == Some(Unsigned(if e.batch then 10 else 8))
    ensures Find(ErrorMessage(e), "sid") == Some(Str(e.sid))
    ensures Find(Find(ErrorMessage(e), "d").value, "id") == Some(Unsigned(e.requestId))
  {
  }

  /** A reply arrives unless its write was lost, and nothing but a reply does. */
  lemma RepliesArrive(e: Event, version: string)
    ensures |Arriving(e, version)| == if e.Reply() && !e.write.Lost? then 1 else 0
    ensures e.TriedError? && !e.write.Lost? ==> Arriving(e, version) == [ErrorMessage(e)]
    ensures e.TriedIdentified? && !e.write.Lost? ==> Arriving(e, version) == [IdentifiedMessage(e.sid)]
  {
  }

  /** A connection that ends takes what was under way with it; neither end learns of it by that alone. */
  lemma DisconnectForgets(w: World, version: string)
    requires w.connected
    ensures var v := Next(w, Disconnect, version);
            && !v.connected && v.toClient == [] && v.toAdapter == [] && !v.established
            && v.client == w.client && v.adapter == w.adapter
  {
  }

  /** Without a session every REQUEST is refused. */
  lemma RequestRefused(a: Adapter, sid: string, id: uint32, name: string, write: Write)
    requires !a.identified
    ensures var d := Dispatch(a, RequestMessage(sid, id, name), write);
            d.Ok? && d.value.0 == a && d.value.1.TriedError? && d.value.1.code == CONTROL_OPEN_REQUIRED
  {
    RequestReads(sid, id, name);
    hide RequestMessage, ParseOp, DecodeEndpointMetadata, ParseSid, ParseRequestId, Identify;
  }

  lemma ReplyShapes(version: string, sid: string, e: Event)
    ensures IdentifiedSid(HelloMessage(version)).None?
    ensures IdentifiedSid(IdentifiedMessage(sid)) == if sid == "" then None else Some(sid)
    ensures e.TriedError? ==> IdentifiedSid(ErrorMessage(e)).None?
  {
  }

  predicate Answers(e: Event, sid: string) {
    e.TriedIdentified? && e.sid == sid
  }

  /** Every IDENTIFIED among the replies comes from an event of that name. */
  lemma {:induction false} RepliesAre(events: seq<Event>, version: string, j: Json)
    requires j in Replies(events, version) && IdentifiedSid(j).Some?
    ensures exists e :: e in events && Answers(e, IdentifiedSid(j).value)
  {
    var e := events[0];
    ReplyShapes(version, if e.TriedIdentified? then e.sid else "", e);
    if j in Replies(events[1..], version) {
      RepliesAre(events[1..], version, j);
      var f :| f in events[1..] && Answers(f, IdentifiedSid(j).value);
      assert f in events;
    } else {
      assert Answers(e, IdentifiedSid(j).value);
    }
  }

  /** Once identified, no message changes the session; a first IDENTIFY sets one. */
  lemma MessageEffect(a: Adapter, message: Option<Json>, coreThrows: bool, write: Write, errorWrite: Write)
    requires a.sid != ""
    ensures var b, events := AfterMessage(a, message), MessageEvents(a, message, coreThrows, write, errorWrite);
            && b.sid != "" && b.activeGeneration == a.activeGeneration
            && (a.identified ==> b.identified && b.sid == a.sid)
            && (forall e | e in events && e.TriedIdentified? :: b.identified && e.sid == b.sid)
  {
    JsonRpcRuns.OneReaction(a, message, coreThrows, write, errorWrite);
    JsonRpcRuns.MessageKeepsConnection(a, message);
    if message.Some? {
      var d := Dispatch(a, message.value, write);
      if d.Ok? && d.value.1.TriedIdentified? {
        JsonRpcRuns.IdentifyEffect(a, message.value, write);
      }
    }
  }

  lemma ConnectKeepsInv(w: World, s: Step, version: string)
    requires Inv(w) && Enabled(w, s) && (s.Connect? || s.Disconnect?)
    ensures Inv(Next(w, s, version))
  {
  }

  lemma PollKeepsInv(w: World, write: Write, version: string)
    requires Inv(w)
    ensures Inv(Next(w, Poll(write), version)) && !Awaiting(Next(w, Poll(write), version))
  {
    var v := Next(w, Poll(write), version);
    var events := PollEvents(w.adapter, w.connected, w.generation, write);
    JsonRpcRuns.SessionIdNonEmpty(0, w.adapter.nextSessionId);
    if !w.early {
      forall j | j in v.toClient ensures FromAdapter(v, j) {
        if j in Replies(events, version) && IdentifiedSid(j).Some? {
          RepliesAre(events, version, j);
        } else {
          assert j in w.toClient ==> FromAdapter(w, j);
        }
      }
      forall j | j in v.toAdapter ensures FromClient(v, j) {
        assert FromClient(w, j);
      }
    }
  }

  lemma ReceiveKeepsInv(w: World, s: Step, version: string)
    requires Inv(w) && s.AdapterReceives? && w.toAdapter != []
    ensures Inv(Next(w, s, version))
  {
    hide Dispatch;
    var v := Next(w, s, version);
    var message := Some(w.toAdapter[0]);
    var events := MessageEvents(w.adapter, message, s.coreThrows, s.write, s.errorWrite);
    MessageEffect(w.adapter, message, s.coreThrows, s.write, s.errorWrite);
    if Awaiting(w) || !w.early {
      forall j | j in v.toClient ensures FromAdapter(v, j) {
        if j in w.toClient {
          assert FromAdapter(w, j);
        } else if IdentifiedSid(j).Some? {
          RepliesAre(events, version, j);
        }
      }
      forall j | j in v.toAdapter ensures FromClient(v, j) {
        assert FromClient(w, j);
      }
    }
  }

  lemma ClientStepKeepsInv(w: World, s: Step, version: string)
    requires Inv(w) && Enabled(w, s)
    requires !s.Poll? && !s.AdapterReceives? && !s.Connect? && !s.Disconnect?
    ensures Inv(Next(w, s, version))
  {
    var v := Next(w, s, version);
    if Awaiting(w) || !w.early {
      forall j | j in v.toClient ensures FromAdapter(v, j) {
        assert FromAdapter(w, j);
      }
      if s.ClientTakesIdentified? {
        assert FromAdapter(w, w.toClient[0]);
      }
      if s.ClientTakesHello? {
        assert FromClient(v, IdentifyMessage(s.seed, s.eventMasks));
      } else if s.ClientReidentifies? {
        assert FromClient(v, ReidentifyMessage(w.client.sid, s.eventMasks));
      } else if s.ClientRequests? {
        assert FromClient(v, RequestMessage(w.adapter.sid, s.id, s.name));
      }
      forall j | j in v.toAdapter ensures FromClient(v, j) {
        assert j in w.toAdapter ==> FromClient(w, j);
      }
    }
  }

  lemma {:induction false} RunKeepsInv(steps: seq<Step>, version: string)
    ensures Inv(Run(steps, version))
  {
    if steps == [] {
      JsonRpcRuns.SessionIdNonEmpty(0, 1);
    } else {
      var w, s := Run(steps[..|steps| - 1], version), steps[|steps| - 1];
      RunKeepsInv(steps[..|steps| - 1], version);
      hide Inv;
      if Enabled(w, s) {
        match s
        case Connect(_, _) => ConnectKeepsInv(w, s, version);
        case Disconnect => ConnectKeepsInv(w, s, version);
        case Poll(write) => PollKeepsInv(w, write, version);
        case AdapterReceives(_, _, _) => ReceiveKeepsInv(w, s, version);
        case _ => ClientStepKeepsInv(w, s, version);
      }
    }
  }

  // Agreement, for a connection whose messages were all handled after the adapter noticed it.

  /** Both ends hold the same session. */
  predicate SameSession(w: World) {
    w.adapter.identified && w.client.sid != "" && w.client.sid == w.adapter.sid
  }

  /**
   If no message of the connection was handled before the adapter noticed it, an accepted IDENTIFIED leaves both
   ends with the same session.
   */
  lemma EstablishedAgree(steps: seq<Step>, version: string)
    requires Run(steps, version).established && !Run(steps, version).early
    ensures SameSession(Run(steps, version))
  {
    RunKeepsInv(steps, version);
  }

  /** A client that starts a new session for the connection waits for HELLO, so none of its messages is early. */
  lemma FreshSessionIsNeverEarly(steps: seq<Step>, version: string)
    requires !Run(steps, version).kept
    ensures !Run(steps, version).early && (Run(steps, version).established ==> SameSession(Run(steps, version)))
  {
    RunKeepsInv(steps, version);
  }

  /** Nothing but the end of the connection ends the agreement, however often the client re-identifies. */
  lemma AgreementLasts(steps: seq<Step>, s: Step, version: string)
    requires Run(steps, version).established && !Run(steps, version).early && !s.Connect? && !s.Disconnect?
    ensures var w, v := Run(steps, version), Next(Run(steps, version), s, version);
            v.established && !v.early && v.client.sid == w.client.sid && v.adapter.sid == w.adapter.sid
  {
    RunKeepsInv(steps, version);
    RunExtends(steps, s, version);
    RunKeepsInv(steps + [s], version);
    var w := Run(steps, version);
    if s.AdapterReceives? && Enabled(w, s) {
      MessageEffect(w.adapter, Some(w.toAdapter[0]), s.coreThrows, s.write, s.errorWrite);
    }
  }

  lemma RunExtends(steps: seq<Step>, s: Step, version: string)
    ensures Run(steps + [s], version) == Next(Run(steps, version), s, version)
  {
    assert (steps + [s])[..|steps|] == steps;
  }

  predicate IsRequest(j: Json) {
    ParseOp(j) == Ok(REQUEST)
  }

  /** On such a connection a REQUEST the established client stamped is forwarded to the core when it arrives. */
  lemma StampedRequestsAreForwarded(steps: seq<Step>, version: string,
                                    coreThrows: bool, write: Write, errorWrite: Write)
    requires var w := Run(steps, version); w.toAdapter != [] && IsRequest(w.toAdapter[0]) && !w.early
    ensures var w := Run(steps, version);
            var events := MessageEvents(w.adapter, Some(w.toAdapter[0]), coreThrows, write, errorWrite);
            events[0] == Forwarded(REQUEST, w.adapter.sid) && (|events| == 1 <==> !coreThrows)
  {
    RunKeepsInv(steps, version);
    var w := Run(steps, version);
    var j := w.toAdapter[0];
    assert FromClient(w, j);
    OtherOps(j);
    var id: uint32, name :| j == RequestMessage(w.adapter.sid, id, name);
    RequestDispatch(w.adapter, id, name, write);
  }

  lemma OtherOps(j: Json)
    ensures (exists seed: uint32, masks :: j == IdentifyMessage(seed, masks)) ==> !IsRequest(j)
    ensures (exists sid, masks :: j == ReidentifyMessage(sid, masks)) ==> !IsRequest(j)
  {
  }

  // Every message handled before the adapter notices the connection can break the agreement.

  /** The client takes `n` messages as IDENTIFIEDs. */
  function Takes(n: nat): (steps: seq<Step>)
    ensures |steps| == n
  {
    seq(n, i => ClientTakesIdentified)
  }

  lemma TakesOne(w: World, version: string)
    requires w.toClient != [] && w.client.helloAccepted
    ensures var v := Next(w, ClientTakesIdentified, version);
            && v == w.(client := v.client, toClient := w.toClient[1..], established := v.established)
            && v.client.helloAccepted
            && (v.established <==> w.established || IdentifiedSid(w.toClient[0]).Some?)
  {
  }

  /** Taking all that is under way establishes the client if one of the messages is an IDENTIFIED. */
  lemma {:induction false} TakesEstablish(steps: seq<Step>, version: string, n: nat)
    requires var w := Run(steps, version); n <= |w.toClient| && w.client.helloAccepted
    ensures var w, v := Run(steps, version), Run(steps + Takes(n), version);
            && v == w.(client := v.client, toClient := w.toClient[n..], established := v.established)
            && v.client.helloAccepted
            && (v.established <==> w.established || exists i :: 0 <= i < n && IdentifiedSid(w.toClient[i]).Some?)
  {
    hide Run, Next, IdentifiedSid;
    if n == 0 {
      assert steps + Takes(0) == steps;
    } else {
      TakesEstablish(steps, version, n - 1);
      assert steps + Takes(n) == steps + Takes(n - 1) + [ClientTakesIdentified];
      RunExtends(steps + Takes(n - 1), ClientTakesIdentified, version);
      TakesOne(Run(steps + Takes(n - 1), version), version);
    }
  }

  /** Handling a message early leaves the client established or with an IDENTIFIED on its way. */
  lemma EarlyAnswer(w: World, version: string)
    requires Inv(w) && Awaiting(w) && w.toAdapter != []
    ensures var v := Next(w, AdapterReceives(false, Wrote, Wrote), version);
            && v.early && Awaiting(v) && v.client == w.client && v.client.helloAccepted
            && (v.established || exists i :: 0 <= i < |v.toClient| && IdentifiedSid(v.toClient[i]).Some?)
  {
    var s := AdapterReceives(false, Wrote, Wrote);
    var v := Next(w, s, version);
    var j := w.toAdapter[0];
    assert FromClient(w, j);
    ReceiveKeepsInv(w, s, version);
    MessageEffect(w.adapter, Some(j), false, Wrote, Wrote);
    if !w.established {
      AnsweredWithIdentified(w, j, version);
      var i := |v.toClient| - 1;
      assert v.toClient[i] == IdentifiedMessage(v.adapter.sid);
      ReplyShapes(version, v.adapter.sid, TriedHello(Wrote));
    }
  }

  lemma AnsweredWithIdentified(w: World, j: Json, version: string)
    requires FromClient(w, j) && !w.established
    ensures var events := MessageEvents(w.adapter, Some(j), false, Wrote, Wrote);
            Replies(events, version) == [IdentifiedMessage(AfterMessage(w.adapter, Some(j)).sid)]
  {
    if seed: uint32, masks :| j == IdentifyMessage(seed, masks) {
      IdentifyDispatch(w.adapter, seed, masks, Wrote);
    } else {
      var sid, masks :| j == ReidentifyMessage(sid, masks);
      ReidentifyDispatch(w.adapter, sid, masks, Wrote);
    }
    hide Dispatch;
    var event := TriedIdentified(AfterMessage(w.adapter, Some(j)).sid, Wrote);
    assert MessageEvents(w.adapter, Some(j), false, Wrote, Wrote) == [event];
    assert Replies([event], version) == Arriving(event, version) + Replies([], version);
  }

  /**
   From every run that has a message on the way to an adapter that has not noticed the connection, handling it now
   and taking the answers leads, at the next poll, to an established client without a session at the other end.
   */
  lemma EarlyHandlingBreaksAgreement(steps: seq<Step>, version: string) returns (more: seq<Step>)
    requires Awaiting(Run(steps, version)) && Run(steps, version).toAdapter != []
    ensures Staying(more)
    ensures var v := Run(steps + more, version); v.early && v.established && !v.adapter.identified
  {
    hide Run, Next, Inv;
    var s := AdapterReceives(false, Wrote, Wrote);
    RunKeepsInv(steps, version);
    RunExtends(steps, s, version);
    EarlyAnswer(Run(steps, version), version);
    var u := Run(steps + [s], version);
    var n := |u.toClient|;
    TakesEstablish(steps + [s], version, n);
    var taken := steps + [s] + Takes(n);
    RunExtends(taken, Poll(Wrote), version);
    NoticingDropsSession(Run(taken, version), version);
    more := [s] + Takes(n) + [Poll(Wrote)];
    assert steps + more == taken + [Poll(Wrote)];
  }

  /** Steps that stay on the connection. */
  ghost predicate Staying(steps: seq<Step>) {
    forall s | s in steps :: !s.Connect? && !s.Disconnect?
  }

  /** A client without a session id has nothing to send before HELLO, so nothing of the connection is handled early. */
  lemma {:induction false} NothingEarly(steps: seq<Step>, more: seq<Step>, version: string)
    requires var w := Run(steps, version); Awaiting(w) && !w.early && w.client.sid == ""
    requires Staying(more)
    ensures var v := Run(steps + more, version); !v.early && (Awaiting(v) ==> v.client.sid == "")
  {
    if more == [] {
      assert steps + more == steps;
    } else {
      var before, s := more[..|more| - 1], more[|more| - 1];
      assert steps + more == steps + before + [s];
      NothingEarly(steps, before, version);
      RunKeepsInv(steps + before, version);
      RunExtends(steps + before, s, version);
      StaysUnnoticed(Run(steps + before, version), s, version);
    }
  }

  lemma StaysUnnoticed(w: World, s: Step, version: string)
    requires Inv(w) && !w.early && (Awaiting(w) ==> w.client.sid == "") && !s.Connect? && !s.Disconnect?
    ensures var v := Next(w, s, version); !v.early && (Awaiting(v) ==> v.client.sid == "")
  {
  }

  /**
   Before the adapter notices a connection, agreement on it is guaranteed if and only if the client comes without a
   session id: one that kept its id can always re-identify too early.
   */
  lemma AgreementGuaranteedIff(steps: seq<Step>, version: string)
    requires Awaiting(Run(steps, version)) && !Run(steps, version).early
    ensures Run(steps, version).client.sid == "" <==>
            forall more | Staying(more) && Run(steps + more, version).established ::
              SameSession(Run(steps + more, version))
  {
    var w := Run(steps, version);
    if w.client.sid == "" {
      forall more | Staying(more) && Run(steps + more, version).established
        ensures SameSession(Run(steps + more, version))
      {
        NothingEarly(steps, more, version);
        EstablishedAgree(steps + more, version);
      }
    } else {
      var more := KeptSessionCanBreak(steps, version);
      assert Staying(more);
    }
  }

  /** From every run in which a client with a session id waits to be noticed, some continuation breaks the agreement. */
  lemma KeptSessionCanBreak(steps: seq<Step>, version: string) returns (more: seq<Step>)
    requires Awaiting(Run(steps, version)) && Run(steps, version).client.sid != ""
    ensures Staying(more)
    ensures var v := Run(steps + more, version); v.established && !v.adapter.identified
  {
    hide Run;
    if Run(steps, version).toAdapter != [] {
      more := EarlyHandlingBreaksAgreement(steps, version);
      return;
    }
    var asks := ClientReidentifies("");
    RunExtends(steps, asks, version);
    var rest := EarlyHandlingBreaksAgreement(steps + [asks], version);
    more := [asks] + rest;
    assert steps + more == steps + [asks] + rest;
  }

  lemma NoticingDropsSession(w: World, version: string)
    requires Awaiting(w)
    ensures var v := Next(w, Poll(Wrote), version);
            !v.adapter.identified && v.established == w.established && v.early == w.early
  {
  }

  // Runs that reach these situations.

  /** On every first connection, for every seed, five steps establish the client under the id made from its seed. */
  lemma HandshakeCompletes(generation: nat, seed: uint32, masks: string, version: string) returns (steps: seq<Step>)
    requires generation != 0
    ensures var w := Run(steps, version);
            && w.established && !w.early && SameSession(w) && w.toClient == [] && w.toAdapter == []
            && w.connected && w.generation == generation == w.adapter.activeGeneration
            && w.client.sid == SessionIds.SessionId(seed, 3)
  {
    hide Run;
    var connected := FirstPoll(generation, version);
    var one := connected + [ClientTakesHello(seed, masks)];
    var two := one + [AdapterReceives(false, Wrote, Wrote)];
    steps := two + [ClientTakesIdentified];
    RunExtends(connected, ClientTakesHello(seed, masks), version);
    RunExtends(one, AdapterReceives(false, Wrote, Wrote), version);
    RunExtends(two, ClientTakesIdentified, version);
    TakesHello(Run(connected, version), seed, masks, version);
    GetsAnswer(Run(one, version), seed, masks, version);
    TakesAnswer(Run(two, version), version);
  }

  lemma FirstPoll(generation: nat, version: string) returns (steps: seq<Step>)
    requires generation != 0
    ensures var w := Run(steps, version);
            && w.connected && w.generation == generation == w.adapter.activeGeneration
            && !w.early && !w.established && !w.adapter.identified && w.adapter.nextSessionId == 3
            && w.toClient == [HelloMessage(version)] && w.toAdapter == []
  {
    hide Run, Next, Awaiting, HelloMessage, SessionIds.SessionId;
    var none: seq<Step> := [];
    NothingRun(version);
    RunExtends(none, Connect(generation, true), version);
    FirstConnection(generation, version);
    var one := none + [Connect(generation, true)];
    RunExtends(one, Poll(Wrote), version);
    steps := one + [Poll(Wrote)];
    Notices(Run(one, version), version);
  }

  lemma NothingRun(version: string)
    ensures Run([], version) == START
  {
  }

  lemma FirstConnection(generation: nat, version: string)
    requires generation != 0
    ensures var w := Next(START, Connect(generation, true), version);
            && w == START.(connected := true, generation := generation) && Awaiting(w)
  {
    hide SessionIds.SessionId;
  }

  lemma Notices(w: World, version: string)
    requires Awaiting(w) && w.connected && w.toClient == []
    ensures var v := Next(w, Poll(Wrote), version);
            && v == w.(adapter := Activate(w.adapter, w.generation).(helloSent := true),
                       toClient := [HelloMessage(version)])
  {
    var sid := Activate(w.adapter, w.generation).sid;
    var events := PollEvents(w.adapter, w.connected, w.generation, Wrote);
    assert events == [Activated(sid), TriedHello(Wrote)];
    assert events[1..] == [TriedHello(Wrote)];
    assert Replies(events, version) == Arriving(events[0], version) + Replies(events[1..], version);
    assert Replies(events[1..], version) == Arriving(TriedHello(Wrote), version) + Replies([], version);
  }

  lemma TakesHello(w: World, seed: uint32, masks: string, version: string)
    requires w.toClient == [HelloMessage(version)] && w.toAdapter == []
    ensures var v := Next(w, ClientTakesHello(seed, masks), version);
            && v == w.(client := v.client, toClient := [], toAdapter := [IdentifyMessage(seed, masks)])
            && v.client.helloAccepted
  {
  }

  lemma GetsAnswer(w: World, seed: uint32, masks: string, version: string)
    requires w.toClient == [] && w.toAdapter == [IdentifyMessage(seed, masks)] && !Awaiting(w) && !w.adapter.identified
    ensures var v := Next(w, AdapterReceives(false, Wrote, Wrote), version);
            && v == w.(adapter := v.adapter, toAdapter := [], toClient := [IdentifiedMessage(v.adapter.sid)])
            && v.adapter.identified && v.adapter.activeGeneration == w.adapter.activeGeneration
            && v.adapter.sid == SessionIds.SessionId(seed, w.adapter.nextSessionId)
  {
    IdentifyDispatch(w.adapter, seed, masks, Wrote);
    JsonRpcRuns.MessageKeepsConnection(w.adapter, Some(w.toAdapter[0]));
    hide Dispatch;
    var event := TriedIdentified(AfterMessage(w.adapter, Some(w.toAdapter[0])).sid, Wrote);
    assert MessageEvents(w.adapter, Some(w.toAdapter[0]), false, Wrote, Wrote) == [event];
    assert Replies([event], version) == Arriving(event, version) + Replies([], version);
  }

  lemma TakesAnswer(w: World, version: string)
    requires w.toClient == [IdentifiedMessage(w.adapter.sid)] && w.adapter.sid != "" && w.client.helloAccepted
    ensures var v := Next(w, ClientTakesIdentified, version);
            v == w.(client := w.client.(sid := w.adapter.sid), toClient := [], established := true)
  {
    ReplyShapes(version, w.adapter.sid, TriedHello(Wrote));
  }

  /** An established client that re-identifies gets its own session back. */
  lemma Reidentifies(steps: seq<Step>, masks: string, version: string)
    requires var w := Run(steps, version); w.established && !w.early && w.toClient == [] && w.toAdapter == []
    ensures var more := [ClientReidentifies(masks), AdapterReceives(false, Wrote, Wrote), ClientTakesIdentified];
            Run(steps + more, version) == Run(steps, version)
  {
    var one := steps + [ClientReidentifies(masks)];
    var two := one + [AdapterReceives(false, Wrote, Wrote)];
    var w := Run(steps, version);
    RunKeepsInv(steps, version);
    RunExtends(steps, ClientReidentifies(masks), version);
    RunExtends(one, AdapterReceives(false, Wrote, Wrote), version);
    RunExtends(two, ClientTakesIdentified, version);
    var more := [ClientReidentifies(masks), AdapterReceives(false, Wrote, Wrote), ClientTakesIdentified];
    assert steps + more == two + [ClientTakesIdentified];
    hide Run;
    assert !Awaiting(w) && w.connected && w.client.sid != "" && w.client.helloAccepted;
    var asked := w.(toAdapter := [ReidentifyMessage(w.client.sid, masks)]);
    assert Run(one, version) == asked;
    GetsItsOwn(asked, masks, version);
    TakesAnswer(Run(two, version), version);
  }

  lemma GetsItsOwn(w: World, masks: string, version: string)
    requires w.adapter.identified && !Awaiting(w) && w.toClient == []
    requires w.toAdapter == [ReidentifyMessage(w.client.sid, masks)]
    ensures Next(w, AdapterReceives(false, Wrote, Wrote), version) ==
            w.(toAdapter := [], toClient := [IdentifiedMessage(w.adapter.sid)])
  {
    ReidentifyDispatch(w.adapter, w.client.sid, masks, Wrote);
    hide Dispatch;
    var event := TriedIdentified(w.adapter.sid, Wrote);
    assert AfterMessage(w.adapter, Some(w.toAdapter[0])) == w.adapter by {
      ReidentifyDispatch(w.adapter, w.client.sid, masks, Wrote);
    }
    assert MessageEvents(w.adapter, Some(w.toAdapter[0]), false, Wrote, Wrote) == [event];
    assert Replies([event], version) == Arriving(event, version) + Replies([], version);
  }

  /** A client that keeps its session over a reconnect can be left established with an adapter that has none. */
  lemma KeptSessionBreaks(seed: uint32, masks: string, version: string) returns (steps: seq<Step>)
    ensures var w := Run(steps, version); w.kept && w.established && !w.adapter.identified
  {
    hide Run;
    var first := HandshakeCompletes(1, seed, masks, version);
    var again := first + [Connect(2, false)];
    var asked := again + [ClientReidentifies(masks)];
    RunExtends(first, Connect(2, false), version);
    RunExtends(again, ClientReidentifies(masks), version);
    var more := EarlyHandlingBreaksAgreement(asked, version);
    steps := asked + more;
    RunKeepsInv(steps, version);
  }
}
