/**
 Two CONTROL sessions over a network that may lose, duplicate and reorder frames: a frame once sent can be
 delivered at any later time, any number of times or never. Only the client opens sessions, and it never
 reuses an OPEN id.
 */
module ControlNetwork {
  import opened AxtpTypes
  import opened ControlSession
  import Codec = ControlTlvCodec
  import Core = AxtpCore

  /** What a CONTROL frame carries on the wire. */
  datatype Message = Message(opcode: ControlOpcode, controlId: uint16, statusCode: ErrorCode, body: Bytes)

  function Transmit(p: ControlPayload): Message {
    var body := if p.body != [] then p.body
                else if p.opcode == OPEN then Codec.Encode(p.tlv, false)
                else if p.opcode == ACCEPT then Codec.Encode(p.tlv, true)
                else [];
    Message(p.opcode, p.controlId, p.statusCode, body)
  }

  function Arrive(m: Message): ControlPayload {
    ControlPayload(m.opcode, m.controlId, m.statusCode, Codec.Decode(m.body), m.body)
  }

  datatype Handshake = Handshake(id: uint16, heartbeatMs: uint32)

  /** Both sessions, every frame ever sent each way, and the history of handshakes begun and answered. */
  datatype World = World(
    client: Session,
    server: Session,
    toServer: set<Message>,
    toClient: set<Message>,
    begun: seq<Handshake>,
    answered: set<uint16>)

  datatype Step =
    | Configure(heartbeatMs: uint32)
    | Open(id: uint16)
    | DeliverToServer(m: Message)
    | DeliverToClient(m: Message)
    | ClientSends(m: Message)
    | ServerSends(m: Message)

  const START: World := World(INITIAL, INITIAL, {}, {}, [], {})

  /** What the network and the two ends can do: deliver what was sent, and send what the sessions do not build. */
  predicate Feasible(w: World, s: Step) {
    match s
    case Configure(_) => true
    case Open(_) => true
    case DeliverToServer(m) => m in w.toServer
    case DeliverToClient(m) => m in w.toClient
    case ClientSends(m) => m.opcode != OPEN && m.opcode != ACCEPT
    case ServerSends(m) => m.opcode != OPEN && m.opcode != ACCEPT
  }

  /** A feasible step that does not reuse an OPEN id. */
  predicate Enabled(w: World, s: Step) {
    Feasible(w, s) && (s.Open? ==> forall h | h in w.begun :: h.id != s.id)
  }

  function Sent(reply: Option<ControlPayload>): set<Message> {
    if reply.Some? then {Transmit(reply.value)} else {}
  }

  function Next(w: World, s: Step): World {
    match s
    case Configure(ms) => w.(client := w.client.(requestedHeartbeatMs := ClampHeartbeat(ms)))
    case Open(id) =>
      var ms := w.client.requestedHeartbeatMs;
      w.(client := AfterOpen(w.client, id), toServer := w.toServer + {Transmit(OpenPayload(id, ms))},
         begun := w.begun + [Handshake(id, ms)])
    case DeliverToServer(m) =>
      var server := AfterHandle(w.server, Arrive(m));
      w.(server := server, toClient := w.toClient + Sent(Reply(Arrive(m))),
         answered := if m.opcode == OPEN && server.open then w.answered + {m.controlId} else w.answered)
    case DeliverToClient(m) =>
      w.(client := AfterHandle(w.client, Arrive(m)), toServer := w.toServer + Sent(Reply(Arrive(m))))
    case ClientSends(m) => w.(toServer := w.toServer + {m})
    case ServerSends(m) => w.(toClient := w.toClient + {m})
  }

  function Run(steps: seq<Step>): World {
    if steps == [] then START else Next(Run(steps[..|steps| - 1]), steps[|steps| - 1])
  }

  predicate Possible(steps: seq<Step>) {
    steps == [] || (Possible(steps[..|steps| - 1]) && Enabled(Run(steps[..|steps| - 1]), steps[|steps| - 1]))
  }

  // What the two frames of a handshake say once they have crossed the wire.

  function OpenMessage(h: Handshake): Message {
    Transmit(OpenPayload(h.id, h.heartbeatMs))
  }

  function AcceptMessage(h: Handshake): Message {
    Transmit(AcceptPayload(h.id, OpenOptions(h.heartbeatMs)))
  }

  function Granted(h: Handshake): ControlTlvOptions {
    Codec.DefaultsForAccept(OpenOptions(h.heartbeatMs))
  }

  /** OPEN arrives as it was built, and the ACCEPT that answers it echoes the requested interval. */
  lemma HandshakeFrames(h: Handshake)
    ensures Arrive(OpenMessage(h)).tlv == OpenOptions(h.heartbeatMs)
    ensures Arrive(AcceptMessage(h)).tlv == Granted(h)
    ensures Granted(h).valid && Granted(h).hasHeartbeatIntervalMs && Granted(h).heartbeatIntervalMs == h.heartbeatMs
    ensures AcceptMessage(h).statusCode == SUCCESS
  {
    Codec.RoundTrip(OpenOptions(h.heartbeatMs), false);
    Codec.RoundTrip(Granted(h), true);
  }

  // The invariant of every run.

  ghost predicate FromClient(w: World, m: Message) {
    m.opcode != ACCEPT && (m.opcode == OPEN ==> exists h :: h in w.begun && m == OpenMessage(h))
  }

  ghost predicate FromServer(w: World, m: Message) {
    m.opcode != OPEN && (m.opcode == ACCEPT ==> exists h :: h in w.begun && h.id in w.answered && m == AcceptMessage(h))
  }

  ghost predicate FreshIds(begun: seq<Handshake>) {
    forall i, j | 0 <= i < j < |begun| :: begun[i].id != begun[j].id
  }

  function Latest(w: World): Handshake
    requires w.begun != []
  {
    w.begun[|w.begun| - 1]
  }

  ghost predicate ClientSafe(w: World) {
    var c := w.client;
    && (c.pendingOpenId.Some? ==> !c.open && w.begun != [] && c.pendingOpenId.value == Latest(w).id)
    && (c.open ==> w.begun != [] && Latest(w).id in w.answered && c.accepted == Granted(Latest(w)))
    && (!c.open ==> c.accepted == DEFAULT_OPTIONS)
  }

  ghost predicate Intervals(w: World) {
    && Allowed(w.client.requestedHeartbeatMs)
    && forall h | h in w.begun :: Allowed(h.heartbeatMs)
  }

  ghost predicate Inv(w: World) {
    && FreshIds(w.begun)
    && (forall m | m in w.toServer :: FromClient(w, m))
    && (forall m | m in w.toClient :: FromServer(w, m))
    && ClientSafe(w)
    && Intervals(w)
  }

  lemma SameIdSameHandshake(begun: seq<Handshake>, g: Handshake, h: Handshake)
    requires FreshIds(begun) && g in begun && h in begun && g.id == h.id
    ensures g == h
  {
  }

  lemma OpenKeepsInv(w: World, id: uint16)
    requires Inv(w) && Enabled(w, Open(id))
    ensures Inv(Next(w, Open(id)))
  {
    var v := Next(w, Open(id));
    var h := Handshake(id, w.client.requestedHeartbeatMs);
    assert v.begun == w.begun + [h] && h in v.begun;
    forall m | m in v.toServer ensures FromClient(v, m) {
      if m in w.toServer { assert FromClient(w, m); }
    }
    forall m | m in v.toClient ensures FromServer(v, m) {
      assert FromServer(w, m);
    }
  }

  lemma ReplyOpcodes(p: ControlPayload)
    ensures Reply(p).Some? ==> Reply(p).value.opcode != OPEN && (Reply(p).value.opcode == ACCEPT <==> p.opcode == OPEN)
  {
  }

  /** The server changes nothing of the client's, and every frame it adds is one a server may send. */
  lemma DeliverToServerEffect(w: World, m: Message)
    requires FromClient(w, m)
    ensures var v := Next(w, DeliverToServer(m));
            && v.client == w.client && v.begun == w.begun && v.toServer == w.toServer
            && w.answered <= v.answered && w.toClient <= v.toClient
            && forall n | n in v.toClient && n !in w.toClient :: FromServer(v, n)
  {
    var v := Next(w, DeliverToServer(m));
    ReplyOpcodes(Arrive(m));
    if m.opcode == OPEN {
      var h :| h in w.begun && m == OpenMessage(h);
      HandshakeFrames(h);
      assert v.answered == w.answered + {h.id};
      assert FromServer(v, AcceptMessage(h));
    }
  }

  lemma DeliverToServerKeepsInv(w: World, m: Message)
    requires Inv(w) && m in w.toServer
    ensures Inv(Next(w, DeliverToServer(m)))
  {
    var v := Next(w, DeliverToServer(m));
    assert FromClient(w, m);
    DeliverToServerEffect(w, m);
    hide Next, Arrive, OpenMessage, AcceptMessage, Granted;
    forall n | n in v.toClient ensures FromServer(v, n) {
      if n in w.toClient { assert FromServer(w, n); }
    }
    assert forall n | n in v.toServer :: FromClient(w, n);
  }

  /** Only the ACCEPT of the latest OPEN can open the client, and what it brings is what the server granted. */
  lemma OnlyLatestCompletes(w: World, m: Message)
    requires Inv(w) && m in w.toClient && Completes(w.client, Arrive(m))
    ensures w.begun != [] && m == AcceptMessage(Latest(w))
    ensures Latest(w).id in w.answered && Arrive(m).tlv == Granted(Latest(w))
  {
    assert FromServer(w, m);
    var h :| h in w.begun && h.id in w.answered && m == AcceptMessage(h);
    SameIdSameHandshake(w.begun, h, Latest(w));
    HandshakeFrames(h);
  }

  lemma DeliverToClientKeepsInv(w: World, m: Message)
    requires Inv(w) && m in w.toClient
    ensures Inv(Next(w, DeliverToClient(m)))
  {
    var v := Next(w, DeliverToClient(m));
    assert FromServer(w, m);
    ReplyOpcodes(Arrive(m));
    if Completes(w.client, Arrive(m)) {
      OnlyLatestCompletes(w, m);
    }
    forall n | n in v.toServer ensures FromClient(v, n) {
      if n in w.toServer { assert FromClient(w, n); }
    }
    assert forall n | n in v.toClient :: FromServer(w, n);
  }

  lemma StepKeepsInv(w: World, s: Step)
    requires Inv(w) && Enabled(w, s)
    ensures Inv(Next(w, s))
  {
    match s
    case Open(id) => OpenKeepsInv(w, id);
    case DeliverToServer(m) => DeliverToServerKeepsInv(w, m);
    case DeliverToClient(m) => DeliverToClientKeepsInv(w, m);
    case _ =>
      var v := Next(w, s);
      assert forall n | n in w.toServer :: FromClient(w, n) && FromClient(v, n);
      assert forall n | n in w.toClient :: FromServer(w, n) && FromServer(v, n);
  }

  lemma {:induction false} RunKeepsInv(steps: seq<Step>)
    requires Possible(steps)
    ensures Inv(Run(steps))
  {
    if steps != [] {
      RunKeepsInv(steps[..|steps| - 1]);
      StepKeepsInv(Run(steps[..|steps| - 1]), steps[|steps| - 1]);
    }
  }

  /**
   Safety of the handshake: whenever the client session is open, the server has accepted the client's latest
   OPEN, the client holds the options of that very ACCEPT, and the interval it will probe at is the one it
   asked for in that OPEN.
   */
  lemma OpenClientAgreesWithServer(steps: seq<Step>)
    requires Possible(steps) && Run(steps).client.open
    ensures var w := Run(steps);
            && w.begun != []
            && Latest(w).id in w.answered
            && w.client.accepted == Arrive(AcceptMessage(Latest(w))).tlv
            && w.client.NegotiatedHeartbeatMs() == Some(Latest(w).heartbeatMs)
  {
    RunKeepsInv(steps);
    HandshakeFrames(Latest(Run(steps)));
  }

  // What the server answers to the other opcodes.

  /** The opcode that answers a message of the client. */
  function Answer(opcode: ControlOpcode): Option<ControlOpcode> {
    if opcode == OPEN then Some(ACCEPT)
    else if opcode == HEARTBEAT then Some(HEARTBEAT_ACK)
    else if opcode == PING then Some(PONG)
    else if opcode == CLOSE then Some(CLOSE_ACK)
    else None
  }

  /**
   In any world, delivering a message to the server adds exactly its answer, under the same id, and nothing for an
   opcode that has none. What arrives is the notice that a client waiting for that opcode and id takes; but for OPEN it
   says success. Only OPEN and CLOSE change whether the server is open.
   */
  lemma ServerAnswers(w: World, m: Message)
    ensures var v := Next(w, DeliverToServer(m));
            var answer := Answer(m.opcode);
            && v.client == w.client && v.toServer == w.toServer && v.server.lastOpcode == m.opcode
            && (m.opcode != OPEN ==> v.server.open == (w.server.open && m.opcode != CLOSE) || m.opcode == ACCEPT)
            && (answer.None? ==> v.toClient == w.toClient)
            && (answer.Some? ==> exists n ::
                  && v.toClient == w.toClient + {n} && n.opcode == answer.value && n.controlId == m.controlId
                  && Core.IsNotice(Arrive(n), answer.value, m.controlId)
                  && (m.opcode != OPEN ==> n.statusCode == SUCCESS && Arrive(n).statusCode == SUCCESS))
  {
    var reply := Reply(Arrive(m));
    if reply.Some? {
      var n := Transmit(reply.value);
      assert Next(w, DeliverToServer(m)).toClient == w.toClient + {n};
    }
  }

  /** The client answers the same opcodes in the same way; an answer to an OPEN only a server is sent. */
  lemma ClientAnswers(w: World, m: Message)
    requires m.opcode != OPEN
    ensures var v := Next(w, DeliverToClient(m));
            var answer := Answer(m.opcode);
            && v.server == w.server && v.toClient == w.toClient && v.client.lastOpcode == m.opcode
            && (answer.None? ==> v.toServer == w.toServer)
            && (answer.Some? ==> exists n ::
                  && v.toServer == w.toServer + {n} && n.opcode == answer.value && n.controlId == m.controlId
                  && n.statusCode == SUCCESS && n.body == [])
  {
    var reply := Reply(Arrive(m));
    if reply.Some? {
      var n := Transmit(reply.value);
      assert Next(w, DeliverToClient(m)).toServer == w.toServer + {n};
    }
  }

  /** A body travels as it is; an OPEN or ACCEPT without one travels as its options, and anything else stays empty. */
  lemma BodiesTravel(p: ControlPayload)
    ensures p.body != [] ==> Transmit(p).body == p.body
    ensures p.body == [] && p.opcode == 1 ==> Transmit(p).body == Codec.Encode(p.tlv, false)
    ensures p.body == [] && p.opcode == 2 ==> Transmit(p).body == Codec.Encode(p.tlv, true)
    ensures p.body == [] && p.opcode > 2 ==> Transmit(p).body == []
    ensures Transmit(p).opcode == p.opcode && Transmit(p).controlId == p.controlId
    ensures Transmit(p).statusCode == p.statusCode
  {
  }

  /** An offer without JSON, or one that could not be read, is refused, and the server is not open after it. */
  lemma OfferDecides(w: World, m: Message)
    requires m.opcode == OPEN
    ensures var v := Next(w, DeliverToServer(m));
            var offer := Codec.Decode(m.body);
            var json := !offer.hasSupportedRpcEncodings || offer.supportedRpcEncodings % 2 == 1;
            && (v.server.open <==> offer.valid && json)
            && exists n ::
                 && v.toClient == w.toClient + {n} && n.opcode == ACCEPT && n.controlId == m.controlId
                 && n.statusCode == if !offer.valid then CONTROL_PAYLOAD_INVALID
                                    else if !json then CONTROL_NEGOTIATION_FAILED else SUCCESS
  {
    var n := Transmit(Reply(Arrive(m)).value);
    assert Next(w, DeliverToServer(m)).toClient == w.toClient + {n};
  }

  /** A heartbeat that crosses the network both ways ends the wait of a client for exactly its acknowledgement. */
  lemma HeartbeatComesBack(w: World, id: uint16)
    ensures var beat := Message(HEARTBEAT, id, SUCCESS, []);
            var v := Next(Next(w, ClientSends(beat)), DeliverToServer(beat));
            && Enabled(w, ClientSends(beat)) && Enabled(Next(w, ClientSends(beat)), DeliverToServer(beat))
            && exists n :: n in v.toClient && Core.IsNotice(Arrive(n), HEARTBEAT_ACK, id) && n.statusCode == SUCCESS
  {
    var beat := Message(HEARTBEAT, id, SUCCESS, []);
    ServerAnswers(Next(w, ClientSends(beat)), beat);
  }

  lemma RunExtends(before: seq<Step>, s: Step)
    requires Possible(before) && Enabled(Run(before), s)
    ensures Possible(before + [s]) && Run(before + [s]) == Next(Run(before), s)
  {
    assert (before + [s])[..|before|] == before;
  }

  // The same safety read off the steps of the run.

  predicate Closes(s: Step) {
    s.DeliverToClient? && s.m.opcode == CLOSE
  }

  /** Step `j` is the latest OPEN, and the client has been told of no CLOSE since. */
  ghost predicate OpenedAt(steps: seq<Step>, j: nat) {
    && j < |steps| && steps[j].Open?
    && forall i | j < i < |steps| :: !steps[i].Open? && !Closes(steps[i])
  }

  /** After that OPEN, step `k` delivered an ACCEPT with its id. */
  ghost predicate AcceptedAt(steps: seq<Step>, j: nat, k: nat) {
    && OpenedAt(steps, j) && j < k < |steps|
    && steps[k].DeliverToClient? && steps[k].m.opcode == ACCEPT && steps[k].m.controlId == steps[j].id
  }

  lemma {:induction false} Prefix(steps: seq<Step>, n: nat)
    requires Possible(steps) && n <= |steps|
    ensures Possible(steps[..n])
    ensures n < |steps| ==> Enabled(Run(steps[..n]), steps[n]) && Run(steps[..n + 1]) == Next(Run(steps[..n]), steps[n])
  {
    if n < |steps| {
      assert steps[..n + 1][..n] == steps[..n];
      var before := steps[..|steps| - 1];
      if n < |before| {
        Prefix(before, n);
        assert before[..n] == steps[..n];
      } else {
        assert steps[..n + 1] == steps;
      }
    } else {
      assert steps[..n] == steps;
    }
  }

  /** How one step of a safe world changes what the client waits for and whether it is open. */
  lemma ClientEffect(w: World, s: Step)
    requires Inv(w) && Enabled(w, s)
    ensures var c, d := w.client, Next(w, s).client;
            if s.Open? then d.pendingOpenId == Some(s.id) && !d.open
            else if Closes(s) then d.pendingOpenId == None && !d.open
            else if s.DeliverToClient? && s.m.opcode == ACCEPT && c.pendingOpenId == Some(s.m.controlId)
            then d.pendingOpenId == None && d.open
            else d.pendingOpenId == c.pendingOpenId && d.open == c.open
  {
    if s.DeliverToClient? && s.m.opcode == ACCEPT {
      assert FromServer(w, s.m);
      var h :| h in w.begun && s.m == AcceptMessage(h);
      HandshakeFrames(h);
    } else if s.DeliverToClient? {
      assert FromServer(w, s.m);
    }
  }

  lemma OpenedAtExtends(before: seq<Step>, s: Step, j: nat)
    ensures OpenedAt(before + [s], j) <==>
            if s.Open? then j == |before| else OpenedAt(before, j) && !Closes(s)
  {
    var steps := before + [s];
    assert forall i | 0 <= i < |before| :: steps[i] == before[i];
    if OpenedAt(steps, j) && j < |before| {
      assert !steps[|before|].Open? && !Closes(steps[|before|]);
    }
  }

  lemma AcceptedAtExtends(before: seq<Step>, s: Step, j: nat, k: nat)
    requires !s.Open? && !Closes(s)
    ensures AcceptedAt(before + [s], j, k) <==>
            || AcceptedAt(before, j, k)
            || (OpenedAt(before, j) && k == |before| && s.DeliverToClient? && s.m.opcode == ACCEPT &&
                s.m.controlId == before[j].id)
  {
    OpenedAtExtends(before, s, j);
  }

  /**
   The client's state after any run: `j` is the live OPEN (-1 if there is none), and `k` the delivery of its
   ACCEPT (-1 if there was none).
   */
  lemma {:induction false} ClientState(steps: seq<Step>) returns (j: int, k: int)
    requires Possible(steps)
    ensures j == -1 || (0 <= j && OpenedAt(steps, j))
    ensures j == -1 ==> forall i: nat :: !OpenedAt(steps, i)
    ensures k == -1 || (0 <= j && 0 <= k && AcceptedAt(steps, j, k))
    ensures k == -1 ==> forall i: nat :: j >= 0 ==> !AcceptedAt(steps, j, i)
    ensures Run(steps).client.pendingOpenId == if j >= 0 && k == -1 then Some(steps[j].id) else None
    ensures Run(steps).client.open <==> k >= 0
  {
    if steps == [] {
      return -1, -1;
    }
    var n := |steps| - 1;
    var before, s := steps[..n], steps[n];
    assert steps == before + [s];
    j, k := ClientState(before);
    RunKeepsInv(before);
    ClientEffect(Run(before), s);
    forall i: nat
      ensures OpenedAt(steps, i) <==> if s.Open? then i == n else OpenedAt(before, i) && !Closes(s)
    {
      OpenedAtExtends(before, s, i);
    }
    if s.Open? || Closes(s) {
      return if s.Open? then n else -1, -1;
    }
    if j >= 0 {
      forall i: nat
        ensures AcceptedAt(steps, j, i) <==> AcceptedAt(before, j, i) || (i == n && AcceptedAt(steps, j, n))
      {
        AcceptedAtExtends(before, s, j, i);
      }
      AcceptedAtExtends(before, s, j, n);
      k := if k == -1 && AcceptedAt(steps, j, n) then n else k;
    }
  }

  lemma {:induction false} OpenHasOrigin(steps: seq<Step>, m: Message) returns (j: nat)
    requires Possible(steps) && m in Run(steps).toServer && m.opcode == OPEN
    ensures j < |steps| && steps[j] == Open(m.controlId)
  {
    var n := |steps| - 1;
    if steps[n] == Open(m.controlId) {
      return n;
    }
    var w := Run(steps[..n]);
    if steps[n].DeliverToClient? {
      RunKeepsInv(steps[..n]);
      assert FromServer(w, steps[n].m);
      ReplyOpcodes(Arrive(steps[n].m));
    }
    j := OpenHasOrigin(steps[..n], m);
  }

  lemma {:induction false} AcceptHasOrigin(steps: seq<Step>, m: Message) returns (i: nat)
    requires Possible(steps) && m in Run(steps).toClient && m.opcode == ACCEPT
    ensures i < |steps| && steps[i].DeliverToServer? && steps[i].m.opcode == OPEN && steps[i].m.controlId == m.controlId
  {
    var n := |steps| - 1;
    var w := Run(steps[..n]);
    if steps[n].DeliverToServer? && m !in w.toClient {
      ReplyOpcodes(Arrive(steps[n].m));
      return n;
    }
    i := AcceptHasOrigin(steps[..n], m);
  }

  lemma {:induction false} BegunIds(steps: seq<Step>, j: nat)
    requires Possible(steps) && j < |steps| && steps[j].Open?
    ensures exists h :: h in Run(steps).begun && h.id == steps[j].id
  {
    var n := |steps| - 1;
    var w := Run(steps[..n]);
    if j < n {
      BegunIds(steps[..n], j);
      var h :| h in w.begun && h.id == steps[j].id;
      assert h in Run(steps).begun;
    } else {
      assert Handshake(steps[j].id, w.client.requestedHeartbeatMs) in Run(steps).begun;
    }
  }

  lemma OpenIdsDiffer(steps: seq<Step>, i: nat, j: nat)
    requires Possible(steps) && i < j < |steps| && steps[i].Open? && steps[j].Open?
    ensures steps[i].id != steps[j].id
  {
    Prefix(steps, j);
    BegunIds(steps[..j], i);
  }

  /**
   The client is open exactly when an ACCEPT for its latest OPEN has been delivered and no CLOSE has been
   delivered since that OPEN: a late ACCEPT of an older OPEN, or any ACCEPT after a CLOSE, never opens it.
   */
  lemma ClientOpenIff(steps: seq<Step>)
    requires Possible(steps)
    ensures Run(steps).client.open <==> exists j: nat, k: nat :: AcceptedAt(steps, j, k)
  {
    var j, k := ClientState(steps);
    if k >= 0 {
      assert AcceptedAt(steps, j, k);
    }
    forall i: nat, l: nat | AcceptedAt(steps, i, l)
      ensures i == j && k >= 0
    {
      assert OpenedAt(steps, i);
    }
  }

  /** An OPEN under way is answered with its ACCEPT when the server gets it. */
  lemma AnswerFrame(w: World, h: Handshake)
    ensures AcceptMessage(h) in Next(w, DeliverToServer(OpenMessage(h))).toClient
  {
    HandshakeFrames(h);
    assert Arrive(OpenMessage(h)).opcode == OPEN && Arrive(OpenMessage(h)).controlId == h.id;
  }

  lemma FirstOpen(h: Handshake)
    requires h.heartbeatMs == INITIAL.requestedHeartbeatMs
    ensures Possible([Open(h.id)]) && OpenMessage(h) in Run([Open(h.id)]).toServer
  {
    assert Possible([]) && Run([]) == START;
    assert [] + [Open(h.id)] == [Open(h.id)];
    RunExtends([], Open(h.id));
  }

  lemma AcceptFields(h: Handshake)
    ensures AcceptMessage(h).opcode == ACCEPT && AcceptMessage(h).controlId == h.id
  {
  }

  /** Three steps open a client: its OPEN, the server's handling of it, and the ACCEPT. */
  lemma HandshakeCompletes(id: uint16) returns (steps: seq<Step>)
    ensures |steps| == 3 && Possible(steps) && Run(steps).client.open
  {
    hide Run, Possible, OpenMessage, AcceptMessage, Next;
    var h := Handshake(id, INITIAL.requestedHeartbeatMs);
    var one := [Open(id)];
    var two := one + [DeliverToServer(OpenMessage(h))];
    steps := two + [DeliverToClient(AcceptMessage(h))];
    FirstOpen(h);
    RunExtends(one, DeliverToServer(OpenMessage(h)));
    AnswerFrame(Run(one), h);
    RunExtends(two, DeliverToClient(AcceptMessage(h)));
    AcceptFields(h);
    assert AcceptedAt(steps, 0, 2);
    ClientOpenIff(steps);
  }

  /** Between the OPEN and the ACCEPT that opened the client, the server handled that OPEN. */
  lemma ServerAnsweredInBetween(steps: seq<Step>, j: nat, k: nat)
    requires Possible(steps) && AcceptedAt(steps, j, k)
    ensures exists i ::
              j < i < k && steps[i].DeliverToServer? && steps[i].m.opcode == OPEN && steps[i].m.controlId == steps[j].id
  {
    Prefix(steps, k);
    var i := AcceptHasOrigin(steps[..k], steps[k].m);
    assert steps[..k][i] == steps[i];
    Prefix(steps, i);
    var o := OpenHasOrigin(steps[..i], steps[i].m);
    assert steps[..i][o] == steps[o];
    if o != j {
      OpenIdsDiffer(steps, if o < j then o else j, if o < j then j else o);
    }
  }

  // Where the OPEN ids come from: a 16-bit counter shared with heartbeats.

  function AllocatedId(first: uint16, n: nat): uint16 {
    (first + n) % 0x1_0000
  }

  /** Two draws give the same id exactly when the counter has gone round between them. */
  lemma AllocatedIdsRepeat(first: uint16, m: nat, n: nat)
    requires m < n
    ensures AllocatedId(first, m) == AllocatedId(first, n) <==> (n - m) % 0x1_0000 == 0
  {
  }

  /** An ACCEPT once sent stays on its way: every answered OPEN has one that can still be delivered. */
  lemma {:induction false} AnsweredWasSent(steps: seq<Step>, g: Handshake)
    requires Possible(steps) && g in Run(steps).begun && g.id in Run(steps).answered
    ensures AcceptMessage(g) in Run(steps).toClient
  {
    hide AcceptMessage, Transmit, OpenMessage, Arrive;
    var before, s := steps[..|steps| - 1], steps[|steps| - 1];
    var w := Run(before);
    RunKeepsInv(before);
    RunKeepsInv(steps);
    if g in w.begun && g.id in w.answered {
      AnsweredWasSent(before, g);
    } else if s.Open? {
      UnbegunIsUnanswered(before, s.id);
    } else {
      assert FromClient(w, s.m);
      var h :| h in w.begun && s.m == OpenMessage(h);
      OpenFields(h);
      SameIdSameHandshake(w.begun, g, h);
      AnswerFrame(w, h);
    }
  }

  lemma {:induction false} UnbegunIsUnanswered(steps: seq<Step>, id: uint16)
    requires Possible(steps) && forall h | h in Run(steps).begun :: h.id != id
    ensures id !in Run(steps).answered
  {
    if steps != [] {
      var before, s := steps[..|steps| - 1], steps[|steps| - 1];
      assert forall h | h in Run(before).begun :: h in Run(steps).begun;
      UnbegunIsUnanswered(before, id);
      if s.DeliverToServer? && s.m.opcode == OPEN {
        RunKeepsInv(before);
        assert FromClient(Run(before), s.m);
      }
    }
  }

  lemma OpenFields(h: Handshake)
    ensures OpenMessage(h).opcode == OPEN && OpenMessage(h).controlId == h.id && OpenMessage(h).statusCode == SUCCESS
  {
  }

  /** An OPEN once sent stays on its way. */
  lemma {:induction false} BegunWasSent(steps: seq<Step>, g: Handshake)
    requires g in Run(steps).begun
    ensures OpenMessage(g) in Run(steps).toServer
  {
    if steps != [] {
      var before := steps[..|steps| - 1];
      if g in Run(before).begun {
        BegunWasSent(before, g);
      }
    }
  }

  /** Delivering the OPEN of a handshake answers it. */
  lemma DeliveringAnswers(w: World, g: Handshake)
    ensures var v := Next(w, DeliverToServer(OpenMessage(g)));
            v.begun == w.begun && v.answered == w.answered + {g.id} && v.client == w.client
  {
    HandshakeFrames(g);
    OpenFields(g);
  }

  /**
   Fresh ids are needed after every run: an OPEN that reuses the id of any OPEN before it can be completed by an ACCEPT
   of that one. The client is then open with the old interval, and the server has not been sent the new OPEN.
   */
  lemma ReusedIdBreaks(before: seq<Step>, g: Handshake, ms: uint32) returns (steps: seq<Step>)
    requires Possible(before) && g in Run(before).begun && Allowed(ms) && ms != g.heartbeatMs
    ensures steps == before + [DeliverToServer(OpenMessage(g))] +
                     [Configure(ms), Open(g.id), DeliverToClient(AcceptMessage(g))]
    ensures forall i | |before| <= i < |steps| :: Feasible(Run(steps[..i]), steps[i])
    ensures var w := Run(steps);
            w.client.open && Latest(w) == Handshake(g.id, ms) && w.client.NegotiatedHeartbeatMs() == Some(g.heartbeatMs)
  {
    hide Run, Possible, AcceptMessage, OpenMessage, Next;
    var delivery := DeliverToServer(OpenMessage(g));
    BegunWasSent(before, g);
    RunExtends(before, delivery);
    DeliveringAnswers(Run(before), g);
    steps := AnsweredIdBreaks(before + [delivery], g, ms);
    assert steps[..|before|] == before && steps[|before|] == delivery;
  }

  /** For an OPEN that was answered already, the server need not hear anything more. */
  lemma AnsweredIdBreaks(before: seq<Step>, g: Handshake, ms: uint32) returns (steps: seq<Step>)
    requires Possible(before) && g in Run(before).begun && g.id in Run(before).answered
    requires Allowed(ms) && ms != g.heartbeatMs
    ensures steps == before + [Configure(ms), Open(g.id), DeliverToClient(AcceptMessage(g))]
    ensures forall i | |before| <= i < |steps| :: Feasible(Run(steps[..i]), steps[i])
    ensures var w := Run(steps);
            && w.client.open && w.server == Run(before).server
            && Latest(w) == Handshake(g.id, ms) && w.client.NegotiatedHeartbeatMs() == Some(g.heartbeatMs)
  {
    hide Run, Possible, AcceptMessage, Next;
    var one := before + [Configure(ms)];
    var two := one + [Open(g.id)];
    steps := two + [DeliverToClient(AcceptMessage(g))];
    assert steps[..|before|] == before && steps[..|one|] == one && steps[..|two|] == two;
    RunKeepsInv(before);
    AnsweredWasSent(before, g);
    RunStep(before, Configure(ms));
    RunStep(one, Open(g.id));
    RunStep(two, DeliverToClient(AcceptMessage(g)));
    StaleAcceptOpens(Run(before), g, ms);
  }

  lemma RunStep(before: seq<Step>, s: Step)
    ensures Run(before + [s]) == Next(Run(before), s)
  {
    assert (before + [s])[..|before|] == before;
  }

  lemma StaleAcceptOpens(w: World, g: Handshake, ms: uint32)
    requires Inv(w) && g in w.begun && AcceptMessage(g) in w.toClient && Allowed(ms)
    ensures var waiting := Next(Next(w, Configure(ms)), Open(g.id));
            var v := Next(waiting, DeliverToClient(AcceptMessage(g)));
            && AcceptMessage(g) in waiting.toClient
            && v.client.open && v.server == w.server
            && Latest(v) == Handshake(g.id, ms) && v.client.NegotiatedHeartbeatMs() == Some(g.heartbeatMs)
  {
    HandshakeFrames(g);
    AcceptArrives(g);
    hide AcceptMessage, Transmit, Arrive, Granted;
  }

  lemma AcceptArrives(h: Handshake)
    ensures var p := Arrive(AcceptMessage(h)); p.opcode == ACCEPT && p.controlId == h.id && p.statusCode == SUCCESS
  {
    HandshakeFrames(h);
  }
}
