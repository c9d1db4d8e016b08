/**
 The WebSocket JSON-RPC adapter: one HELLO and one session id per connection, and the gate in front of the core.
 `Adapter` is the value of the object. An input text arrives here already parsed; `None` is a parse error.
 */
module JsonRpcAdapter {
  import opened AxtpTypes
  import opened Json
  import Numbers
  import SessionIds

  datatype Adapter = Adapter(
    helloSent: bool,
    identified: bool,
    activeGeneration: nat,
    nextSessionId: uint32,
    sid: string)

  /** How a write to the peer ends; a throwing one may or may not have put its bytes on the wire. */
  datatype Write = Wrote | WroteAndThrew | Lost

  /** What the adapter does: connection activations, replies it tries to write, and messages passed to the core. */
  datatype Event =
    | Activated(provisionalSid: string)
    | TriedHello(write: Write)
    | TriedIdentified(sid: string, write: Write)
    | TriedError(sid: string, requestId: uint32, code: ErrorCode, batch: bool, endpoint: EndpointMetadata, write: Write)
    | Forwarded(op: RpcOp, sid: string)
  {
    predicate Reply() {
      TriedHello? || TriedIdentified? || TriedError?
    }

    /** The exception the event ends with: that of the write, or that of the core behind a forward. */
    predicate Threw(coreThrows: bool) {
      if Reply() then !write.Wrote? else Forwarded? && coreThrows
    }
  }

  const NO_ENDPOINT: EndpointMetadata := EndpointMetadata(None, None)

  // Reading a message.

  function ParseOp(j: Json): Checked<RpcOp> {
    var field :- At(j, "op");
    var raw :- GetInt64(field);
    if 0 <= raw <= 0xFF then Ok(raw) else Throws
  }

  function ParseSid(j: Json): string {
    var sid := Find(j, "sid");
    if sid.Some? && sid.value.Str? then sid.value.s else ""
  }

  function ParseRequestId(j: Json): uint32 {
    var d := Find(j, "d");
    var id := if d.Some? then Find(d.value, "id") else None;
    if id.Some? && id.value.Unsigned? && id.value.u <= 0xFFFF_FFFF then id.value.u
    else if id.Some? && id.value.Signed? && 0 < id.value.i <= 0xFFFF_FFFF then id.value.i
    else 0
  }

  function ParseRandomSeed(d: Json): Checked<Option<uint32>> {
    var field := Find(d, "randomSeed");
    if field.None? then Ok(None)
    else if field.value.Unsigned? && field.value.u <= 0xFFFF_FFFF then Ok(Some(field.value.u))
    else if field.value.Signed? && 0 <= field.value.i <= 0xFFFF_FFFF then Ok(Some(field.value.i))
    else Throws
  }

  function ParseEndpointName(m: Json, key: string): Checked<Option<string>> {
    var name := Find(m, key);
    if name.None? then Ok(None)
    else if name.value.Str? && name.value.s != "" then Ok(Some(name.value.s))
    else Throws
  }

  function DecodeEndpointMetadata(j: Json): Checked<EndpointMetadata> {
    var m := Find(j, "m");
    if m.None? then Ok(NO_ENDPOINT)
    else if !m.value.Object? then Throws
    else
      var src :- ParseEndpointName(m.value, "src");
      var dst :- ParseEndpointName(m.value, "dst");
      Ok(EndpointMetadata(src, dst))
  }

  // Steps as values.

  function Start(): Adapter {
    Adapter(false, false, 0, 2, SessionIds.SessionId(0, 1))
  }

  /** A new adapter has no connection, and its session id is made from the first value of the counter. */
  lemma Starts()
    ensures var a := Start();
            && !a.helloSent && !a.identified && a.activeGeneration == 0 && a.nextSessionId == 2
            && Numbers.DigitsValue(a.sid, 16) == 0x9E37_79B9 && |a.sid| == 8
  {
    SessionIds.SessionIdReads(0, 1);
    SessionIds.FirstNumbers();
  }

  function Successor(n: uint32): uint32 {
    (n as int + 1) % 0x1_0000_0000
  }

  function Activate(a: Adapter, generation: nat): Adapter {
    Adapter(false, false, generation, Successor(a.nextSessionId), SessionIds.SessionId(0, a.nextSessionId))
  }

  predicate Activates(a: Adapter, connected: bool, generation: nat) {
    connected && a.activeGeneration != generation
  }

  /** A HELLO whose write threw is tried again at the next poll. */
  function AfterPoll(a: Adapter, connected: bool, generation: nat, write: Write): Adapter {
    if !connected then a.(activeGeneration := 0)
    else if Activates(a, connected, generation) then Activate(a, generation).(helloSent := write.Wrote?)
    else a.(helloSent := a.helloSent || write.Wrote?)
  }

  function PollEvents(a: Adapter, connected: bool, generation: nat, write: Write): seq<Event> {
    if !connected then []
    else if Activates(a, connected, generation) then [Activated(Activate(a, generation).sid), TriedHello(write)]
    else if !a.helloSent then [TriedHello(write)]
    else []
  }

  /** The session of an identified adapter is fixed; otherwise it is the one to resume, or a new one. */
  function AfterIdentify(a: Adapter, d: Json, seed: Option<uint32>): Adapter {
    var resume := Find(d, "resumeSid");
    if a.identified then a
    else if resume.Some? && resume.value.Str? && resume.value.s != "" then a.(identified := true, sid := resume.value.s)
    else a.(identified := true, nextSessionId := Successor(a.nextSessionId),
            sid := SessionIds.SessionId(seed.GetOr(0), a.nextSessionId))
  }

  function Identify(a: Adapter, j: Json): Checked<Adapter> {
    var d :- At(j, "d");
    var _ :- Need(d.Object?);
    var seed :- ParseRandomSeed(d);
    Ok(AfterIdentify(a, d, seed))
  }

  function ErrorEvent(a: Adapter, sid: string, id: uint32, code: ErrorCode, op: RpcOp, endpoint: EndpointMetadata,
                      write: Write): Event
  {
    TriedError(if sid == "" then a.sid else sid, id, code, op == REQUEST_BATCH, endpoint, write)
  }

  function InvalidMessage(a: Adapter, write: Write): Event {
    ErrorEvent(a, "", 0, RPC_PAYLOAD_INVALID, REQUEST, NO_ENDPOINT, write)
  }

  predicate AcceptedSid(a: Adapter, sid: string) {
    sid != "" && sid == a.sid
  }

  predicate NeedsSid(op: RpcOp) {
    op == REQUEST || op == REQUEST_BATCH || op == EVENT || op == REQUEST_RESPONSE
  }

  /** The adapter after a message, and what it did; `Throws` when reading the message threw. */
  function Dispatch(a: Adapter, j: Json, write: Write): Checked<(Adapter, Event)> {
    var op :- ParseOp(j);
    var endpoint :- DecodeEndpointMetadata(j);
    var reply := endpoint.Reversed();
    var sid, id := ParseSid(j), ParseRequestId(j);
    if op == IDENTIFY || op == REIDENTIFY then
      var b :- Identify(a, j);
      Ok((b, TriedIdentified(b.sid, write)))
    else if !a.identified && (op == REQUEST || op == REQUEST_BATCH) then
      Ok((a, ErrorEvent(a, sid, id, CONTROL_OPEN_REQUIRED, op, reply, write)))
    else if a.identified && NeedsSid(op) && !AcceptedSid(a, sid) then
      Ok((a, ErrorEvent(a, a.sid, id, RPC_PAYLOAD_INVALID, op, reply, write)))
    else if op == REQUEST_BATCH then
      Ok((a, ErrorEvent(a, sid, id, RPC_BATCH_UNSUPPORTED, op, reply, write)))
    else
      Ok((a, Forwarded(op, sid)))
  }

  /** The state changes before the reply is written, so the write makes no difference to it. */
  function AfterMessage(a: Adapter, message: Option<Json>): Adapter {
    if message.Some? && Dispatch(a, message.value, Wrote).Ok? then Dispatch(a, message.value, Wrote).value.0 else a
  }

  /** Reading the message, or reacting to it, threw. */
  predicate Fails(a: Adapter, message: Option<Json>, coreThrows: bool, write: Write) {
    || message.None? || Dispatch(a, message.value, write).Throws?
    || Dispatch(a, message.value, write).value.1.Threw(coreThrows)
  }

  /** The reaction to a message and, when reading it or reacting to it threw, the error reply of the handler. */
  function MessageEvents(a: Adapter, message: Option<Json>, coreThrows: bool, write: Write, errorWrite: Write):
    seq<Event>
  {
    if message.None? || Dispatch(a, message.value, write).Throws? then [InvalidMessage(a, errorWrite)]
    else
      var (b, event) := Dispatch(a, message.value, write).value;
      if event.Threw(coreThrows) then [event, InvalidMessage(b, errorWrite)] else [event]
  }

  /** State, outcome and events of a message all follow from its dispatch. */
  lemma DispatchDecides(a: Adapter, j: Json, coreThrows: bool, write: Write, errorWrite: Write)
    ensures var d, events := Dispatch(a, j, write), MessageEvents(a, Some(j), coreThrows, write, errorWrite);
            && (Fails(a, Some(j), coreThrows, write) <==> d.Throws? || d.value.1.Threw(coreThrows))
            && AfterMessage(a, Some(j)) == (if d.Ok? then d.value.0 else a)
            && events == (if d.Ok? then [d.value.1] else []) +
                 (if Fails(a, Some(j), coreThrows, write)
                  then [InvalidMessage(AfterMessage(a, Some(j)), errorWrite)] else [])
  {
  }

  class WebSocketJsonRpcAdapter {
    var helloSent: bool
    var identified: bool
    var activeGeneration: nat
    var nextSessionId: uint32
    var sid: string
    ghost var log: seq<Event>

    function Value(): Adapter
      reads this
    {
      Adapter(helloSent, identified, activeGeneration, nextSessionId, sid)
    }

    constructor ()
      ensures Value() == Start() && log == []
    {
      helloSent, identified, activeGeneration := false, false, 0;
      nextSessionId, sid, log := 2, SessionIds.SessionId(0, 1), [];
    }

    method MakeSessionId(seed: uint32) returns (id: string)
      modifies this`nextSessionId
      ensures id == SessionIds.SessionId(seed, old(nextSessionId)) && nextSessionId == Successor(old(nextSessionId))
    {
      var mixed := SessionIds.Mix(seed, nextSessionId);
      nextSessionId := Successor(nextSessionId);
      if mixed == 0 {
        mixed := nextSessionId;
      }
      id := SessionIds.Hex(mixed, 8);
    }

    method SendHelloOnce(write: Write) returns (threw: bool)
      modifies this`helloSent, this`log
      ensures helloSent == (old(helloSent) || write.Wrote?) && (threw <==> !helloSent)
      ensures log == old(log) + if old(helloSent) then [] else [TriedHello(write)]
    {
      if helloSent {
        return false;
      }
      log := log + [TriedHello(write)];
      if !write.Wrote? {
        return true;
      }
      helloSent := true;
      return false;
    }

    /** What a poll does once the transport has delivered its bytes. */
    method Poll(connected: bool, generation: nat, write: Write) returns (threw: bool)
      modifies this
      ensures Value() == AfterPoll(old(Value()), connected, generation, write)
      ensures log == old(log) + PollEvents(old(Value()), connected, generation, write)
      ensures threw <==> connected && !helloSent
    {
      threw := false;
      if !connected {
        activeGeneration := 0;
      } else if activeGeneration != generation {
        activeGeneration := generation;
        helloSent := false;
        identified := false;
        sid := MakeSessionId(0);
        log := log + [Activated(sid)];
      }
      if connected {
        threw := SendHelloOnce(write);
      }
    }

    /** The session is set before the reply is written, so it stands even when the write throws. */
    method HandleIdentify(j: Json, write: Write) returns (threw: bool)
      modifies this
      ensures threw <==> Identify(old(Value()), j).Throws? || !write.Wrote?
      ensures Identify(old(Value()), j).Throws? ==> Value() == old(Value()) && log == old(log)
      ensures Identify(old(Value()), j).Ok? ==>
                Value() == Identify(old(Value()), j).value && log == old(log) + [TriedIdentified(sid, write)]
    {
      var d := At(j, "d");
      if d.Throws? || !d.value.Object? {
        return true;
      }
      var seed := ParseRandomSeed(d.value);
      if seed.Throws? {
        return true;
      }
      if !identified {
        var resume := Find(d.value, "resumeSid");
        if resume.Some? && resume.value.Str? && resume.value.s != "" {
          sid := resume.value.s;
        } else {
          sid := MakeSessionId(seed.value.GetOr(0));
        }
      }
      identified := true;
      log := log + [TriedIdentified(sid, write)];
      return !write.Wrote?;
    }

    method SendError(errorSid: string, requestId: uint32, code: ErrorCode, op: RpcOp, endpoint: EndpointMetadata,
                     write: Write) returns (threw: bool)
      modifies this`log
      ensures log == old(log) + [ErrorEvent(Value(), errorSid, requestId, code, op, endpoint, write)]
      ensures threw <==> !write.Wrote?
    {
      var replySid := if errorSid == "" then sid else errorSid;
      log := log + [TriedError(replySid, requestId, code, op == REQUEST_BATCH, endpoint, write)];
      return !write.Wrote?;
    }

    /** The guarded part of message handling: exceptions surface as `threw`. */
    method TryMessage(j: Json, coreThrows: bool, write: Write, ghost errorWrite: Write) returns (threw: bool)
      modifies this
      ensures Value() == AfterMessage(old(Value()), Some(j))
      ensures log + (if threw then [InvalidMessage(Value(), errorWrite)] else []) ==
              old(log) + MessageEvents(old(Value()), Some(j), coreThrows, write, errorWrite)
      ensures threw <==> Fails(old(Value()), Some(j), coreThrows, write)
    {
      hide AfterIdentify, DecodeEndpointMetadata, ParseOp, ParseSid, ParseRequestId, AfterMessage, MessageEvents, Fails;
      ghost var before := Value();
      DispatchDecides(before, j, coreThrows, write, errorWrite);
      var op := ParseOp(j);
      var metadata := DecodeEndpointMetadata(j);
      if op.Throws? || metadata.Throws? {
        return true;
      }
      var reply := metadata.value.Reversed();
      if op.value == IDENTIFY || op.value == REIDENTIFY {
        threw := HandleIdentify(j, write);
        return;
      }
      if !identified && (op.value == REQUEST || op.value == REQUEST_BATCH) {
        threw := SendError(ParseSid(j), ParseRequestId(j), CONTROL_OPEN_REQUIRED, op.value, reply, write);
        return;
      }
      if identified && NeedsSid(op.value) && !AcceptedSid(Value(), ParseSid(j)) {
        threw := SendError(sid, ParseRequestId(j), RPC_PAYLOAD_INVALID, op.value, reply, write);
        return;
      }
      if op.value == REQUEST_BATCH {
        threw := SendError(ParseSid(j), ParseRequestId(j), RPC_BATCH_UNSUPPORTED, op.value, reply, write);
        return;
      }
      log := log + [Forwarded(op.value, ParseSid(j))];
      return coreThrows;
    }

    /** An exception escapes only when the error reply of the handler cannot be written either. */
    method OnBytes(message: Option<Json>, coreThrows: bool, write: Write, errorWrite: Write) returns (escaped: bool)
      modifies this
      ensures Value() == AfterMessage(old(Value()), message)
      ensures log == old(log) + MessageEvents(old(Value()), message, coreThrows, write, errorWrite)
      ensures escaped <==> Fails(old(Value()), message, coreThrows, write) && !errorWrite.Wrote?
    {
      hide Dispatch;
      escaped := false;
      var threw := true;
      if message.Some? {
        threw := TryMessage(message.value, coreThrows, write, errorWrite);
      }
      if threw {
        escaped := SendError("", 0, RPC_PAYLOAD_INVALID, REQUEST, NO_ENDPOINT, errorWrite);
      }
    }
  }
}
