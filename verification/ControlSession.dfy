/** One end of the CONTROL handshake. `Session` is the value of the object; the class updates it in place. */
module ControlSession {
  import opened AxtpTypes
  import Codec = ControlTlvCodec

  const MIN_HEARTBEAT_MS: uint32 := 500
  const MAX_HEARTBEAT_MS: uint32 := 60000

  datatype Session = Session(
    open: bool,
    pendingOpenId: Option<uint16>,
    accepted: ControlTlvOptions,
    requestedHeartbeatMs: uint32,
    lastOpcode: ControlOpcode)
  {
    /** The interval of the last ACCEPT, when it is one this protocol allows. */
    function NegotiatedHeartbeatMs(): Option<uint32> {
      if accepted.hasHeartbeatIntervalMs && Allowed(accepted.heartbeatIntervalMs)
      then Some(accepted.heartbeatIntervalMs)
      else None
    }
  }

  /** An interval is negotiated when the accepted options carry one that is allowed, and it is that one. */
  lemma NegotiatedIff(s: Session)
    ensures s.NegotiatedHeartbeatMs().Some? <==>
            s.accepted.hasHeartbeatIntervalMs && 500 <= s.accepted.heartbeatIntervalMs <= 60000
    ensures s.NegotiatedHeartbeatMs().Some? ==> s.NegotiatedHeartbeatMs().value == s.accepted.heartbeatIntervalMs
  {
  }

  const INITIAL: Session := Session(false, None, DEFAULT_OPTIONS, 1000, OPEN)

  predicate Allowed(ms: uint32) {
    MIN_HEARTBEAT_MS <= ms <= MAX_HEARTBEAT_MS
  }

  function Distance(a: uint32, b: uint32): nat {
    if a < b then b - a else a - b
  }

  /** The allowed interval nearest to `ms`. */
  function ClampHeartbeat(ms: uint32): (clamped: uint32)
    ensures Allowed(clamped) && (Allowed(ms) ==> clamped == ms)
    ensures forall v: uint32 | Allowed(v) && v != clamped :: Distance(clamped, ms) < Distance(v, ms)
  {
    if ms < MIN_HEARTBEAT_MS then MIN_HEARTBEAT_MS else if ms > MAX_HEARTBEAT_MS then MAX_HEARTBEAT_MS else ms
  }

  lemma NearestIsClamp(kept: uint32, ms: uint32)
    requires Allowed(kept)
    requires forall v: uint32 | Allowed(v) && v != kept :: Distance(kept, ms) < Distance(v, ms)
    ensures kept == ClampHeartbeat(ms)
  {
  }

  // OPEN and its consequences as values.

  function OpenOptions(heartbeatMs: uint32): ControlTlvOptions {
    Codec.DefaultsForOpen().(heartbeatIntervalMs := heartbeatMs)
  }

  function OpenPayload(id: uint16, heartbeatMs: uint32): ControlPayload {
    ControlPayload(OPEN, id, SUCCESS, OpenOptions(heartbeatMs), Codec.Encode(OpenOptions(heartbeatMs), false))
  }

  function AfterOpen(s: Session, id: uint16): Session {
    s.(open := false, pendingOpenId := Some(id), accepted := DEFAULT_OPTIONS)
  }

  function Response(opcode: ControlOpcode, id: uint16): ControlPayload {
    ControlPayload(opcode, id, SUCCESS, DEFAULT_OPTIONS, [])
  }

  /** The ACCEPT that answers an OPEN carrying `requested`. */
  function AcceptPayload(id: uint16, requested: ControlTlvOptions): ControlPayload {
    var granted := Codec.DefaultsForAccept(requested);
    var status := if requested.valid && granted.valid then SUCCESS
                  else if requested.valid then CONTROL_NEGOTIATION_FAILED else CONTROL_PAYLOAD_INVALID;
    ControlPayload(ACCEPT, id, status, granted, Codec.Encode(granted, true))
  }

  /** An ACCEPT that completes the handshake `s` is waiting for. */
  predicate Completes(s: Session, p: ControlPayload) {
    p.opcode == ACCEPT && s.pendingOpenId == Some(p.controlId) && p.statusCode == SUCCESS && p.tlv.valid
  }

  function AfterHandle(s: Session, p: ControlPayload): Session {
    var t := s.(lastOpcode := p.opcode);
    if p.opcode == OPEN then
      t.(accepted := DEFAULT_OPTIONS, open := p.tlv.valid && Codec.DefaultsForAccept(p.tlv).valid)
    else if Completes(s, p) then
      t.(open := true, accepted := p.tlv, pendingOpenId := None)
    else if p.opcode == CLOSE then
      t.(open := false, pendingOpenId := None, accepted := DEFAULT_OPTIONS)
    else t
  }

  function Reply(p: ControlPayload): Option<ControlPayload> {
    if p.opcode == OPEN then Some(AcceptPayload(p.controlId, p.tlv))
    else if p.opcode == PING then Some(Response(PONG, p.controlId))
    else if p.opcode == HEARTBEAT then Some(Response(HEARTBEAT_ACK, p.controlId))
    else if p.opcode == CLOSE then Some(Response(CLOSE_ACK, p.controlId))
    else None
  }

  class ControlSession {
    var open: bool
    var pendingOpenId: Option<uint16>
    var acceptedOptions: ControlTlvOptions
    var requestedHeartbeatMs: uint32
    var lastOpcode: ControlOpcode

    function Value(): Session
      reads this
    {
      Session(open, pendingOpenId, acceptedOptions, requestedHeartbeatMs, lastOpcode)
    }

    constructor ()
      ensures Value() == INITIAL
    {
      open := false;
      pendingOpenId := None;
      acceptedOptions := DEFAULT_OPTIONS;
      requestedHeartbeatMs := 1000;
      lastOpcode := OPEN;
    }

    method SetRequestedHeartbeatInterval(ms: uint32)
      modifies this
      ensures Allowed(requestedHeartbeatMs) && (Allowed(ms) ==> requestedHeartbeatMs == ms)
      ensures forall v: uint32 | Allowed(v) && v != requestedHeartbeatMs ::
                Distance(requestedHeartbeatMs, ms) < Distance(v, ms)
      ensures Value() == old(Value()).(requestedHeartbeatMs := requestedHeartbeatMs)
    {
      requestedHeartbeatMs := ClampHeartbeat(ms);
    }

    method MakeOpen(controlId: uint16) returns (payload: ControlPayload)
      modifies this
      ensures Value() == AfterOpen(old(Value()), controlId)
      ensures payload == OpenPayload(controlId, requestedHeartbeatMs)
    {
      open := false;
      pendingOpenId := Some(controlId);
      acceptedOptions := DEFAULT_OPTIONS;
      var tlv := Codec.DefaultsForOpen().(heartbeatIntervalMs := requestedHeartbeatMs);
      payload := ControlPayload(OPEN, controlId, SUCCESS, tlv, Codec.Encode(tlv, false));
    }

    method Handle(payload: ControlPayload) returns (reply: Option<ControlPayload>)
      modifies this
      ensures Value() == AfterHandle(old(Value()), payload)
      ensures reply == Reply(payload)
    {
      lastOpcode := payload.opcode;
      if payload.opcode == OPEN {
        acceptedOptions := DEFAULT_OPTIONS;
        var response := Response(ACCEPT, payload.controlId);
        response := response.(tlv := Codec.DefaultsForAccept(payload.tlv));
        if !payload.tlv.valid || !response.tlv.valid {
          open := false;
          response := response.(statusCode :=
            if payload.tlv.valid then CONTROL_NEGOTIATION_FAILED else CONTROL_PAYLOAD_INVALID);
        } else {
          open := true;
        }
        response := response.(body := Codec.Encode(response.tlv, true));
        return Some(response);
      }
      if payload.opcode == ACCEPT {
        if pendingOpenId.Some? && payload.controlId == pendingOpenId.value &&
           payload.statusCode == SUCCESS && payload.tlv.valid {
          open := true;
          acceptedOptions := payload.tlv;
          pendingOpenId := None;
        }
        return None;
      }
      if payload.opcode == PING {
        return Some(Response(PONG, payload.controlId));
      }
      if payload.opcode == HEARTBEAT {
        return Some(Response(HEARTBEAT_ACK, payload.controlId));
      }
      if payload.opcode == CLOSE {
        open := false;
        pendingOpenId := None;
        acceptedOptions := DEFAULT_OPTIONS;
        return Some(Response(CLOSE_ACK, payload.controlId));
      }
      return None;
    }
  }
}
