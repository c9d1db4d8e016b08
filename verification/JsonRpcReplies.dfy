/** Which request an error reply of the adapter answers, and to whom it goes. */
module JsonRpcReplies {
  import opened AxtpTypes
  import opened Json
  import opened JsonRpcAdapter
  import SessionIds

  // A message by what it says; everything else in it is arbitrary.

  predicate NamesEndpoint(m: Json, key: string, name: Option<string>) {
    if name.Some? then name.value != "" && Find(m, key) == Some(Str(name.value)) else Find(m, key).None?
  }

  /** A message with this operation, session id, request id and routing; a positive number may be signed. */
  predicate Says(j: Json, op: RpcOp, sid: string, id: uint32, endpoint: EndpointMetadata) {
    && Find(j, "op") == Some(Unsigned(op))
    && (Find(j, "sid") == Some(Str(sid)) || (sid == "" && Find(j, "sid").None?))
    && Find(j, "d").Some? && Find(j, "d").value.Object?
    && (Find(Find(j, "d").value, "id") == Some(Unsigned(id)) ||
        (id > 0 && Find(Find(j, "d").value, "id") == Some(Signed(id))))
    && (Find(j, "m").None? ==> endpoint == NO_ENDPOINT)
    && (Find(j, "m").Some? ==>
          && Find(j, "m").value.Object?
          && NamesEndpoint(Find(j, "m").value, "src", endpoint.src)
          && NamesEndpoint(Find(j, "m").value, "dst", endpoint.dst))
  }

  lemma Reads(j: Json, op: RpcOp, sid: string, id: uint32, endpoint: EndpointMetadata)
    requires Says(j, op, sid, id, endpoint)
    ensures ParseOp(j) == Ok(op) && ParseSid(j) == sid && ParseRequestId(j) == id
    ensures DecodeEndpointMetadata(j) == Ok(endpoint)
  {
    EndpointReads(j, endpoint);
  }

  lemma EndpointReads(j: Json, endpoint: EndpointMetadata)
    requires Find(j, "m").None? ==> endpoint == NO_ENDPOINT
    requires Find(j, "m").Some? ==>
               && Find(j, "m").value.Object?
               && NamesEndpoint(Find(j, "m").value, "src", endpoint.src)
               && NamesEndpoint(Find(j, "m").value, "dst", endpoint.dst)
    ensures DecodeEndpointMetadata(j) == Ok(endpoint)
  {
  }

  /** The error a message is answered with: its own request id, and its routing the other way round. */
  predicate Answers(e: Event, sid: string, id: uint32, code: ErrorCode, op: RpcOp, endpoint: EndpointMetadata) {
    && e.TriedError? && e.sid == sid && e.requestId == id && e.code == code
    && (e.batch <==> op == REQUEST_BATCH)
    && e.endpoint.src == endpoint.dst && e.endpoint.dst == endpoint.src
  }

  /** Without a session a request or batch is told to open one, under the sid it named or the provisional one. */
  lemma RefusedWithoutSession(a: Adapter, j: Json, op: RpcOp, sid: string, id: uint32, endpoint: EndpointMetadata)
    requires Says(j, op, sid, id, endpoint) && !a.identified && op in {REQUEST, REQUEST_BATCH}
    ensures AfterMessage(a, Some(j)) == a
    ensures var events := MessageEvents(a, Some(j), false, Wrote, Wrote);
            && |events| == 1
            && Answers(events[0], if sid == "" then a.sid else sid, id, CONTROL_OPEN_REQUIRED, op, endpoint)
  {
    Reads(j, op, sid, id, endpoint);
    hide Says, ParseOp, ParseSid, ParseRequestId, DecodeEndpointMetadata, Identify;
  }

  /** A message for another session, or for none, is refused under the sid of the adapter. */
  lemma RefusedForOtherSession(a: Adapter, j: Json, op: RpcOp, sid: string, id: uint32, endpoint: EndpointMetadata)
    requires Says(j, op, sid, id, endpoint) && a.identified && a.sid != "" && sid != a.sid
    requires op in {REQUEST, REQUEST_BATCH, EVENT, REQUEST_RESPONSE}
    ensures AfterMessage(a, Some(j)) == a
    ensures var events := MessageEvents(a, Some(j), false, Wrote, Wrote);
            |events| == 1 && Answers(events[0], a.sid, id, RPC_PAYLOAD_INVALID, op, endpoint)
  {
    Reads(j, op, sid, id, endpoint);
    hide Says, ParseOp, ParseSid, ParseRequestId, DecodeEndpointMetadata, Identify;
  }

  /** A batch of the right session is refused as unsupported. */
  lemma BatchRefused(a: Adapter, j: Json, id: uint32, endpoint: EndpointMetadata)
    requires Says(j, REQUEST_BATCH, a.sid, id, endpoint) && a.identified && a.sid != ""
    ensures AfterMessage(a, Some(j)) == a
    ensures var events := MessageEvents(a, Some(j), false, Wrote, Wrote);
            |events| == 1 && Answers(events[0], a.sid, id, RPC_BATCH_UNSUPPORTED, REQUEST_BATCH, endpoint)
  {
    Reads(j, REQUEST_BATCH, a.sid, id, endpoint);
    hide Says, ParseOp, ParseSid, ParseRequestId, DecodeEndpointMetadata, Identify;
  }

  /** Every other message but the two that identify goes to the core as it is, and nothing is answered. */
  lemma OthersAreForwarded(a: Adapter, j: Json, op: RpcOp, sid: string, id: uint32, endpoint: EndpointMetadata)
    requires Says(j, op, sid, id, endpoint) && op !in {IDENTIFY, REIDENTIFY, REQUEST_BATCH}
    requires if a.identified then a.sid != "" && (op in {REQUEST, EVENT, REQUEST_RESPONSE} ==> sid == a.sid)
             else op != REQUEST
    ensures AfterMessage(a, Some(j)) == a && MessageEvents(a, Some(j), false, Wrote, Wrote) == [Forwarded(op, sid)]
  {
    Reads(j, op, sid, id, endpoint);
    hide Says, ParseOp, ParseSid, ParseRequestId, DecodeEndpointMetadata, Identify;
  }

  /** A number no request can carry. */
  predicate NoRequestId(j: Json) {
    match Find(j, "d")
    case None => true
    case Some(d) =>
      match Find(d, "id")
      case None => true
      case Some(id) =>
        match id
        case Unsigned(u) => u > 0xFFFF_FFFF
        case Signed(i) => i < 0 || i > 0xFFFF_FFFF
        case _ => true
  }

  /** A message without a usable id is answered under id zero. */
  lemma NoIdReadsZero(j: Json)
    ensures NoRequestId(j) ==> ParseRequestId(j) == 0
    ensures ParseRequestId(j) != 0 ==>
              var id := Find(Find(j, "d").value, "id").value;
              id == Unsigned(ParseRequestId(j)) || id == Signed(ParseRequestId(j))
  {
  }

  /** What cannot be read at all. */
  predicate Unreadable(message: Option<Json>) {
    match message
    case None => true
    case Some(j) =>
      || Find(j, "op").None? || Find(j, "op").value.Str?
      || (Find(j, "op").value.Signed? && Find(j, "op").value.i < 0)
      || (Find(j, "op").value.Unsigned? && 0xFF < Find(j, "op").value.u < 0x8000_0000_0000_0000)
      || (Find(j, "m").Some? && !Find(j, "m").value.Object?)
      || (Find(j, "m").Some? && Find(Find(j, "m").value, "src") == Some(Str("")))
      || (Find(j, "m").Some? && Find(Find(j, "m").value, "dst") == Some(Str("")))
  }

  /** Such a message changes nothing and gets one error, under the sid of the adapter and request id zero. */
  lemma UnreadableIsRefused(a: Adapter, message: Option<Json>)
    requires Unreadable(message) && a.sid != ""
    ensures AfterMessage(a, message) == a
    ensures var events := MessageEvents(a, message, false, Wrote, Wrote);
            |events| == 1 && Answers(events[0], a.sid, 0, RPC_PAYLOAD_INVALID, REQUEST, NO_ENDPOINT)
  {
    if message.Some? {
      UnreadableThrows(message.value);
      hide Unreadable, ParseOp, ParseSid, ParseRequestId, DecodeEndpointMetadata, Identify;
    }
  }

  lemma UnreadableThrows(j: Json)
    requires Unreadable(Some(j))
    ensures ParseOp(j).Throws? || DecodeEndpointMetadata(j).Throws?
  {
  }

  /** A seed is absent, a number of 32 bits, or the whole message is refused. */
  lemma SeedReads(d: Json)
    ensures ParseRandomSeed(d) ==
            match Find(d, "randomSeed")
            case None => Ok(None)
            case Some(seed) =>
              match seed
              case Unsigned(u) => if u < 0x1_0000_0000 then Ok(Some(u)) else Throws
              case Signed(i) => if 0 <= i < 0x1_0000_0000 then Ok(Some(i)) else Throws
              case _ => Throws
  {
  }

  /** The two identifying operations. */
  predicate Identifies(j: Json) {
    (Find(j, "op") == Some(Unsigned(IDENTIFY)) || Find(j, "op") == Some(Unsigned(REIDENTIFY))) && Find(j, "m").None?
  }

  /** An identifying message without a body, or with a seed that is no 32-bit number, is refused as unreadable. */
  lemma BadIdentifyIsRefused(a: Adapter, j: Json)
    requires Identifies(j) && a.sid != ""
    requires Find(j, "d").None? || !Find(j, "d").value.Object? || ParseRandomSeed(Find(j, "d").value).Throws?
    ensures AfterMessage(a, Some(j)) == a
    ensures var events := MessageEvents(a, Some(j), false, Wrote, Wrote);
            |events| == 1 && Answers(events[0], a.sid, 0, RPC_PAYLOAD_INVALID, REQUEST, NO_ENDPOINT)
  {
    assert Identify(a, j).Throws?;
    hide Identify, ParseRandomSeed;
  }

  /** The session to resume, if the body names one. */
  function Resumed(d: Json): Option<string> {
    match Find(d, "resumeSid")
    case Some(Str(s)) => if |s| > 0 then Some(s) else None
    case _ => None
  }

  /**
   Any other identifying message is answered by IDENTIFIED. It never changes the session of an identified adapter; an
   adapter without one resumes the session that is named, or opens that of its counter and the seed and moves on.
   */
  lemma IdentifyDecides(a: Adapter, j: Json, d: Json)
    requires Identifies(j) && Find(j, "d") == Some(d) && d.Object? && ParseRandomSeed(d).Ok?
    ensures var b := AfterMessage(a, Some(j));
            && MessageEvents(a, Some(j), false, Wrote, Wrote) == [TriedIdentified(b.sid, Wrote)]
            && b.identified && b.helloSent == a.helloSent && b.activeGeneration == a.activeGeneration
            && (a.identified ==> b == a)
            && (!a.identified && Resumed(d).Some? ==>
                  b.sid == Resumed(d).value && b.nextSessionId == a.nextSessionId)
            && (!a.identified && Resumed(d).None? ==>
                  && b.sid == SessionIds.SessionId(ParseRandomSeed(d).value.GetOr(0), a.nextSessionId)
                  && b.nextSessionId == if a.nextSessionId == 0xFFFF_FFFF then 0 else a.nextSessionId + 1)
  {
    hide ParseRandomSeed, SessionIds.SessionId;
  }
}
