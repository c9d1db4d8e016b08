/**
 The SDK client: the resumable OPEN / HELLO / IDENTIFY handshake, request id allocation, and synchronous calls
 that run under one absolute deadline.

 The transport, the peer, the caller's hooks and the passing of time are unconstrained: inbound payloads,
 exceptions, hook results and clock advances are chosen arbitrarily at every step. A ghost history records what
 each physical session put on the wire and how each request ended.
 */
module AxtpClient {
  import opened AxtpTypes
  import Answers = IdentifyAnswers
  import Control = ControlSession
  import Core = AxtpCore
  import Network = ControlNetwork
  import Table = PendingCallTable
  import Ids = RequestIds

  // The steady clock counts nanoseconds; every sleep lasts at least one millisecond.
  const MS: int := 1_000_000

  datatype WireMode = FramedBinary | WebSocketJsonRpc

  datatype Stage =
    NoStage | TransportStage | ControlOpen | ControlAccept | Hello | Identify | Identified | AppReady | Callback

  datatype AppReadyResult = AppReadyResult(
    ok: bool,
    statusCode: ErrorCode,
    stage: Stage,
    sid: string,
    hasRandomSeed: bool,
    randomSeed: uint32)

  const NO_RESULT: AppReadyResult := AppReadyResult(false, SUCCESS, NoStage, "", false, 0)

  datatype AppReadyOptions = AppReadyOptions(timeoutMs: int, randomSeed: Option<uint32>, skipControlOpen: bool)

  /** The OPENs of a handshake: one under the next id, unless a session is there or awaited, or none is wanted. */
  function OpensFor(begun: bool, transport: Option<WireMode>, options: AppReadyOptions, next: uint16): seq<uint16> {
    if !begun && transport == Some(FramedBinary) && !options.skipControlOpen then [next] else []
  }

  const DEFAULT_READY: AppReadyOptions := AppReadyOptions(0, None, false)

  datatype CallOptions = CallOptions(timeoutMs: int, acceptAnyResponse: bool)

  /**
   One physical session: ids of OPENs sent, HELLOs taken, seeds of IDENTIFYs sent (and how many sends threw),
   sids of IDENTIFIEDs taken, ids of business requests that may have reached the wire, and how they ended.
   */
  datatype History = History(
    opens: seq<uint16>,
    hellos: nat,
    identifies: seq<uint32>,
    failedIdentifies: nat,
    identified: seq<string>,
    requests: seq<uint32>,
    answered: seq<uint32>,
    abandoned: seq<uint32>)

  const NO_HISTORY: History := History([], 0, [], 0, [], [], [], [])

  /** Nothing happened to business requests between `h` and `k`. */
  ghost predicate SameCalls(h: History, k: History) {
    h.requests == k.requests && h.answered == k.answered && h.abandoned == k.abandoned
  }

  /** No OPEN and no IDENTIFY went out between `h` and `k`. */
  ghost predicate NothingSent(h: History, k: History) {
    h.opens == k.opens && h.identifies == k.identifies && h.failedIdentifies == k.failedIdentifies
  }

  function Elements<T(==)>(s: seq<T>): set<T> {
    set x | x in s
  }

  function Last<T>(s: seq<T>): T
    requires s != []
  {
    s[|s| - 1]
  }

  function AsSet(inFlight: Option<uint32>): set<uint32> {
    if inFlight.Some? then {inFlight.value} else {}
  }

  ghost predicate Distinct(s: seq<uint32>) {
    forall i, j | 0 <= i < j < |s| :: s[i] != s[j]
  }

  /**
   What every physical session obeys: request ids on the wire are pairwise distinct and non-zero; each of them
   is answered or abandoned exactly once unless it is the one still in flight; at most one IDENTIFY is unanswered;
   and an IDENTIFY is only sent after a HELLO.
   */
  ghost predicate Lawful(h: History, inFlight: Option<uint32>) {
    && Distinct(h.requests) && 0 !in h.requests
    && multiset(h.requests) == multiset(h.answered) + multiset(h.abandoned) + multiset(AsSet(inFlight))
    && |h.identified| <= |h.identifies| <= |h.identified| + 1
    && |h.identifies| + h.failedIdentifies <= h.hellos
  }

  /** In a lawful session that is at rest, no request is both answered and abandoned, and none ends twice. */
  lemma LawfulEndsOnce(h: History, id: uint32)
    requires Lawful(h, None) && id in h.requests
    ensures multiset(h.answered)[id] + multiset(h.abandoned)[id] == 1
    ensures id in h.answered <==> id !in h.abandoned
  {
    DistinctCountsOne(h.requests, id);
    assert multiset(AsSet(None)) == multiset{};
    assert multiset(h.requests)[id] == multiset(h.answered)[id] + multiset(h.abandoned)[id];
    assert id in h.answered <==> id in multiset(h.answered);
    assert id in h.abandoned <==> id in multiset(h.abandoned);
  }

  lemma {:induction false} DistinctCountsOne(s: seq<uint32>, id: uint32)
    requires Distinct(s)
    ensures multiset(s)[id] == if id in s then 1 else 0
  {
    if s != [] {
      assert s == [s[0]] + s[1..];
      DistinctCountsOne(s[1..], id);
      assert s[0] == id ==> id !in s[1..];
    }
  }

  ghost predicate CoherentBy(h: History, outstanding: bool, pending: Option<uint32>, ready: bool, sid: string,
                             last: AppReadyResult)
  {
    && (outstanding <==> pending.Some?)
    && |h.identifies| == |h.identified| + (if outstanding then 1 else 0)
    && (outstanding ==> pending.value == Last(h.identifies))
    && (ready <==> sid != "")
    && (ready ==>
          && !outstanding && h.identified != []
          && sid == Last(h.identified)
          && last.ok && last.sid == sid
          && last.hasRandomSeed && last.randomSeed == Last(h.identifies))
  }

  lemma StartIsCoherent(last: AppReadyResult)
    ensures CoherentBy(NO_HISTORY, false, None, false, "", last)
  {
  }

  /** OPENs and HELLOs do not matter to the session; an IDENTIFY that was sent is outstanding. */
  lemma SendingIsCoherent(h: History, last: AppReadyResult, k: History, seed: uint32)
    requires CoherentBy(h, false, None, false, "", last)
    ensures k.identifies == h.identifies && k.identified == h.identified ==>
              CoherentBy(k, false, None, false, "", last)
    ensures k.identifies == h.identifies + [seed] && k.identified == h.identified ==>
              CoherentBy(k, true, Some(seed), false, "", last)
    ensures |h.identifies| == |h.identified|
  {
  }

  lemma RequestsDoNotMatter(h: History, outstanding: bool, pending: Option<uint32>, ready: bool, sid: string,
                            last: AppReadyResult, id: uint32)
    requires CoherentBy(h, outstanding, pending, ready, sid, last)
    ensures CoherentBy(h.(requests := h.requests + [id]), outstanding, pending, ready, sid, last)
  {
  }

  lemma AcceptingIsCoherent(h: History, pending: Option<uint32>, last: AppReadyResult, sid: string,
                            waiting: AppReadyResult)
    requires CoherentBy(h, true, pending, false, "", last)
    requires waiting.hasRandomSeed && Some(waiting.randomSeed) == pending
    ensures var k := h.(identified := h.identified + [sid]);
            && (sid != "" ==> CoherentBy(k, false, None, true, sid,
                                         waiting.(ok := true, statusCode := SUCCESS, stage := AppReady, sid := sid)))
            && (sid == "" ==> CoherentBy(k, false, None, false, "", waiting.(statusCode := RPC_PAYLOAD_INVALID)))
            && |h.identifies| == |h.identified| + 1
  {
  }

  /**
   What a caller can see of the sessions of one core: `earlier` ended on it, and `failed` IDENTIFY sends have thrown in
   the current one. It is orderly if no IDENTIFY send threw and no session ended while it waited for an answer.
   */
  ghost predicate Orderly(earlier: seq<History>, failed: nat) {
    failed == 0 && forall h | h in earlier :: h.failedIdentifies == 0 && |h.identifies| == |h.identified|
  }

  /** `pending` is the seed of an outstanding IDENTIFY, `ready` the seed a ready session reports. */
  ghost predicate MatchedBy(l: Answers.Line, honest: bool, pending: Option<uint32>, ready: Option<uint32>,
                            quiet: bool, orderly: bool, answer: Option<nat>)
  {
    && (honest ==> Answers.Valid(l))
    && (honest && orderly ==> if pending.Some? then Answers.Tight(l) else Answers.Quiet(l))
    && (pending.Some? ==> l.frames != [] && pending.value == Last(l.frames))
    && (pending.Some? && quiet && honest ==> Answers.Settled(l))
    && (ready.Some? ==> l.frames != [] && ready.value == Last(l.frames) && answer.Some?)
    && (ready.Some? && (quiet || orderly) && honest ==> answer == Some(|l.frames| - 1))
  }

  lemma IdleIsMatched(l: Answers.Line, honest: bool, quiet: bool, orderly: bool, answer: Option<nat>)
    requires honest ==> Answers.Valid(l) && (orderly ==> Answers.Quiet(l))
    ensures MatchedBy(l, honest, None, None, quiet, orderly, answer)
  {
  }

  lemma MatchedFacts(l: Answers.Line, honest: bool, pending: Option<uint32>, ready: Option<uint32>,
                     quiet: bool, orderly: bool, answer: Option<nat>)
    requires MatchedBy(l, honest, pending, ready, quiet, orderly, answer)
    ensures honest ==> Answers.Valid(l) && (orderly && pending.None? ==> Answers.Quiet(l))
  {
  }

  /** A session that ends leaves an orderly core quiet, and the core is orderly only if no answer was awaited. */
  lemma EndingMatches(l: Answers.Line, honest: bool, pending: Option<uint32>, ready: Option<uint32>,
                      quiet: bool, answer: Option<nat>, earlier: seq<History>, h: History)
    requires MatchedBy(l, honest, pending, ready, quiet, Orderly(earlier, h.failedIdentifies), answer)
    requires |h.identifies| == |h.identified| + (if pending.Some? then 1 else 0)
    ensures MatchedBy(l, honest, None, None, quiet, Orderly(earlier + [h], 0), answer)
  {
    EndingIsOrderly(earlier, h);
  }

  lemma EndingIsOrderly(earlier: seq<History>, h: History)
    ensures Orderly(earlier + [h], 0) <==> Orderly(earlier, h.failedIdentifies) && |h.identifies| == |h.identified|
  {
    assert h in earlier + [h];
    assert forall k | k in earlier :: k in earlier + [h];
  }

  lemma NewCoreIsOrderly(past: seq<History>)
    ensures Orderly([], 0) && Suffix([], past) && AllOpens([]) + NO_HISTORY.opens == []
  {
  }

  lemma ThrowingIsNotOrderly(earlier: seq<History>, failed: nat)
    ensures !Orderly(earlier, failed + 1)
  {
  }

  /** The sessions that used a core are the latest of all sessions. */
  lemma SuffixIsOrderly(earlier: seq<History>, past: seq<History>, failed: nat)
    requires Suffix(earlier, past) && Orderly(past, failed)
    ensures Orderly(earlier, failed)
  {
    forall h | h in earlier
      ensures h in past
    {
      var i :| 0 <= i < |earlier| && earlier[i] == h;
      assert past[|past| - |earlier| + i] == h;
    }
  }

  /** Sending keeps the match: from a quiet line the answer is settled, and a throwing send is not orderly. */
  lemma SendingMatches(l: Answers.Line, honest: bool, seed: uint32, orderly: bool, answer: Option<nat>)
    requires honest ==> Answers.Valid(l) && (orderly ==> Answers.Quiet(l))
    ensures MatchedBy(Answers.Sent(l, seed), honest, Some(seed), None, Answers.Quiet(l), orderly, answer)
    ensures MatchedBy(Answers.Sent(l, seed), honest, None, None, Answers.Quiet(l), false, answer)
    ensures MatchedBy(l, honest, None, None, Answers.Quiet(l), false, answer)
  {
    if honest {
      Answers.SendingSettles(l, seed);
      Answers.SendingTightens(l, seed);
    }
  }

  /** Taking an IDENTIFIED for an outstanding IDENTIFY: on a settled line it is its answer. */
  lemma TakingMatches(l: Answers.Line, honest: bool, seed: uint32, quiet: bool, orderly: bool, answer: Option<nat>)
    requires MatchedBy(l, honest, Some(seed), None, quiet, orderly, answer) && l.queued != []
    ensures MatchedBy(Answers.Taken(l), honest, Some(seed), None, quiet, orderly, answer)
    ensures (quiet || orderly) && honest ==> l.queued[0] == |l.frames| - 1
    ensures orderly && honest ==> Answers.Quiet(Answers.Taken(l))
  {
    Answers.TakingKeeps(l);
    Answers.TakingQuiets(l);
  }

  /** The consumed IDENTIFIED makes the session ready, or leaves it idle when it names no session. */
  lemma AcceptingMatches(l: Answers.Line, honest: bool, seed: uint32, quiet: bool, orderly: bool, answer: Option<nat>,
                         tag: nat)
    requires MatchedBy(l, honest, Some(seed), None, quiet, orderly, answer)
    requires honest ==> ((quiet || orderly) ==> tag == |l.frames| - 1) && (orderly ==> Answers.Quiet(l))
    ensures MatchedBy(l, honest, None, Some(seed), quiet, orderly, Some(tag))
    ensures MatchedBy(l, honest, None, None, quiet, orderly, Some(tag))
  {
  }

  /** Whatever a poll brings keeps the match. */
  lemma ArrivalsMatch(l: Answers.Line, honest: bool, tags: seq<nat>, pending: Option<uint32>, ready: Option<uint32>,
                      quiet: bool, orderly: bool, answer: Option<nat>)
    requires MatchedBy(l, honest, pending, ready, quiet, orderly, answer)
    ensures var l', honest' := Answers.ArriveAll(l, tags), honest && Answers.Honest(l, tags);
            MatchedBy(l', honest', pending, ready, quiet, orderly, answer)
  {
    Answers.ArrivalsSendNothing(l, tags);
    if honest && Answers.Honest(l, tags) {
      Answers.ArrivalsKeep(l, tags);
      Answers.ArrivalsStayTight(l, tags);
    }
  }

  /** The OPEN ids of all `sessions`, in order. */
  function AllOpens(sessions: seq<History>): seq<uint16> {
    if sessions == [] then [] else AllOpens(sessions[..|sessions| - 1]) + sessions[|sessions| - 1].opens
  }

  lemma EndedOpens(earlier: seq<History>, h: History)
    ensures AllOpens(earlier + [h]) + NO_HISTORY.opens == AllOpens(earlier) + h.opens
  {
    assert (earlier + [h])[..|earlier|] == earlier;
  }

  ghost predicate Suffix<T>(end: seq<T>, whole: seq<T>) {
    |end| <= |whole| && whole[|whole| - |end|..] == end
  }

  lemma SuffixExtends<T>(end: seq<T>, whole: seq<T>, x: T)
    requires Suffix(end, whole)
    ensures Suffix(end + [x], whole + [x])
  {
  }

  /** Control ids: the counter stands `draws` after `first`, and the OPENs took the draws `openDraws`, in order. */
  ghost predicate DrawnFrom(first: uint16, draws: nat, next: uint16, openDraws: seq<nat>, opens: seq<uint16>) {
    && |openDraws| == |opens|
    && next == Network.AllocatedId(first, draws)
    && (forall i | 0 <= i < |openDraws| :: openDraws[i] < draws && opens[i] == Network.AllocatedId(first, openDraws[i]))
    && (forall i, j | 0 <= i < j < |openDraws| :: openDraws[i] < openDraws[j])
  }

  lemma NothingDrawn(first: uint16)
    ensures DrawnFrom(first, 0, first, [], [])
  {
  }

  lemma DrawKeeps(first: uint16, draws: nat, next: uint16, openDraws: seq<nat>, opens: seq<uint16>)
    requires DrawnFrom(first, draws, next, openDraws, opens)
    ensures var later := (next as int + 1) % 0x1_0000;
            && DrawnFrom(first, draws + 1, later, openDraws, opens)
            && DrawnFrom(first, draws + 1, later, openDraws + [draws], opens + [next])
  {
  }

  /** Within 2^16 draws the OPEN ids are pairwise distinct. */
  lemma FewDrawsAreFresh(first: uint16, draws: nat, next: uint16, openDraws: seq<nat>, opens: seq<uint16>)
    requires DrawnFrom(first, draws, next, openDraws, opens) && draws <= 0x1_0000
    ensures forall i, j | 0 <= i < j < |opens| :: opens[i] != opens[j]
  {
    forall i, j | 0 <= i < j < |opens|
      ensures opens[i] != opens[j]
    {
      Network.AllocatedIdsRepeat(first, openDraws[i], openDraws[j]);
    }
  }

  // How the law is kept when a request is sent, answered or abandoned.

  lemma SendingKeepsLaw(h: History, id: uint32)
    requires Lawful(h, None) && id !in h.requests && id != 0
    ensures Lawful(h.(requests := h.requests + [id]), Some(id))
  {
    assert multiset(AsSet(None)) == multiset{} && multiset(AsSet(Some(id))) == multiset{id};
  }

  lemma EndingKeepsLaw(h: History, id: uint32)
    requires Lawful(h, Some(id))
    ensures Lawful(h.(answered := h.answered + [id]), None)
    ensures Lawful(h.(abandoned := h.abandoned + [id]), None)
  {
    assert multiset(AsSet(None)) == multiset{} && multiset(AsSet(Some(id))) == multiset{id};
  }

  lemma LawAtStart()
    ensures Lawful(NO_HISTORY, None)
  {
    assert multiset(AsSet(None)) == multiset{};
  }

  /** The session so far and those before it are lawful, and the ids in use are those sent and those reserved. */
  ghost predicate WireBy(h: History, used: set<uint32>, past: seq<History>, calls: Table.Calls,
                         reserved: set<uint32>, inFlight: Option<uint32>)
  {
    var sent := Elements(h.requests);
    && Lawful(h, inFlight)
    && AsSet(inFlight) <= sent
    && used == sent + reserved && sent !! reserved && 0 !in used
    && Core.Tracks(calls, sent - AsSet(inFlight), inFlight)
    && (forall earlier | earlier in past :: Lawful(earlier, None))
  }

  /** A reserved id becomes that of the one request in flight. */
  lemma SendingKeepsWire(h: History, used: set<uint32>, past: seq<History>, calls: Table.Calls, id: uint32)
    requires WireBy(h, used, past, calls, {id}, None) && id != 0
    ensures Table.Expectable(calls, id)
    ensures WireBy(h.(requests := h.requests + [id]), used, past, Table.Expected(calls, id), {}, Some(id))
  {
    hide Lawful, Core.Tracks;
    var sent := Elements(h.requests);
    var k := h.(requests := h.requests + [id]);
    assert sent - AsSet(None) == sent && id in used;
    Core.ExpectKeepsTracks(calls, sent, id);
    SendingKeepsLaw(h, id);
    assert Elements(k.requests) == sent + {id} && Elements(k.requests) - AsSet(Some(id)) == sent;
  }

  /** A session that ends joins those before it. */
  lemma EndingKeepsWire(h: History, used: set<uint32>, past: seq<History>, calls: Table.Calls)
    requires WireBy(h, used, past, calls, {}, None)
    ensures WireBy(NO_HISTORY, {}, past + [h], Table.NO_CALLS, {}, None)
  {
    LawAtStart();
  }

  /** What arrives changes the wire only through the response table. */
  lemma TrackingIsEnough(h: History, used: set<uint32>, past: seq<History>, calls: Table.Calls, later: Table.Calls,
                         reserved: set<uint32>, inFlight: Option<uint32>)
    requires WireBy(h, used, past, calls, reserved, inFlight)
    ensures var done := Elements(h.requests) - AsSet(inFlight);
            && Core.Tracks(calls, done, inFlight)
            && (Core.Tracks(later, done, inFlight) ==> WireBy(h, used, past, later, reserved, inFlight))
  {
  }

  lemma NewCoreHasNoCalls(used: set<uint32>, past: seq<History>, calls: Table.Calls)
    requires WireBy(NO_HISTORY, used, past, calls, {}, None)
    ensures WireBy(NO_HISTORY, used, past, Table.NO_CALLS, {}, None)
  {
  }

  /** The frames of the handshake keep the law. */
  lemma HandshakeKeepsWire(h: History, used: set<uint32>, past: seq<History>, calls: Table.Calls,
                           reserved: set<uint32>, id: uint16, sid: string, seed: uint32)
    requires WireBy(h, used, past, calls, reserved, None)
    ensures WireBy(h.(opens := h.opens + [id]), used, past, calls, reserved, None)
    ensures WireBy(h.(hellos := h.hellos + 1), used, past, calls, reserved, None)
    ensures |h.identifies| == |h.identified| + 1 ==>
              WireBy(h.(identified := h.identified + [sid]), used, past, calls, reserved, None)
    ensures |h.identifies| + h.failedIdentifies < h.hellos ==>
              WireBy(h.(failedIdentifies := h.failedIdentifies + 1), used, past, calls, reserved, None)
    ensures |h.identifies| + h.failedIdentifies < h.hellos && |h.identifies| == |h.identified| ==>
              WireBy(h.(identifies := h.identifies + [seed]), used, past, calls, reserved, None)
  {
  }

  /** Passes through all waiting loops of a call that started at `start` with `sleeps0` sleeps behind it. */
  ghost predicate WithinBudget(start: int, sleeps0: nat, deadline: int, now: int, sleeps: nat) {
    && sleeps0 <= sleeps
    && (sleeps - sleeps0) * MS <= now - start
    && (sleeps > sleeps0 ==> (sleeps - sleeps0 - 1) * MS < deadline - start)
  }

  /** `id` was sent and its own response went to the caller. */
  ghost predicate Answered(h: History, k: History, id: uint32, response: RpcPayload) {
    k == h.(answered := h.answered + [id]) && response.requestId == id
  }

  /** `id` was sent and given up; the caller got an error, or a response that came without an id. */
  ghost predicate Abandoned(h: History, k: History, id: uint32, response: RpcPayload, acceptAny: bool) {
    && k == h.(abandoned := h.abandoned + [id])
    && ((response.requestId == id && response.statusCode != SUCCESS) || (acceptAny && response.requestId == 0))
  }

  /**
   What was delivered stood in the table `seen`, the own response first, and came without any signal; an error of the
   client itself names the one reason for which the wait ended, and if nothing threw there was nothing to deliver.
   */
  ghost predicate Delivered(h: History, k: History, request: RpcPayload, response: RpcPayload, acceptAny: bool,
                            seen: Table.Calls, signal: Signal, expired: bool)
  {
    var id := request.requestId;
    && (k.answered != h.answered ==> signal.Silent? && Table.Response(seen, id) == Some(response))
    && (k.answered == h.answered && response.requestId == id ==>
          && response == ErrorResponse(request, response.statusCode)
          && StoppedBy(response.statusCode, signal, expired)
          && (signal.Throwing? || NothingThere(seen, id, acceptAny)))
    && (k.answered == h.answered && response.requestId != id ==>
          signal.Silent? && Table.Response(seen, id) == None && Table.Response(seen, 0) == Some(response))
  }

  /** A request that went out once, under an id new to the session, and ended once. */
  ghost predicate CalledOnce(h: History, k: History, request: RpcPayload, response: RpcPayload, acceptAny: bool,
                             seen: Table.Calls, signal: Signal, expired: bool)
  {
    var id := request.requestId;
    && id !in h.requests && id != 0 && k.requests == h.requests + [id]
    && Delivered(h, k, request, response, acceptAny, seen, signal, expired)
    && (|| (k.answered == h.answered + [id] && k.abandoned == h.abandoned && response.requestId == id)
        || (k.abandoned == h.abandoned + [id] && k.answered == h.answered &&
            ((response.requestId == id && response.statusCode != SUCCESS) || (acceptAny && response.requestId == 0))))
  }

  lemma EndedCallIsOnce(h: History, sent: History, k: History, request: RpcPayload, response: RpcPayload,
                        acceptAny: bool, seen: Table.Calls, signal: Signal, expired: bool)
    requires request.requestId !in h.requests && request.requestId != 0
    requires sent.requests == h.requests + [request.requestId]
    requires sent.answered == h.answered && sent.abandoned == h.abandoned
    requires Answered(sent, k, request.requestId, response) ||
             Abandoned(sent, k, request.requestId, response, acceptAny)
    requires Delivered(sent, k, request, response, acceptAny, seen, signal, expired)
    ensures CalledOnce(h, k, request, response, acceptAny, seen, signal, expired)
    ensures k.requests == sent.requests && k.failedIdentifies == sent.failedIdentifies && k.opens == sent.opens
  {
  }

  lemma HandshakesDoNotCount(h: History, ready: History, k: History, request: RpcPayload, response: RpcPayload,
                             acceptAny: bool, seen: Table.Calls, signal: Signal, expired: bool)
    requires SameCalls(h, ready) && CalledOnce(ready, k, request, response, acceptAny, seen, signal, expired)
    ensures CalledOnce(h, k, request, response, acceptAny, seen, signal, expired)
  {
  }

  ghost predicate NothingThere(seen: Table.Calls, id: uint32, acceptAny: bool) {
    Table.Response(seen, id) == None && (acceptAny ==> Table.Response(seen, 0) == None)
  }

  lemma AnswerIsDelivered(h: History, request: RpcPayload, response: RpcPayload, acceptAny: bool, seen: Table.Calls,
                          signal: Signal, expired: bool)
    requires Table.Response(seen, request.requestId) == Some(response) && response.requestId == request.requestId
    requires signal.Silent?
    ensures var k := h.(answered := h.answered + [request.requestId]);
            && Answered(h, k, request.requestId, response)
            && Delivered(h, k, request, response, acceptAny, seen, signal, expired)
  {
  }

  lemma AnyIsDelivered(h: History, request: RpcPayload, response: RpcPayload, seen: Table.Calls, signal: Signal,
                       expired: bool)
    requires request.requestId != 0 && response.requestId == 0 && signal.Silent?
    requires Table.Response(seen, request.requestId) == None && Table.Response(seen, 0) == Some(response)
    ensures var k := h.(abandoned := h.abandoned + [request.requestId]);
            && Abandoned(h, k, request.requestId, response, true)
            && Delivered(h, k, request, response, true, seen, signal, expired)
  {
  }

  lemma ErrorIsDelivered(h: History, request: RpcPayload, code: ErrorCode, acceptAny: bool, seen: Table.Calls,
                         signal: Signal, expired: bool)
    requires StoppedBy(code, signal, expired) && (signal.Throwing? || NothingThere(seen, request.requestId, acceptAny))
    ensures var k := h.(abandoned := h.abandoned + [request.requestId]);
            && Abandoned(h, k, request.requestId, ErrorResponse(request, code), acceptAny)
            && Delivered(h, k, request, ErrorResponse(request, code), acceptAny, seen, signal, expired)
  {
  }

  lemma SleepKeepsBudget(start: int, sleeps0: nat, deadline: int, now: int, later: int, sleeps: nat)
    requires WithinBudget(start, sleeps0, deadline, now, sleeps) && now < deadline && now + MS <= later
    ensures WithinBudget(start, sleeps0, deadline, later, sleeps + 1)
  {
  }

  lemma BudgetAllowsWaiting(start: int, sleeps0: nat, deadline: int, now: int, later: int, sleeps: nat)
    requires WithinBudget(start, sleeps0, deadline, now, sleeps) && now <= later
    ensures WithinBudget(start, sleeps0, deadline, later, sleeps)
  {
  }

  function Max(a: int, b: int): int {
    if a < b then b else a
  }

  function Clamp(v: int, lo: int, hi: int): int {
    if v < lo then lo else if v > hi then hi else v
  }

  /** The heartbeat interval a client asks for in its OPENs: the allowed one nearest to that of its options. */
  function AskedInterval(ms: int): (asked: uint32)
    ensures Control.Allowed(asked) && (Control.MIN_HEARTBEAT_MS <= ms <= Control.MAX_HEARTBEAT_MS ==> asked == ms)
    ensures ms < Control.MIN_HEARTBEAT_MS ==> asked == Control.MIN_HEARTBEAT_MS
    ensures ms > Control.MAX_HEARTBEAT_MS ==> asked == Control.MAX_HEARTBEAT_MS
  {
    Control.ClampHeartbeat(Clamp(ms, 1, 60000))
  }

  function ErrorResponse(request: RpcPayload, code: ErrorCode): RpcPayload {
    request.(op := REQUEST_RESPONSE, statusCode := code, body := [],
             meta := request.meta.(endpoint := request.meta.endpoint.Reversed()))
  }

  function BodyEncodingFor(encoding: RpcEncoding): BodyEncoding {
    if encoding.JsonBinary? then Tlv8 else NoBody
  }

  /** Metadata that a request cannot carry. */
  predicate BadEndpoint(request: RpcPayload) {
    request.meta.endpoint.Malformed() || (request.encoding.JsonBinary? && request.meta.endpoint.Present())
  }

  /** `request` with its id, operation and session filled in. */
  function Normalized(request: RpcPayload, id: uint32, sid: string): RpcPayload {
    request.(
      requestId := id,
      op := REQUEST,
      bodyEncoding := if request.bodyEncoding == Tlv8 && !request.encoding.JsonBinary? then NoBody
                      else request.bodyEncoding,
      meta := request.meta.(
        requestId := id,
        jsonSid := if request.meta.sourceProtocol.JsonRpc? && request.meta.jsonSid == "" then sid
                   else request.meta.jsonSid))
  }

  /** A request that names no session of its own goes out under `sid`. */
  function WithSid(request: RpcPayload, sid: string): RpcPayload {
    if request.meta.sourceProtocol.JsonRpc? && request.meta.jsonSid == ""
    then request.(meta := request.meta.(jsonSid := sid)) else request
  }

  /** An error goes back to where the request came from, under its id and without a body. */
  lemma ErrorAnswersRequest(request: RpcPayload, code: ErrorCode)
    ensures var r := ErrorResponse(request, code);
            && r.op == REQUEST_RESPONSE && r.statusCode == code && r.body == []
            && r.requestId == request.requestId && r.methodOrEventId == request.methodOrEventId
            && r.encoding == request.encoding && r.bodyEncoding == request.bodyEncoding
            && r.meta.endpoint.src == request.meta.endpoint.dst && r.meta.endpoint.dst == request.meta.endpoint.src
            && r.meta.jsonSid == request.meta.jsonSid && r.meta.sourceProtocol == request.meta.sourceProtocol
  {
  }

  /** What a handler returns is the body of a success; a handler that throws is an error without a body. */
  lemma HandlerDecides(request: RpcPayload, handler: Handler)
    ensures var r := HandlerResponse(request, handler);
            && (r.statusCode == SUCCESS <==> handler.Returned?)
            && (handler.Returned? ==> r.body == handler.body)
            && (!handler.Returned? ==> r.body == [] && r.statusCode == INTERNAL_ERROR)
            && r.requestId == request.requestId && r.op == REQUEST_RESPONSE
            && r.meta.endpoint.src == request.meta.endpoint.dst && r.meta.endpoint.dst == request.meta.endpoint.src
  {
  }

  /** What a request carries is sent as it is; only a binary body may keep its TLV coding, and JSON-RPC gets the sid. */
  lemma NormalizedCarries(request: RpcPayload, id: uint32, sid: string)
    ensures var n := Normalized(request, id, sid);
            && n.op == REQUEST && n.requestId == id && n.meta.requestId == id
            && n.body == request.body && n.methodOrEventId == request.methodOrEventId && n.encoding == request.encoding
            && n.meta.endpoint == request.meta.endpoint && n.meta.sourceProtocol == request.meta.sourceProtocol
            && (n.bodyEncoding == Tlv8 ==> n.encoding.JsonBinary?)
            && (n.bodyEncoding != request.bodyEncoding ==> request.bodyEncoding == Tlv8 && n.bodyEncoding == NoBody)
            && (request.encoding.JsonBinary? ==> n.bodyEncoding == request.bodyEncoding)
            && (request.meta.jsonSid != "" || !request.meta.sourceProtocol.JsonRpc? ==>
                  n.meta.jsonSid == request.meta.jsonSid)
            && (request.meta.jsonSid == "" && request.meta.sourceProtocol.JsonRpc? ==> n.meta.jsonSid == sid)
  {
  }

  /** An endpoint that is named has a name, and a binary request names none. */
  lemma GoodEndpoints(request: RpcPayload)
    ensures var e := request.meta.endpoint;
            !BadEndpoint(request) <==>
            && (e.src.Some? ==> |e.src.value| > 0) && (e.dst.Some? ==> |e.dst.value| > 0)
            && (request.encoding.JsonBinary? ==> e.src.None? && e.dst.None?)
  {
  }

  lemma NormalizedWithSid(request: RpcPayload, id: uint32, first: string, sid: string)
    requires first == "" || first == sid
    ensures var n := Normalized(request, id, first); n.requestId == id && n.methodOrEventId == request.methodOrEventId
    ensures WithSid(Normalized(request, id, first), first) == Normalized(request, id, first)
    ensures WithSid(Normalized(request, id, first), sid) == Normalized(request, id, sid)
  {
  }

  /** The request can be given the id it asks for, or any if it asks for none. */
  ghost predicate Claimable(request: RpcPayload, used: set<uint32>) {
    !BadEndpoint(request) && if request.requestId == 0 then !Ids.Exhausted(used) else request.requestId !in used
  }

  /** What became of the handler of a local method. */
  datatype Handler = NotRun | HandlerThrew | Returned(body: Bytes)

  function HandlerResponse(request: RpcPayload, handler: Handler): RpcPayload {
    match handler
    case Returned(body) => ErrorResponse(request, SUCCESS).(body := body)
    case _ => ErrorResponse(request, INTERNAL_ERROR)
  }

  datatype SendOutcome = Rejected | Sent | Threw

  /** What the latest poll, hook or send did: nothing to note, an exception, or the caller's wish to stop. */
  datatype Signal = Silent | Throwing | Cancelling

  /** The one reason for which a wait ends without what it waited for. */
  ghost predicate StoppedBy(code: ErrorCode, signal: Signal, expired: bool) {
    && (signal.Throwing? <==> code == INTERNAL_ERROR)
    && (signal.Cancelling? <==> code == CANCELED)
    && (signal.Silent? <==> code == RPC_RESPONSE_TIMEOUT)
    && (signal.Silent? ==> expired)
  }

  /** At most one value was added to `s`, the one that was asked for if there was such. */
  ghost predicate Grew(s: seq<uint32>, t: seq<uint32>, wanted: Option<uint32>) {
    t == s || (|t| == |s| + 1 && t[..|s|] == s && (wanted.Some? ==> t[|s|] == wanted.value))
  }

  lemma NothingGrew(s: seq<uint32>, wanted: Option<uint32>)
    ensures Grew(s, s, wanted)
  {
  }

  lemma OneGrew(s: seq<uint32>, v: uint32, wanted: Option<uint32>)
    requires wanted.Some? ==> v == wanted.value
    ensures Grew(s, s, wanted) && Grew(s, s + [v], wanted)
  {
  }

  lemma WantedGrew(s: seq<uint32>, t: seq<uint32>, v: uint32, wanted: Option<uint32>)
    requires Grew(s, t, Some(v)) && (wanted.Some? ==> v == wanted.value)
    ensures Grew(s, t, wanted)
  {
  }

  /** How half a pass through a waiting loop ends: an exception, an early result, or neither. */
  datatype PassOutcome = Thrown | Stopped(result: AppReadyResult) | GoOn

  class AxtpClient {
    const autoOpen: bool
    const autoIdentify: bool
    const requestedHeartbeatMs: int

    var transport: Option<WireMode>
    var core: Core.AxtpCore
    var localMethods: set<uint32>
    var usedRequestIds: set<uint32>
    var nextRequestId: uint32
    var nextControlId: uint16
    var appReady: bool
    var connected: bool
    var identifyOutstanding: bool
    var sessionSid: string
    var pendingIdentifySeed: Option<uint32>
    var negotiatedHeartbeatMs: Option<uint32>
    var lastAppReady: AppReadyResult
    var lastError: ErrorCode

    var now: int
    ghost var sleeps: nat
    ghost var passes: nat
    ghost var history: History
    ghost var past: seq<History>
    ghost var earlier: seq<History>
    ghost var quiet: bool
    ghost var answer: Option<nat>
    ghost var firstDraw: uint16
    ghost var draws: nat
    ghost var openDraws: seq<nat>
    ghost var polled: Table.Calls
    ghost var inbox: seq<Core.Inbound>
    ghost var signal: Signal
    ghost var lastOpen: Option<ControlPayload>
    ghost var lastSent: Option<RpcPayload>
    ghost var beats: seq<uint16>
    ghost var openings: nat
    ghost var closings: nat

    /** The session is ready with the sid of the latest IDENTIFIED taken and the seed of the latest IDENTIFY sent. */
    ghost predicate ReadyCoherent()
      reads this`history, this`identifyOutstanding, this`pendingIdentifySeed, this`appReady, this`sessionSid,
            this`lastAppReady
    {
      && CoherentBy(history, identifyOutstanding, pendingIdentifySeed, appReady, sessionSid, lastAppReady)
      && (autoIdentify && history.requests != [] ==> appReady)
    }

    /** `reserved` are ids taken by a call that has not sent yet; `inFlight` is the call waiting for its response. */
    ghost predicate Wire(reserved: set<uint32>, inFlight: Option<uint32>)
      reads this`history, this`usedRequestIds, this`past, this`core, core.calls
    {
      WireBy(history, usedRequestIds, past, core.calls.Value(), reserved, inFlight)
    }

    /**
     Which IDENTIFY was answered. `quiet` says that, when the latest IDENTIFY was sent, no earlier one of this core
     could still be answered and no IDENTIFIED was queued; only then, and with an honest peer, is `answer` sure to be
     the latest IDENTIFY. An orderly core is always quiet when an IDENTIFY is sent.
     */
    ghost predicate Matched()
      reads this`core, this`earlier, this`history, this`identifyOutstanding, this`pendingIdentifySeed, this`appReady,
            this`lastAppReady, this`quiet, this`answer, core`sessionRpcs, core`answers, core`frames, core`nextAnswer,
            core`honest
    {
      && core.Tagged()
      && MatchedBy(core.Line(), core.honest, if identifyOutstanding then pendingIdentifySeed else None,
                   if appReady then Some(lastAppReady.randomSeed) else None, quiet, OrderlyCore(), answer)
    }

    /** No IDENTIFY send on this core threw, and no session on it was closed while it waited for an answer. */
    ghost predicate OrderlyCore()
      reads this`earlier, this`history
    {
      Orderly(earlier, history.failedIdentifies)
    }

    /** Every control id comes from the counter; `openDraws` are the draws that went to OPENs of this core. */
    ghost predicate Drawn()
      reads this`nextControlId, this`firstDraw, this`draws, this`openDraws, this`earlier, this`past, this`history
    {
      && Suffix(earlier, past)
      && DrawnFrom(firstDraw, draws, nextControlId, openDraws, AllOpens(earlier) + history.opens)
    }

    /**
     Within 2^16 draws the OPEN ids of a core are fresh, over all the sessions that used it, which is what the CONTROL
     network assumes of a client.
     */
    lemma OpenIdsAreFresh()
      requires Valid() && draws <= 0x1_0000
      ensures var opens := AllOpens(earlier) + history.opens;
              forall i, j | 0 <= i < j < |opens| :: opens[i] != opens[j]
    {
      FewDrawsAreFresh(firstDraw, draws, nextControlId, openDraws, AllOpens(earlier) + history.opens);
    }

    ghost predicate Inv(reserved: set<uint32>, inFlight: Option<uint32>)
      reads this, core, core.calls
    {
      ReadyCoherent() && Wire(reserved, inFlight) && Matched() && Drawn()
    }

    lemma InvFacts(reserved: set<uint32>, inFlight: Option<uint32>)
      requires Inv(reserved, inFlight)
      ensures appReady <==> sessionSid != ""
      ensures identifyOutstanding <==> pendingIdentifySeed.Some?
      ensures |history.identifies| + history.failedIdentifies <= history.hellos
      ensures |history.identifies| == |history.identified| + (if identifyOutstanding then 1 else 0)
      ensures forall h | h in past :: Lawful(h, None)
    {
    }

    lemma StartFacts()
      requires Inv({}, None) && history == NO_HISTORY
      ensures !appReady && !identifyOutstanding
    {
    }

    /** Holds whenever no operation is running. */
    ghost predicate Valid()
      reads this, core, core.calls
    {
      Inv({}, None)
    }

    constructor (autoOpen: bool, autoIdentify: bool, requestedHeartbeatMs: int, now: int)
      ensures Valid() && history == NO_HISTORY && past == [] && earlier == [] && transport == None && !appReady
      ensures this.autoOpen == autoOpen && this.autoIdentify == autoIdentify
      ensures this.requestedHeartbeatMs == requestedHeartbeatMs && this.now == now
      ensures nextRequestId == 1 && nextControlId == 1 && usedRequestIds == {} && localMethods == {} && !connected
      ensures lastAppReady == NO_RESULT && lastError == SUCCESS
      ensures fresh(core) && fresh(core.control) && fresh(core.calls)
    {
      this.autoOpen, this.autoIdentify, this.requestedHeartbeatMs := autoOpen, autoIdentify, requestedHeartbeatMs;
      this.transport := None;
      this.core := new Core.AxtpCore();
      this.localMethods, this.usedRequestIds, this.nextRequestId, this.nextControlId := {}, {}, 1, 1;
      this.appReady, this.connected, this.identifyOutstanding := false, false, false;
      this.sessionSid, this.pendingIdentifySeed, this.negotiatedHeartbeatMs := "", None, None;
      this.lastAppReady, this.lastError := NO_RESULT, SUCCESS;
      this.now, this.sleeps, this.passes := now, 0, 0;
      this.history, this.past, this.earlier := NO_HISTORY, [], [];
      this.quiet, this.answer, this.firstDraw, this.draws, this.openDraws := false, None, 1, 0, [];
      this.polled, this.signal, this.lastOpen, this.lastSent, this.beats := Table.NO_CALLS, Silent, None, None, [];
      this.inbox, this.openings, this.closings := [], 0, 0;
      new;
      hide MatchedBy, DrawnFrom;
      IdleIsMatched(Answers.NEW_LINE, true, false, true, None);
      NewCoreIsOrderly([]);
      NothingDrawn(1);
      assert multiset(AsSet(None)) == multiset{};
    }

    // Physical sessions.

    method Close() returns (threw: bool)
      requires Valid()
      modifies this`connected, this`appReady, this`sessionSid, this`identifyOutstanding, this`pendingIdentifySeed,
               this`negotiatedHeartbeatMs, this`usedRequestIds, this`history, this`past, this`earlier,
               this`closings, core.calls
      ensures Valid() && closings == old(closings) + if transport.Some? then 1 else 0
      ensures threw ==> transport.Some? && history == old(history) && past == old(past) && earlier == old(earlier)
      ensures threw ==> unchanged(this`connected, this`appReady, this`sessionSid, this`identifyOutstanding)
      ensures threw ==> unchanged(this`pendingIdentifySeed, this`negotiatedHeartbeatMs, this`usedRequestIds, core.calls)
      ensures !threw ==> sessionSid == "" && pendingIdentifySeed == None && negotiatedHeartbeatMs == None
      ensures !threw ==> history == NO_HISTORY && past == old(past) + [old(history)]
      ensures !threw ==> earlier == old(earlier) + [old(history)]
      ensures !threw ==> (OrderlyCore() <==> old(OrderlyCore()) && !old(identifyOutstanding))
      ensures !threw ==> !appReady && !identifyOutstanding && !connected && usedRequestIds == {}
      ensures !threw ==> core.calls.Value() == Table.NO_CALLS
      ensures core.sessionRpcs == old(core.sessionRpcs) && core.Line() == old(core.Line())
    {
      hide Wire, Matched, Drawn, ReadyCoherent;
      threw := false;
      if transport.Some? {
        closings := closings + 1;
        threw := *;
        if threw {
          return;
        }
      }
      EndSession();
    }

    /** What Close does to the client; what waits in the core stays there. */
    method EndSession()
      requires Valid()
      modifies this`connected, this`appReady, this`sessionSid, this`identifyOutstanding, this`pendingIdentifySeed,
               this`negotiatedHeartbeatMs, this`usedRequestIds, this`history, this`past, this`earlier, core.calls
      ensures Valid() && history == NO_HISTORY && past == old(past) + [old(history)]
      ensures earlier == old(earlier) + [old(history)]
      ensures OrderlyCore() <==> old(OrderlyCore()) && !old(identifyOutstanding)
      ensures !appReady && !identifyOutstanding && !connected && usedRequestIds == {}
      ensures sessionSid == "" && pendingIdentifySeed == None && negotiatedHeartbeatMs == None
      ensures core.calls.Value() == Table.NO_CALLS
    {
      hide WireBy, CoherentBy, MatchedBy, Orderly, DrawnFrom, AllOpens, Suffix, Core.AxtpCore.Line,
           Core.AxtpCore.Tagged, Table.PendingCallTable.Value, Answers.Quiet, Answers.Valid;
      ghost var pending := if identifyOutstanding then pendingIdentifySeed else None;
      ghost var ready := if appReady then Some(lastAppReady.randomSeed) else None;
      InvFacts({}, None);
      EndingMatches(core.Line(), core.honest, pending, ready, quiet, answer, earlier, history);
      EndingIsOrderly(earlier, history);
      StartIsCoherent(lastAppReady);
      EndingKeepsWire(history, usedRequestIds, past, core.calls.Value());
      EndedOpens(earlier, history);
      SuffixExtends(earlier, past, history);
      ResetSession();
    }

    method ResetSession()
      modifies this`connected, this`appReady, this`sessionSid, this`identifyOutstanding, this`pendingIdentifySeed,
               this`negotiatedHeartbeatMs, this`usedRequestIds, this`history, this`past, this`earlier, core.calls
      ensures core.calls.Value() == Table.NO_CALLS
      ensures history == NO_HISTORY && past == old(past) + [old(history)] && earlier == old(earlier) + [old(history)]
      ensures !connected && !appReady && sessionSid == "" && !identifyOutstanding
      ensures pendingIdentifySeed == None && negotiatedHeartbeatMs == None && usedRequestIds == {}
    {
      connected, appReady, sessionSid, identifyOutstanding := false, false, "", false;
      pendingIdentifySeed, negotiatedHeartbeatMs, usedRequestIds := None, None, {};
      past, earlier, history := past + [history], earlier + [history], NO_HISTORY;
      core.calls.Reset();
    }

    /** A new physical session gets a new core, with empty queues and no calls; no session has used it before. */
    method ReplaceCore(newTransport: Option<WireMode>)
      requires Valid() && history == NO_HISTORY
      modifies this`transport, this`negotiatedHeartbeatMs, this`core, this`earlier, this`firstDraw, this`draws,
               this`openDraws
      ensures Valid() && fresh(core) && fresh(core.control) && fresh(core.calls) && core.honest
      ensures core.sessionRpcs == [] && core.controlNotices == []
      ensures earlier == [] && draws == 0 && transport == newTransport && negotiatedHeartbeatMs == None
    {
      hide WireBy, CoherentBy, MatchedBy, Orderly, DrawnFrom, AllOpens, Suffix, Core.AxtpCore.Line,
           Core.AxtpCore.Tagged, Table.PendingCallTable.Value;
      StartFacts();
      IdleIsMatched(Answers.NEW_LINE, true, quiet, true, answer);
      NewCoreIsOrderly(past);
      NewCoreHasNoCalls(usedRequestIds, past, core.calls.Value());
      NothingDrawn(nextControlId);
      InstallCore(newTransport);
    }

    method InstallCore(newTransport: Option<WireMode>)
      modifies this`transport, this`negotiatedHeartbeatMs, this`core, this`earlier, this`firstDraw, this`draws,
               this`openDraws
      ensures transport == newTransport && negotiatedHeartbeatMs == None
      ensures earlier == [] && firstDraw == nextControlId && draws == 0 && openDraws == []
      ensures fresh(core) && fresh(core.control) && fresh(core.calls)
      ensures core.Tagged() && core.Line() == Answers.NEW_LINE && core.honest
      ensures core.calls.Value() == Table.NO_CALLS && core.sessionRpcs == [] && core.controlNotices == []
    {
      earlier, firstDraw, draws, openDraws := [], nextControlId, 0, [];
      transport, negotiatedHeartbeatMs := newTransport, None;
      core := new Core.AxtpCore();
    }

    method AttachTransport(newTransport: Option<WireMode>) returns (threw: bool)
      requires Valid()
      modifies this`connected, this`appReady, this`sessionSid, this`identifyOutstanding, this`pendingIdentifySeed,
               this`negotiatedHeartbeatMs, this`usedRequestIds, this`history, this`past, this`earlier, this`transport,
               this`core, this`firstDraw, this`draws, this`openDraws, this`openings, this`closings, core.calls
      ensures Valid() && closings == old(closings) + if old(transport).Some? then 1 else 0
      ensures core == old(core) ==> threw && openings == old(openings) && transport == old(transport)
      ensures core != old(core) ==> openings == old(openings) + if newTransport.Some? && autoOpen then 1 else 0
      ensures threw && core != old(core) ==> newTransport.Some? && autoOpen && !connected
      ensures core == old(core) || (fresh(core) && fresh(core.control) && fresh(core.calls))
      ensures core != old(core) ==> history == NO_HISTORY && !appReady && usedRequestIds == {}
      ensures core != old(core) ==> transport == newTransport && earlier == [] && draws == 0 && core.honest
      ensures !threw ==> core != old(core) && connected == newTransport.Some?
    {
      hide Wire, Matched, Drawn, ReadyCoherent;
      threw := Close();
      if threw {
        return;
      }
      ReplaceCore(newTransport);
      threw := OpenTransport();
    }

    method OpenTransport() returns (threw: bool)
      modifies this`connected, this`openings
      ensures connected == (if transport.Some? && !threw then true else old(connected))
      ensures openings == old(openings) + if transport.Some? && autoOpen then 1 else 0
      ensures threw ==> transport.Some? && autoOpen
    {
      threw := false;
      if transport.Some? {
        if autoOpen {
          openings := openings + 1;
          threw := *;
          if threw {
            return;
          }
        }
        connected := true;
      }
    }

    // The environment.

    /**
     The peer's answers are tagged arbitrarily; whether they fit an honest peer is recorded by the core. `polled` is
     the response table as the latest poll left it.
     */
    method Poll(ghost reserved: set<uint32>, ghost inFlight: Option<uint32>) returns (threw: bool)
      requires Inv(reserved, inFlight)
      modifies this`now, this`polled, this`inbox, this`signal, core, core.control, core.calls
      ensures Inv(reserved, inFlight) && now >= old(now) && polled == core.calls.Value()
      ensures core.frames == old(core.frames) && signal == if threw then Throwing else Silent
      ensures core.calls.Value() == Core.CallsAfter(old(core.calls.Value()), inbox)
      ensures core.control.Value() == Core.ControlAfter(old(core.control.Value()), inbox)
      ensures core.sessionRpcs == old(core.sessionRpcs) + Core.SessionsIn(inbox)
      ensures core.controlNotices == old(core.controlNotices) + Core.NoticesIn(inbox)
    {
      hide Core.CallsAfter, Core.ControlAfter, Core.SessionsIn, Core.NoticesIn;
      hide WireBy, Elements, Core.Tracks, ReadyCoherent, Drawn, MatchedBy, Orderly, Core.AxtpCore.Line,
           Core.AxtpCore.Tagged, Table.PendingCallTable.Value, Answers.Quiet, Answers.Valid;
      ghost var calls := core.calls.Value();
      TrackingIsEnough(history, usedRequestIds, past, calls, calls, reserved, inFlight);
      var inbound: seq<Core.Inbound> := *;
      assert |seq(|inbound|, i => 0)| == |inbound|;
      ghost var tags: seq<nat> :| |tags| == |inbound|;
      ghost var line, honest := core.Line(), core.honest;
      ghost var pending := if identifyOutstanding then pendingIdentifySeed else None;
      ghost var ready := if appReady then Some(lastAppReady.randomSeed) else None;
      ghost var arrived := core.Receive(inbound, Elements(history.requests) - AsSet(inFlight), inFlight, tags);
      ArrivalsMatch(line, honest, arrived, pending, ready, quiet, OrderlyCore(), answer);
      TrackingIsEnough(history, usedRequestIds, past, calls, core.calls.Value(), reserved, inFlight);
      threw := EndPoll(inbound);
    }

    method EndPoll(inbound: seq<Core.Inbound>) returns (threw: bool)
      modifies this`now, this`polled, this`inbox, this`signal
      ensures inbox == inbound
      ensures now >= old(now) && polled == core.calls.Value() && signal == if threw then Throwing else Silent
    {
      polled, inbox := core.calls.Value(), inbound;
      var elapsed: nat :| 0 <= elapsed;
      now := now + elapsed;
      threw := *;
      signal := if threw then Throwing else Silent;
    }

    method InvokeProgress() returns (status: Option<ErrorCode>)
      modifies this`now, this`signal
      ensures now >= old(now) && !signal.Cancelling?
      ensures status == if signal.Throwing? then Some(INTERNAL_ERROR) else None
    {
      var elapsed: nat :| 0 <= elapsed;
      var threw: bool := *;
      now := now + elapsed;
      signal := if threw then Throwing else Silent;
      status := if threw then Some(INTERNAL_ERROR) else None;
    }

    method InvokeCancellation() returns (status: Option<ErrorCode>)
      modifies this`now, this`signal
      ensures now >= old(now)
      ensures status == if signal.Throwing? then Some(INTERNAL_ERROR)
                        else if signal.Cancelling? then Some(CANCELED) else None
    {
      var elapsed: nat :| 0 <= elapsed;
      var threw: bool, cancelled: bool := *, *;
      now := now + elapsed;
      signal := if threw then Throwing else if cancelled then Cancelling else Silent;
      status := if threw then Some(INTERNAL_ERROR) else if cancelled then Some(CANCELED) else None;
    }

    method Sleep()
      modifies this`now, this`sleeps
      ensures now >= old(now) + MS && sleeps == old(sleeps) + 1
    {
      var longer: nat :| 0 <= longer;
      now := now + MS + longer;
      sleeps := sleeps + 1;
    }

    // Request ids.

    method AllocateRequestId() returns (ok: bool, id: uint32)
      modifies this`usedRequestIds, this`nextRequestId
      ensures ok <==> !Ids.Exhausted(old(usedRequestIds))
      ensures ok ==> Ids.IsFirstUnused(old(usedRequestIds), old(nextRequestId), id)
      ensures ok ==> id != 0 && id !in old(usedRequestIds)
      ensures ok ==> usedRequestIds == old(usedRequestIds) + {id} && nextRequestId == (id as int + 1) % 0x1_0000_0000
      ensures !ok ==> unchanged(this) && id == 0
    {
      hide Ids.Candidate;
      var first: uint32 := Ids.FirstCandidate(nextRequestId);
      Ids.CandidateStart(first);
      var candidate := first;
      ghost var k := 0;
      while true
        invariant k < Ids.ID_COUNT && candidate == Ids.Candidate(first, k)
        invariant forall j: nat | j < k :: Ids.Candidate(first, j) in usedRequestIds
        invariant unchanged(this)
        decreases Ids.ID_COUNT - k
      {
        if candidate !in usedRequestIds {
          usedRequestIds := usedRequestIds + {candidate};
          nextRequestId := (candidate as int + 1) % 0x1_0000_0000;
          return true, candidate;
        }
        Ids.CandidateStep(first, k);
        candidate := (candidate as int + 1) % 0x1_0000_0000;
        if candidate == 0 {
          candidate := 1;
        }
        k := k + 1;
        if candidate == first {
          Ids.ExhaustedByOneRound(usedRequestIds, first);
          return false, 0;
        }
      }
    }

    /** Takes an id that no request of this session has used: the caller's own, or the next free one. */
    method ClaimRequestId(wanted: uint32) returns (ok: bool, id: uint32)
      requires Valid()
      modifies this`usedRequestIds, this`nextRequestId
      ensures ok <==> if wanted == 0 then !Ids.Exhausted(old(usedRequestIds)) else wanted !in old(usedRequestIds)
      ensures !ok ==> Valid() && usedRequestIds == old(usedRequestIds)
      ensures ok ==> Inv({id}, None) && id != 0 && usedRequestIds == old(usedRequestIds) + {id}
      ensures ok ==> id !in old(usedRequestIds) && id !in history.requests
      ensures ok ==> if wanted == 0 then Ids.IsFirstUnused(old(usedRequestIds), old(nextRequestId), id)
                     else id == wanted
    {
      hide Ids.IsFirstUnused, Ids.Exhausted, Core.Tracks, Lawful, ReadyCoherent, Matched, Drawn;
      if wanted == 0 {
        ok, id := AllocateRequestId();
      } else if wanted in usedRequestIds {
        ok, id := false, 0;
      } else {
        ok, id := true, wanted;
        usedRequestIds := usedRequestIds + {id};
      }
    }

    /** Claims an id for `request` and completes it; the claimed id is reserved until it is sent or released. */
    method NormalizeRequest(request: RpcPayload) returns (ok: bool, normalized: RpcPayload)
      requires Valid()
      modifies this`usedRequestIds, this`nextRequestId
      ensures ok <==> !BadEndpoint(request) && (if request.requestId == 0 then !Ids.Exhausted(old(usedRequestIds))
                                                else request.requestId !in old(usedRequestIds))
      ensures !ok ==> Valid() && normalized == request && usedRequestIds == old(usedRequestIds)
      ensures ok ==> Inv({normalized.requestId}, None) && usedRequestIds == old(usedRequestIds) + {normalized.requestId}
      ensures ok ==> normalized.requestId !in old(usedRequestIds) && normalized.requestId != 0
      ensures ok ==> if request.requestId == 0
                     then Ids.IsFirstUnused(old(usedRequestIds), old(nextRequestId), normalized.requestId)
                     else normalized.requestId == request.requestId
      ensures ok ==> normalized == Normalized(request, normalized.requestId, sessionSid)
    {
      hide Wire, Matched, Drawn, Ids.IsFirstUnused, Ids.Exhausted;
      if BadEndpoint(request) {
        return false, request;
      }
      var id: uint32;
      ok, id := ClaimRequestId(request.requestId);
      if !ok {
        return false, request;
      }
      normalized := request.(requestId := id, op := REQUEST);
      if normalized.bodyEncoding == Tlv8 && !normalized.encoding.JsonBinary? {
        normalized := normalized.(bodyEncoding := BodyEncodingFor(normalized.encoding));
      }
      normalized := normalized.(meta := normalized.meta.(requestId := id));
      if normalized.meta.sourceProtocol.JsonRpc? && normalized.meta.jsonSid == "" && appReady && sessionSid != "" {
        normalized := normalized.(meta := normalized.meta.(jsonSid := sessionSid));
      }
    }

    method ReleaseUnsentRequestId(id: uint32)
      requires Inv({id}, None)
      modifies this`usedRequestIds
      ensures Valid() && usedRequestIds == old(usedRequestIds) - {id}
    {
      usedRequestIds := usedRequestIds - {id};
    }

    // The handshake.

    method Fail(result: AppReadyResult) returns (failed: AppReadyResult)
      requires !appReady && ReadyCoherent() && Matched()
      modifies this`lastAppReady, this`lastError
      ensures ReadyCoherent() && Matched()
      ensures failed == result && lastAppReady == result && lastError == result.statusCode
    {
      hide MatchedBy;
      failed := result;
      lastAppReady, lastError := result, result.statusCode;
    }

    /** The first half of a pass: poll, then the progress hook. */
    method BeginPass(result: AppReadyResult, stage: Stage, ghost reserved: set<uint32>) returns (outcome: PassOutcome)
      requires Inv(reserved, None) && !appReady
      modifies this`now, this`passes, this`polled, this`inbox, this`signal, this`lastAppReady, this`lastError, core,
               core.control, core.calls
      ensures Inv(reserved, None) && now >= old(now) && passes == old(passes) + 1
      ensures core.frames == old(core.frames)
      ensures signal == if outcome.GoOn? then Silent else Throwing
      ensures !outcome.Stopped? ==> lastAppReady == old(lastAppReady) && lastError == old(lastError)
      ensures outcome.Stopped? ==>
                && outcome.result == result.(statusCode := INTERNAL_ERROR, stage := stage)
                && lastAppReady == outcome.result && lastError == INTERNAL_ERROR
    {
      hide Wire, Matched, Drawn, ReadyCoherent;
      passes := passes + 1;
      var threw := Poll(reserved, None);
      if threw {
        return Thrown;
      }
      var status := InvokeProgress();
      if status.Some? {
        var failed := Fail(result.(statusCode := status.value, stage := stage));
        return Stopped(failed);
      }
      return GoOn;
    }

    /** The second half: the cancellation hook, the deadline, and a sleep. */
    method EndPass(result: AppReadyResult, stage: Stage, deadline: int, ghost start: int, ghost sleeps0: nat)
      returns (outcome: PassOutcome)
      requires !appReady && ReadyCoherent() && Matched() && WithinBudget(start, sleeps0, deadline, now, sleeps)
      modifies this`now, this`sleeps, this`signal, this`lastAppReady, this`lastError
      ensures ReadyCoherent() && Matched()
      ensures WithinBudget(start, sleeps0, deadline, now, sleeps) && now >= old(now)
      ensures !outcome.Thrown? && sleeps >= old(sleeps)
      ensures outcome.GoOn? ==> lastAppReady == old(lastAppReady) && lastError == old(lastError)
      ensures outcome.GoOn? ==> sleeps == old(sleeps) + 1 && old(now) < deadline && now >= old(now) + MS
      ensures outcome.Stopped? ==>
                && StoppedBy(outcome.result.statusCode, signal, now >= deadline)
                && outcome.result.statusCode in {INTERNAL_ERROR, CANCELED, RPC_RESPONSE_TIMEOUT}
                && outcome.result == result.(statusCode := outcome.result.statusCode, stage := stage)
                && lastAppReady == outcome.result && lastError == outcome.result.statusCode && sleeps == old(sleeps)
    {
      hide ReadyCoherent, Matched;
      var status := InvokeCancellation();
      if status.Some? {
        var failed := Fail(result.(statusCode := status.value, stage := stage));
        return Stopped(failed);
      }
      if now >= deadline {
        var failed := Fail(result.(statusCode := RPC_RESPONSE_TIMEOUT, stage := stage));
        return Stopped(failed);
      }
      Sleep();
      return GoOn;
    }

    lemma IdleFacts(reserved: set<uint32>)
      requires Inv(reserved, None) && !identifyOutstanding && !appReady
      ensures pendingIdentifySeed == None && sessionSid == ""
    {
    }

    lemma PendingFacts(reserved: set<uint32>)
      requires Inv(reserved, None) && identifyOutstanding && !appReady
      ensures history.identifies != [] && pendingIdentifySeed == Some(Last(history.identifies)) && sessionSid == ""
    {
    }

    ghost predicate NothingQueued(op: RpcOp)
      reads this`core, core`sessionRpcs
    {
      core.NothingQueued(op)
    }

    ghost predicate NoNotice(opcode: ControlOpcode, id: uint16)
      reads this`core, core`controlNotices
    {
      forall p | p in core.controlNotices :: p.opcode != opcode || p.controlId != id
    }

    /**
     A failed wait ended for the reason it reports, the deadline included, and if nothing threw it left nothing in the
     queues that it was waiting for.
     */
    ghost predicate FairlyStopped(result: AppReadyResult, deadline: int)
      reads this`core, this`history, this`now, this`signal, core`sessionRpcs, core`controlNotices
    {
      && (result.stage in {ControlAccept, Hello, Identified} && result.statusCode != RPC_PAYLOAD_INVALID ==>
            StoppedBy(result.statusCode, signal, now >= deadline) && (signal.Throwing? || NothingMissed(result.stage)))
      && (result.stage == Callback ==> signal.Throwing? && result.statusCode == INTERNAL_ERROR)
    }

    ghost predicate NothingMissed(stage: Stage)
      reads this`core, this`history, core`sessionRpcs, core`controlNotices
    {
      && (stage == Identified ==> NothingQueued(IDENTIFIED))
      && (stage == Hello ==> NothingQueued(HELLO))
      && (stage == ControlAccept ==> history.opens != [] && NoNotice(ACCEPT, Last(history.opens)))
    }

    lemma ThrowingStops(expired: bool)
      requires signal.Throwing?
      ensures StoppedBy(INTERNAL_ERROR, signal, expired)
    {
    }

    lemma NoWaitStopped(result: AppReadyResult, deadline: int)
      requires result.stage !in {ControlAccept, Hello, Callback}
      requires result.stage == Identified ==> result.statusCode == RPC_PAYLOAD_INVALID
      ensures FairlyStopped(result, deadline)
    {
    }

    lemma WaitStopped(result: AppReadyResult, deadline: int)
      requires StoppedBy(result.statusCode, signal, now >= deadline)
      requires result.stage == Callback ==> signal.Throwing?
      requires signal.Throwing? || NothingMissed(result.stage)
      ensures FairlyStopped(result, deadline)
    {
    }

    /** With an honest peer, the answer on an orderly core, or to an IDENTIFY sent on a quiet one, is to the latest. */
    ghost predicate AnswersItsSeed(seed: uint32)
      reads this`core, this`earlier, this`history, this`quiet, this`answer, core`frames, core`honest
    {
      (OrderlyCore() || quiet) && core.honest ==>
        && answer.Some? && answer.value == |core.frames| - 1 && answer.value < |core.frames|
        && core.frames[answer.value] == seed
    }

    lemma ReadyAnswers(reserved: set<uint32>)
      requires Inv(reserved, None) && appReady
      ensures AnswersItsSeed(lastAppReady.randomSeed) && lastAppReady.randomSeed == Last(history.identifies)
    {
    }

    method TakeNotice(opcode: ControlOpcode, id: uint16, ghost reserved: set<uint32>)
        returns (notice: Option<ControlPayload>)
      requires Inv(reserved, None)
      modifies core`controlNotices
      ensures Inv(reserved, None)
      ensures notice.Some? ==> notice.value.opcode == opcode && notice.value.controlId == id
      ensures notice.None? <==> old(NoNotice(opcode, id))
      ensures notice.None? ==> NoNotice(opcode, id)
    {
      hide Wire, Matched, Drawn, ReadyCoherent, Core.FirstNotice;
      notice := core.TryTakeControlNotice(opcode, id);
    }

    method TakeHello(ghost reserved: set<uint32>) returns (hello: Option<RpcPayload>)
      requires Inv(reserved, None) && !identifyOutstanding && !appReady
      modifies this`history, core`sessionRpcs, core`answers
      ensures Inv(reserved, None)
      ensures hello.None? <==> old(NothingQueued(HELLO))
      ensures hello.None? ==> NothingQueued(HELLO)
      ensures history == old(history).(hellos := old(history).hellos + if hello.Some? then 1 else 0)
    {
      hide WireBy, CoherentBy, MatchedBy, Orderly, DrawnFrom, AllOpens, Suffix, Core.AxtpCore.Line,
           Core.AxtpCore.Tagged, Table.PendingCallTable.Value, Core.AxtpCore.NothingQueued, Core.FirstWith,
           Core.Remaining, Answers.Turned, Answers.Quiet, Answers.Valid;
      IdleFacts(reserved);
      HandshakeKeepsWire(history, usedRequestIds, past, core.calls.Value(), reserved, 0, "", 0);
      SendingIsCoherent(history, lastAppReady, history.(hellos := history.hellos + 1), 0);
      ghost var line := core.Line();
      ghost var tag, turned;
      MatchedFacts(line, core.honest, None, None, quiet, OrderlyCore(), answer);
      hello, tag, turned := core.TryTakeSessionRpc(HELLO);
      if hello.Some? {
        Answers.TurningKeeps(line, turned);
        IdleIsMatched(core.Line(), core.honest, quiet, OrderlyCore(), answer);
        history := history.(hellos := history.hellos + 1);
      }
    }

    /** Takes the first queued IDENTIFIED; `tag` is the IDENTIFY it answers. */
    method TakeIdentified(ghost reserved: set<uint32>) returns (identified: Option<RpcPayload>, ghost tag: nat)
      requires Inv(reserved, None) && identifyOutstanding && !appReady
      modifies core`sessionRpcs, core`answers
      ensures Inv(reserved, None)
      ensures identified.None? <==> old(NothingQueued(IDENTIFIED))
      ensures identified.None? ==> NothingQueued(IDENTIFIED)
      ensures identified.Some? ==> old(core.Line()).queued != [] && tag == old(core.Line()).queued[0]
      ensures identified.Some? && (OrderlyCore() || quiet) && core.honest ==> tag == |core.Line().frames| - 1
      ensures identified.Some? && OrderlyCore() && core.honest ==> Answers.Quiet(core.Line())
    {
      hide WireBy, CoherentBy, MatchedBy, Orderly, DrawnFrom, AllOpens, Suffix, Core.AxtpCore.Line,
           Core.AxtpCore.Tagged, Table.PendingCallTable.Value, Answers.Quiet, Answers.Valid;
      PendingFacts(reserved);
      ghost var line := core.Line();
      ghost var turned;
      identified, tag, turned := core.TryTakeSessionRpc(IDENTIFIED);
      if identified.Some? {
        TakingMatches(line, core.honest, pendingIdentifySeed.value, quiet, OrderlyCore(), answer);
      }
    }

    /** Consumes the answer to the outstanding IDENTIFY; an empty sid is a failure. */
    method AcceptIdentified(waiting: AppReadyResult, sid: string, ghost reserved: set<uint32>, ghost tag: nat)
        returns (result: AppReadyResult)
      requires Inv(reserved, None) && identifyOutstanding && !appReady
      requires waiting.hasRandomSeed && Some(waiting.randomSeed) == pendingIdentifySeed
      requires (OrderlyCore() || quiet) && core.honest ==> tag == |core.Line().frames| - 1
      requires OrderlyCore() && core.honest ==> Answers.Quiet(core.Line())
      modifies this`appReady, this`sessionSid, this`identifyOutstanding, this`pendingIdentifySeed,
               this`lastAppReady, this`lastError, this`history, this`answer
      ensures answer == Some(tag)
      ensures Inv(reserved, None) && !identifyOutstanding && (appReady <==> sid != "")
      ensures history == old(history).(identified := old(history).identified + [sid])
      ensures result == if sid != "" then waiting.(ok := true, statusCode := SUCCESS, stage := AppReady, sid := sid)
                        else waiting.(statusCode := RPC_PAYLOAD_INVALID)
      ensures lastAppReady == result && lastError == result.statusCode && (appReady ==> sessionSid == sid)
    {
      hide WireBy, CoherentBy, MatchedBy, Orderly, DrawnFrom, AllOpens, Suffix, Core.AxtpCore.Line,
           Core.AxtpCore.Tagged, Table.PendingCallTable.Value, Answers.Quiet, Answers.Valid;
      PendingFacts(reserved);
      AcceptingIsCoherent(history, pendingIdentifySeed, lastAppReady, sid, waiting);
      HandshakeKeepsWire(history, usedRequestIds, past, core.calls.Value(), reserved, 0, sid, 0);
      AcceptingMatches(core.Line(), core.honest, waiting.randomSeed, quiet, OrderlyCore(), answer, tag);
      result := if sid != "" then waiting.(ok := true, statusCode := SUCCESS, stage := AppReady, sid := sid)
                else waiting.(statusCode := RPC_PAYLOAD_INVALID);
      StoreAnswer(result, sid, tag);
    }

    method StoreAnswer(result: AppReadyResult, sid: string, ghost tag: nat)
      modifies this`appReady, this`sessionSid, this`identifyOutstanding, this`pendingIdentifySeed,
               this`lastAppReady, this`lastError, this`history, this`answer
      ensures !identifyOutstanding && pendingIdentifySeed == None && answer == Some(tag)
      ensures history == old(history).(identified := old(history).identified + [sid])
      ensures lastAppReady == result && lastError == result.statusCode
      ensures if sid != "" then appReady && sessionSid == sid
              else appReady == old(appReady) && sessionSid == old(sessionSid)
    {
      identifyOutstanding, pendingIdentifySeed, answer := false, None, Some(tag);
      history := history.(identified := history.identified + [sid]);
      if sid != "" {
        sessionSid, appReady := sid, true;
      }
      lastAppReady, lastError := result, result.statusCode;
    }

    /** Consumes the answer to the outstanding IDENTIFY if it is there; `waiting` is what is known so far. */
    method TakeAnswer(waiting: AppReadyResult, ghost deadline: int, ghost reserved: set<uint32>)
        returns (result: Option<AppReadyResult>)
      requires Inv(reserved, None) && identifyOutstanding && !appReady
      requires waiting.hasRandomSeed && Some(waiting.randomSeed) == pendingIdentifySeed
      requires waiting.stage == Identified && !waiting.ok
      modifies this`appReady, this`sessionSid, this`identifyOutstanding, this`pendingIdentifySeed,
               this`lastAppReady, this`lastError, this`history, this`answer, core`sessionRpcs, core`answers
      ensures Inv(reserved, None) && core.frames == old(core.frames)
      ensures result.None? ==>
                && NothingQueued(IDENTIFIED) && history == old(history) && lastAppReady == old(lastAppReady)
                && identifyOutstanding && !appReady && pendingIdentifySeed == old(pendingIdentifySeed)
      ensures result.Some? ==>
                && !identifyOutstanding && history.identified != old(history).identified
                && history.(identified := []) == old(history).(identified := [])
                && lastAppReady == result.value && lastError == result.value.statusCode
                && FairlyStopped(result.value, deadline)
                && result.value == waiting.(ok := appReady, sid := result.value.sid,
                     statusCode := if appReady then SUCCESS else RPC_PAYLOAD_INVALID,
                     stage := if appReady then AppReady else Identified)
                && (appReady ==> result.value.sid == sessionSid && AnswersItsSeed(waiting.randomSeed))
    {
      hide Wire, Matched, Drawn, ReadyCoherent, AnswersItsSeed, FairlyStopped;
      var identified, tag := TakeIdentified(reserved);
      if identified.None? {
        return None;
      }
      var accepted := AcceptIdentified(waiting, identified.value.meta.jsonSid, reserved, tag);
      NoWaitStopped(accepted, deadline);
      if appReady {
        ReadyAnswers(reserved);
      }
      return Some(accepted);
    }

    /** Waits for the answer to the one outstanding IDENTIFY. */
    method WaitForIdentified(deadline: int, ghost reserved: set<uint32>, ghost start: int, ghost sleeps0: nat)
      returns (result: AppReadyResult, threw: bool)
      requires Inv(reserved, None) && identifyOutstanding && !appReady
      requires WithinBudget(start, sleeps0, deadline, now, sleeps)
      modifies this`now, this`sleeps, this`passes, this`polled, this`inbox, this`signal, this`appReady,
               this`sessionSid, this`identifyOutstanding, this`pendingIdentifySeed, this`lastAppReady,
               this`lastError, this`history, this`answer, core, core.control, core.calls
      ensures Inv(reserved, None) && WithinBudget(start, sleeps0, deadline, now, sleeps) && now >= old(now)
      ensures sleeps >= old(sleeps) && passes - old(passes) == sleeps - old(sleeps) + 1
      ensures core.frames == old(core.frames)
      ensures threw ==> signal.Throwing?
      ensures !threw ==> FairlyStopped(result, deadline) && (result.ok ==> AnswersItsSeed(result.randomSeed))
      ensures !threw ==> result.stage == if result.ok then AppReady else Identified
      ensures history.(identified := []) == old(history).(identified := [])
      ensures if threw then !appReady && lastAppReady == old(lastAppReady)
              else lastAppReady == result && lastError == result.statusCode && (result.ok <==> appReady)
      ensures !threw ==> result.hasRandomSeed && result.randomSeed == Last(history.identifies)
      ensures !threw ==> (result.ok <==> result.statusCode == SUCCESS) && (result.ok ==> result.sid == sessionSid)
      ensures identifyOutstanding <==> history.identified == old(history).identified
    {
      hide Wire, Matched, Drawn, ReadyCoherent, WithinBudget, FairlyStopped, StoppedBy, NothingQueued,
           AnswersItsSeed;
      PendingFacts(reserved);
      threw := false;
      result := NO_RESULT.(stage := Identified, hasRandomSeed := pendingIdentifySeed.Some?,
                           randomSeed := pendingIdentifySeed.GetOr(0));
      while true
        invariant Inv(reserved, None) && identifyOutstanding && !appReady
        invariant WithinBudget(start, sleeps0, deadline, now, sleeps) && now >= old(now)
        invariant sleeps >= old(sleeps) && passes - old(passes) == sleeps - old(sleeps)
        invariant unchanged(this`history) && unchanged(this`pendingIdentifySeed) && unchanged(this`lastAppReady)
        invariant core.frames == old(core.frames)
        decreases if now < deadline then deadline - now else 0
      {
        ghost var before := now;
        var begun := BeginPass(result, Identified, reserved);
        BudgetAllowsWaiting(start, sleeps0, deadline, before, now, sleeps);
        if !begun.GoOn? {
          if begun.Stopped? {
            ThrowingStops(now >= deadline);
            WaitStopped(begun.result, deadline);
          }
          return if begun.Thrown? then result else begun.result, begun.Thrown?;
        }
        var answered := TakeAnswer(result, deadline, reserved);
        if answered.Some? {
          return answered.value, false;
        }
        var ended := EndPass(result, Identified, deadline, start, sleeps0);
        if ended.Stopped? {
          WaitStopped(ended.result, deadline);
          return ended.result, false;
        }
      }
    }

    // Frames the handshake sends. A send may throw after the frame has left.

    method SendControlOpen(ghost reserved: set<uint32>) returns (threw: bool, id: uint16)
      requires Inv(reserved, None) && !identifyOutstanding && !appReady
      modifies this`nextControlId, this`history, this`draws, this`openDraws, this`signal, this`lastOpen,
               core.control
      ensures lastOpen == Some(Control.OpenPayload(id, old(core.control.requestedHeartbeatMs)))
      ensures signal == if threw then Throwing else Silent
      ensures Inv(reserved, None) && draws == old(draws) + 1
      ensures id == old(nextControlId) && nextControlId == (id as int + 1) % 0x1_0000
      ensures core.control.Value() == Control.AfterOpen(old(core.control.Value()), id)
      ensures history == old(history).(opens := old(history).opens + [id])
    {
      hide WireBy, CoherentBy, MatchedBy, Orderly, DrawnFrom, AllOpens, Suffix, Core.AxtpCore.Line,
           Core.AxtpCore.Tagged, Table.PendingCallTable.Value, Control.AfterOpen, Network.AllocatedId;
      IdleFacts(reserved);
      HandshakeKeepsWire(history, usedRequestIds, past, core.calls.Value(), reserved, nextControlId, "", 0);
      SendingIsCoherent(history, lastAppReady, history.(opens := history.opens + [nextControlId]), 0);
      DrawKeeps(firstDraw, draws, nextControlId, openDraws, AllOpens(earlier) + history.opens);
      assert AllOpens(earlier) + history.opens + [nextControlId] ==
             AllOpens(earlier) + (history.opens + [nextControlId]);
      threw, id := SendOpen();
    }

    method SendOpen() returns (threw: bool, id: uint16)
      modifies this`nextControlId, this`history, this`draws, this`openDraws, this`signal, this`lastOpen,
               core.control
      ensures lastOpen == Some(Control.OpenPayload(id, old(core.control.requestedHeartbeatMs)))
      ensures signal == if threw then Throwing else Silent
      ensures id == old(nextControlId) && nextControlId == (id as int + 1) % 0x1_0000
      ensures draws == old(draws) + 1 && openDraws == old(openDraws) + [old(draws)]
      ensures core.control.Value() == Control.AfterOpen(old(core.control.Value()), id)
      ensures history == old(history).(opens := old(history).opens + [id])
    {
      id := nextControlId;
      nextControlId := (nextControlId as int + 1) % 0x1_0000;
      var open := core.control.MakeOpen(id);
      history := history.(opens := history.opens + [id]);
      openDraws, draws, lastOpen := openDraws + [draws], draws + 1, Some(open);
      threw := *;
      signal := if threw then Throwing else Silent;
    }

    /** A send that returned marks the IDENTIFY outstanding; one that threw may still have let it leave. */
    method SendIdentify(seed: uint32) returns (threw: bool, ghost left: bool)
      requires core.Tagged()
      modifies this`history, this`identifyOutstanding, this`pendingIdentifySeed, this`quiet, this`signal,
               core`frames
      ensures core.frames == old(core.frames) + (if left then [seed] else [])
      ensures signal == if threw then Throwing else Silent
      ensures history == if threw then old(history).(failedIdentifies := old(history).failedIdentifies + 1)
                         else old(history).(identifies := old(history).identifies + [seed])
      ensures identifyOutstanding == (old(identifyOutstanding) || !threw)
      ensures pendingIdentifySeed == if threw then old(pendingIdentifySeed) else Some(seed)
      ensures !threw ==> left
      ensures core.Line() == if left then Answers.Sent(old(core.Line()), seed) else old(core.Line())
      ensures quiet <==> Answers.Quiet(old(core.Line()))
    {
      hide Core.Tags;
      quiet := Answers.Quiet(core.Line());
      threw := *;
      left := *;
      left := left || !threw;
      signal := if threw then Throwing else Silent;
      if left {
        core.LetIdentifyLeave(seed);
      }
      if threw {
        history := history.(failedIdentifies := history.failedIdentifies + 1);
      } else {
        history := history.(identifies := history.identifies + [seed]);
        identifyOutstanding, pendingIdentifySeed := true, Some(seed);
      }
    }

    /** Takes the ACCEPT of this control id if it is there: the control session is open, or it was rejected. */
    method TakeAccept(controlId: uint16, ghost deadline: int, ghost reserved: set<uint32>)
        returns (accepted: Option<(PassOutcome, ControlPayload)>)
      requires Inv(reserved, None) && !identifyOutstanding && !appReady
      modifies this`lastAppReady, this`lastError, this`negotiatedHeartbeatMs, core`controlNotices
      ensures Inv(reserved, None)
      ensures accepted.None? ==>
                NoNotice(ACCEPT, controlId) && unchanged(this`lastAppReady, this`lastError, this`negotiatedHeartbeatMs)
      ensures accepted.Some? ==>
                var outcome, notice := accepted.value.0, accepted.value.1;
                && !outcome.Thrown? && notice.opcode == ACCEPT && notice.controlId == controlId
                && (outcome.GoOn? <==> notice.statusCode == SUCCESS && core.control.open)
                && (outcome.GoOn? ==> negotiatedHeartbeatMs == core.control.Value().NegotiatedHeartbeatMs())
                && (outcome.Stopped? ==>
                      && lastAppReady == outcome.result && lastError == outcome.result.statusCode
                      && FairlyStopped(outcome.result, deadline)
                      && outcome.result == NO_RESULT.(stage := ControlOpen, statusCode :=
                           if notice.statusCode == SUCCESS then CONTROL_OPEN_REJECTED else notice.statusCode))
    {
      hide Wire, Matched, Drawn, ReadyCoherent, NoNotice, FairlyStopped;
      var accept := TakeNotice(ACCEPT, controlId, reserved);
      if accept.None? {
        return None;
      }
      if accept.value.statusCode == SUCCESS && core.control.open {
        negotiatedHeartbeatMs := core.control.Value().NegotiatedHeartbeatMs();
        return Some((GoOn, accept.value));
      }
      var status := if accept.value.statusCode == SUCCESS then CONTROL_OPEN_REJECTED else accept.value.statusCode;
      var failed := Fail(NO_RESULT.(stage := ControlOpen, statusCode := status));
      NoWaitStopped(failed, deadline);
      return Some((Stopped(failed), accept.value));
    }

    /** Waits for the ACCEPT that carries the id of the latest OPEN; `notice` is the one it took, if it took one. */
    method WaitForAccept(controlId: uint16, deadline: int, ghost reserved: set<uint32>,
                         ghost start: int, ghost sleeps0: nat)
        returns (outcome: PassOutcome, ghost notice: Option<ControlPayload>)
      requires Inv(reserved, None) && !identifyOutstanding && !appReady
      requires history.opens != [] && controlId == Last(history.opens)
      requires WithinBudget(start, sleeps0, deadline, now, sleeps)
      modifies this`now, this`sleeps, this`passes, this`polled, this`inbox, this`signal, this`lastAppReady,
               this`lastError, this`negotiatedHeartbeatMs, core, core.control, core.calls
      ensures Inv(reserved, None) && WithinBudget(start, sleeps0, deadline, now, sleeps) && now >= old(now)
      ensures sleeps >= old(sleeps) && passes - old(passes) <= sleeps - old(sleeps) + 1
      ensures outcome.Stopped? ==> lastAppReady == outcome.result && lastError == outcome.result.statusCode
      ensures outcome.Stopped? ==> !outcome.result.ok && outcome.result.statusCode != SUCCESS
      ensures core.frames == old(core.frames)
      ensures outcome.Thrown? ==> signal.Throwing?
      ensures outcome.Stopped? ==> FairlyStopped(outcome.result, deadline)
      ensures outcome.Stopped? ==> outcome.result.stage == if notice.Some? then ControlOpen else ControlAccept
      ensures notice.Some? ==> notice.value.opcode == ACCEPT && notice.value.controlId == controlId
      ensures outcome.GoOn? <==> notice.Some? && notice.value.statusCode == SUCCESS && core.control.open
      ensures outcome.Stopped? && notice.Some? ==>
                outcome.result.statusCode ==
                  if notice.value.statusCode == SUCCESS then CONTROL_OPEN_REJECTED else notice.value.statusCode
      ensures outcome.GoOn? ==>
                core.control.open && negotiatedHeartbeatMs == core.control.Value().NegotiatedHeartbeatMs()
    {
      hide Wire, Matched, Drawn, ReadyCoherent, WithinBudget, NoNotice, FairlyStopped,
           StoppedBy;
      notice := None;
      var result := NO_RESULT.(stage := ControlOpen);
      while true
        invariant Inv(reserved, None) && !identifyOutstanding && !appReady
        invariant WithinBudget(start, sleeps0, deadline, now, sleeps) && now >= old(now)
        invariant sleeps >= old(sleeps) && passes - old(passes) == sleeps - old(sleeps)
        invariant unchanged(this`history) && notice == None && core.frames == old(core.frames)
        decreases if now < deadline then deadline - now else 0
      {
        ghost var before := now;
        outcome := BeginPass(result, ControlAccept, reserved);
        BudgetAllowsWaiting(start, sleeps0, deadline, before, now, sleeps);
        if !outcome.GoOn? {
          if outcome.Stopped? {
            ThrowingStops(now >= deadline);
            WaitStopped(outcome.result, deadline);
          }
          return;
        }
        var accept := TakeAccept(controlId, deadline, reserved);
        if accept.Some? {
          return accept.value.0, Some(accept.value.1);
        }
        outcome := EndPass(result, ControlAccept, deadline, start, sleeps0);
        if outcome.Stopped? {
          WaitStopped(outcome.result, deadline);
          return;
        }
      }
    }

    /** Sends an OPEN and waits for the ACCEPT that carries its id. */
    method OpenControlSession(deadline: int, ghost reserved: set<uint32>, ghost start: int, ghost sleeps0: nat)
        returns (outcome: PassOutcome, ghost notice: Option<ControlPayload>)
      requires Inv(reserved, None) && !identifyOutstanding && !appReady
      requires WithinBudget(start, sleeps0, deadline, now, sleeps)
      modifies this`now, this`sleeps, this`passes, this`polled, this`inbox, this`signal, this`nextControlId,
               this`lastAppReady, this`lastError, this`negotiatedHeartbeatMs, this`history, this`draws,
               this`openDraws, this`lastOpen, core, core.control, core.calls
      ensures Inv(reserved, None) && WithinBudget(start, sleeps0, deadline, now, sleeps) && now >= old(now)
      ensures sleeps >= old(sleeps) && passes - old(passes) <= sleeps - old(sleeps) + 1
      ensures history == old(history).(opens := old(history).opens + [old(nextControlId)])
      ensures outcome.Stopped? ==> lastAppReady == outcome.result && lastError == outcome.result.statusCode
      ensures outcome.Stopped? ==> !outcome.result.ok && outcome.result.statusCode != SUCCESS
      ensures core.frames == old(core.frames)
      ensures lastOpen == Some(Control.OpenPayload(old(nextControlId), old(core.control.requestedHeartbeatMs)))
      ensures outcome.Thrown? ==> signal.Throwing?
      ensures outcome.Stopped? ==> FairlyStopped(outcome.result, deadline)
      ensures outcome.Stopped? ==> outcome.result.stage == if notice.Some? then ControlOpen else ControlAccept
      ensures notice.Some? ==> notice.value.opcode == ACCEPT && notice.value.controlId == old(nextControlId)
      ensures outcome.GoOn? <==> notice.Some? && notice.value.statusCode == SUCCESS && core.control.open
      ensures outcome.Stopped? && notice.Some? ==>
                outcome.result.statusCode ==
                  if notice.value.statusCode == SUCCESS then CONTROL_OPEN_REJECTED else notice.value.statusCode
      ensures outcome.GoOn? ==>
                core.control.open && negotiatedHeartbeatMs == core.control.Value().NegotiatedHeartbeatMs()
    {
      hide Wire, Matched, Drawn, ReadyCoherent, WithinBudget, FairlyStopped, Control.OpenPayload;
      var threw, controlId := SendControlOpen(reserved);
      if threw {
        return Thrown, None;
      }
      outcome, notice := WaitForAccept(controlId, deadline, reserved, start, sleeps0);
    }

    /** Waits for the peer's HELLO. */
    method WaitForHello(deadline: int, ghost reserved: set<uint32>, ghost start: int, ghost sleeps0: nat)
      returns (outcome: PassOutcome)
      requires Inv(reserved, None) && !identifyOutstanding && !appReady
      requires WithinBudget(start, sleeps0, deadline, now, sleeps)
      modifies this`now, this`sleeps, this`passes, this`polled, this`inbox, this`signal, this`lastAppReady,
               this`lastError, this`history, core, core.control, core.calls
      ensures Inv(reserved, None) && WithinBudget(start, sleeps0, deadline, now, sleeps) && now >= old(now)
      ensures sleeps >= old(sleeps) && passes - old(passes) <= sleeps - old(sleeps) + 1
      ensures history == old(history).(hellos := old(history).hellos + if outcome.GoOn? then 1 else 0)
      ensures core.frames == old(core.frames)
      ensures outcome.Thrown? ==> signal.Throwing?
      ensures outcome.Stopped? ==> FairlyStopped(outcome.result, deadline) && outcome.result.stage == Hello
      ensures outcome.Stopped? ==> lastAppReady == outcome.result && lastError == outcome.result.statusCode
      ensures outcome.Stopped? ==> !outcome.result.ok && outcome.result.statusCode != SUCCESS
    {
      hide Wire, Matched, Drawn, ReadyCoherent, WithinBudget, FairlyStopped, StoppedBy, NothingQueued;
      var result := NO_RESULT.(stage := Hello);
      while true
        invariant Inv(reserved, None) && !identifyOutstanding && !appReady
        invariant WithinBudget(start, sleeps0, deadline, now, sleeps) && now >= old(now)
        invariant sleeps >= old(sleeps) && passes - old(passes) == sleeps - old(sleeps)
        invariant history == old(history) && core.frames == old(core.frames)
        decreases if now < deadline then deadline - now else 0
      {
        ghost var before := now;
        outcome := BeginPass(result, Hello, reserved);
        BudgetAllowsWaiting(start, sleeps0, deadline, before, now, sleeps);
        if !outcome.GoOn? {
          if outcome.Stopped? {
            ThrowingStops(now >= deadline);
            WaitStopped(outcome.result, deadline);
          }
          return;
        }
        var hello := TakeHello(reserved);
        if hello.Some? {
          return GoOn;
        }
        outcome := EndPass(result, Hello, deadline, start, sleeps0);
        if outcome.Stopped? {
          WaitStopped(outcome.result, deadline);
          return;
        }
      }
    }

    /** Sends the IDENTIFY that answers a HELLO and marks it outstanding. */
    method IdentifyWith(seed: uint32, ghost reserved: set<uint32>) returns (threw: bool)
      requires Inv(reserved, None) && !identifyOutstanding && !appReady
      requires |history.identifies| + history.failedIdentifies < history.hellos
      modifies this`history, this`identifyOutstanding, this`pendingIdentifySeed, this`quiet, this`signal,
               core`frames
      ensures Inv(reserved, None) && (identifyOutstanding <==> !threw)
      ensures Grew(old(core.frames), core.frames, Some(seed)) && signal == (if threw then Throwing else Silent)
      ensures quiet <==> Answers.Quiet(old(core.Line()))
      ensures history == if threw then old(history).(failedIdentifies := old(history).failedIdentifies + 1)
                         else old(history).(identifies := old(history).identifies + [seed])
    {
      hide WireBy, CoherentBy, MatchedBy, Orderly, DrawnFrom, AllOpens, Suffix, Core.AxtpCore.Line,
           Core.AxtpCore.Tagged, Table.PendingCallTable.Value, Answers.Quiet, Answers.Valid;
      IdleFacts(reserved);
      HandshakeKeepsWire(history, usedRequestIds, past, core.calls.Value(), reserved, 0, "", seed);
      SendingIsCoherent(history, lastAppReady, history.(failedIdentifies := history.failedIdentifies + 1), 0);
      SendingIsCoherent(history, lastAppReady, history.(identifies := history.identifies + [seed]), seed);
      ghost var line := core.Line();
      ghost var left;
      MatchedFacts(line, core.honest, None, None, quiet, OrderlyCore(), answer);
      SendingMatches(line, core.honest, seed, OrderlyCore(), answer);
      ThrowingIsNotOrderly(earlier, history.failedIdentifies);
      threw, left := SendIdentify(seed);
    }

    /** The session that is already ready, with the seed of the latest IDENTIFY. */
    method AlreadyReady(ghost reserved: set<uint32>) returns (result: AppReadyResult)
      requires Inv(reserved, None) && appReady
      modifies this`lastAppReady, this`lastError
      ensures Inv(reserved, None)
      ensures result == AppReadyResult(true, SUCCESS, AppReady, sessionSid, true, Last(history.identifies))
      ensures AnswersItsSeed(result.randomSeed)
      ensures lastAppReady == result && lastError == SUCCESS
    {
      result := lastAppReady.(ok := true, statusCode := SUCCESS, stage := AppReady, sid := sessionSid);
      lastAppReady, lastError := result, SUCCESS;
    }

    /** What follows a HELLO: the IDENTIFY with the seed that was asked for, or any, and the wait for its answer. */
    method Identification(wanted: Option<uint32>, deadline: int,
                          ghost reserved: set<uint32>, ghost start: int, ghost sleeps0: nat)
      returns (result: AppReadyResult, threw: bool)
      requires Inv(reserved, None) && WithinBudget(start, sleeps0, deadline, now, sleeps)
      requires !appReady && !identifyOutstanding && |history.identifies| + history.failedIdentifies < history.hellos
      modifies this`now, this`sleeps, this`passes, this`polled, this`inbox, this`signal, this`appReady,
               this`sessionSid, this`identifyOutstanding, this`pendingIdentifySeed, this`lastAppReady,
               this`lastError, this`history, this`quiet, this`answer, core, core.control, core.calls
      ensures Inv(reserved, None) && WithinBudget(start, sleeps0, deadline, now, sleeps) && now >= old(now)
      ensures sleeps >= old(sleeps) && passes - old(passes) <= sleeps - old(sleeps) + 1
      ensures SameCalls(old(history), history) && history.opens == old(history).opens
      ensures history.hellos == old(history).hellos
      ensures threw ==> !appReady && signal.Throwing?
      ensures !threw ==> history.failedIdentifies == old(history).failedIdentifies
      ensures !threw ==> lastAppReady == result && lastError == result.statusCode && FairlyStopped(result, deadline)
      ensures !threw ==> result.stage == if result.ok then AppReady else Identified
      ensures !threw ==> (result.ok <==> appReady) && (result.ok <==> result.statusCode == SUCCESS)
      ensures result.ok && !threw ==> result.sid == sessionSid && result.hasRandomSeed &&
                                      result.randomSeed == Last(history.identifies) && AnswersItsSeed(result.randomSeed)
      ensures Grew(old(history).identifies, history.identifies, wanted)
      ensures Grew(old(core.frames), core.frames, wanted)
      ensures result.ok && !threw ==> |history.identifies| == |old(history).identifies| + 1
    {
      hide Wire, Matched, Drawn, ReadyCoherent, WithinBudget, FairlyStopped, AnswersItsSeed, Grew;
      var seed: uint32 := *;
      seed := wanted.GetOr(seed);
      OneGrew(history.identifies, seed, wanted);
      threw := IdentifyWith(seed, reserved);
      WantedGrew(old(core.frames), core.frames, seed, wanted);
      if threw {
        return NO_RESULT, true;
      }
      result, threw := WaitForIdentified(deadline, reserved, start, sleeps0);
    }

    /** A handshake from its beginning: OPEN and ACCEPT if there is a control session, HELLO, IDENTIFY, IDENTIFIED. */
    method Handshake(options: AppReadyOptions, deadline: int,
                     ghost reserved: set<uint32>, ghost start: int, ghost sleeps0: nat)
      returns (result: AppReadyResult, threw: bool)
      requires Inv(reserved, None) && WithinBudget(start, sleeps0, deadline, now, sleeps)
      requires transport.Some? && !appReady && !identifyOutstanding
      modifies this`now, this`sleeps, this`passes, this`polled, this`inbox, this`signal, this`appReady,
               this`sessionSid, this`identifyOutstanding, this`pendingIdentifySeed, this`negotiatedHeartbeatMs,
               this`nextControlId, this`lastAppReady, this`lastError, this`history, this`quiet, this`answer,
               this`draws, this`openDraws, this`lastOpen, core, core.control, core.calls
      ensures Inv(reserved, None) && WithinBudget(start, sleeps0, deadline, now, sleeps) && now >= old(now)
      ensures sleeps >= old(sleeps) && passes - old(passes) <= sleeps - old(sleeps) + 3
      ensures SameCalls(old(history), history)
      ensures threw ==> !appReady && signal.Throwing?
      ensures !threw ==> result.stage in {ControlOpen, ControlAccept, Hello, Identified, AppReady}
      ensures !threw ==> (result.ok <==> result.stage == AppReady)
      ensures Grew(old(history).identifies, history.identifies, options.randomSeed)
      ensures Grew(old(core.frames), core.frames, options.randomSeed)
      ensures result.ok && !threw ==> |history.identifies| == |old(history).identifies| + 1
      ensures !threw ==> history.failedIdentifies == old(history).failedIdentifies
      ensures !threw ==> lastAppReady == result && lastError == result.statusCode && FairlyStopped(result, deadline)
      ensures !threw ==> (result.ok <==> appReady) && (result.ok <==> result.statusCode == SUCCESS)
      ensures result.ok && !threw ==> result.sid == sessionSid && result.hasRandomSeed &&
                                      result.randomSeed == Last(history.identifies) && AnswersItsSeed(result.randomSeed)
      ensures history.opens == old(history).opens +
                (if transport == Some(FramedBinary) && !options.skipControlOpen then [old(nextControlId)] else [])
      ensures history.opens != old(history).opens ==>
                lastOpen == Some(Control.OpenPayload(old(nextControlId), old(core.control.requestedHeartbeatMs)))
      ensures result.ok && !threw ==> history.hellos == old(history).hellos + 1
    {
      hide Wire, Matched, Drawn, ReadyCoherent, WithinBudget, FairlyStopped, AnswersItsSeed,
           Control.OpenPayload, Grew;
      NothingGrew(history.identifies, options.randomSeed);
      NothingGrew(core.frames, options.randomSeed);
      threw := false;
      if transport.value.FramedBinary? && !options.skipControlOpen {
        var accepted, notice := OpenControlSession(deadline, reserved, start, sleeps0);
        if !accepted.GoOn? {
          return if accepted.Thrown? then NO_RESULT else accepted.result, accepted.Thrown?;
        }
      }
      InvFacts(reserved, None);
      var hello := WaitForHello(deadline, reserved, start, sleeps0);
      if !hello.GoOn? {
        return if hello.Thrown? then NO_RESULT else hello.result, hello.Thrown?;
      }
      result, threw := Identification(options.randomSeed, deadline, reserved, start, sleeps0);
    }

    method EnsureAppReadyUntilImpl(options: AppReadyOptions, deadline: int,
                                   ghost reserved: set<uint32>, ghost start: int, ghost sleeps0: nat)
      returns (result: AppReadyResult, threw: bool)
      requires Inv(reserved, None) && WithinBudget(start, sleeps0, deadline, now, sleeps)
      modifies this`now, this`sleeps, this`passes, this`polled, this`inbox, this`signal, this`appReady,
               this`sessionSid, this`identifyOutstanding, this`pendingIdentifySeed, this`negotiatedHeartbeatMs,
               this`nextControlId, this`lastAppReady, this`lastError, this`history, this`quiet, this`answer,
               this`draws, this`openDraws, this`lastOpen, core, core.control, core.calls
      ensures Inv(reserved, None) && WithinBudget(start, sleeps0, deadline, now, sleeps) && now >= old(now)
      ensures sleeps >= old(sleeps) && passes - old(passes) <= sleeps - old(sleeps) + 3
      ensures SameCalls(old(history), history)
      ensures threw ==> !appReady && signal.Throwing? && !old(appReady) && transport.Some?
      ensures !threw ==> result.stage in {TransportStage, ControlOpen, ControlAccept, Hello, Identified, AppReady}
      ensures !threw ==> (result.ok <==> result.stage == AppReady)
      ensures !threw ==> (result.stage == TransportStage <==> !old(appReady) && transport.None?)
      ensures !threw && result.stage == TransportStage ==> result.statusCode == UNAVAILABLE
      ensures Grew(old(history).identifies, history.identifies, options.randomSeed)
      ensures Grew(old(core.frames), core.frames, options.randomSeed)
      ensures result.ok && !threw && !old(appReady) && !old(identifyOutstanding) && options.randomSeed.Some? ==>
                result.randomSeed == options.randomSeed.value
      ensures history.opens != old(history).opens ==>
                lastOpen == Some(Control.OpenPayload(old(nextControlId), AskedInterval(requestedHeartbeatMs)))
      ensures !threw ==> history.failedIdentifies == old(history).failedIdentifies
      ensures !threw ==> lastAppReady == result && lastError == result.statusCode
      ensures !threw ==> (result.ok <==> appReady) && (result.ok <==> result.statusCode == SUCCESS)
      ensures result.ok && !threw ==> AnswersItsSeed(result.randomSeed)
      ensures !threw ==> FairlyStopped(result, deadline)
      ensures result.ok && !threw ==> result.sid == sessionSid && result.hasRandomSeed &&
                                      result.randomSeed == Last(history.identifies)
      ensures old(appReady) || old(identifyOutstanding) || transport.None? ==> NothingSent(old(history), history)
      ensures old(appReady) || transport.None? ==> passes == old(passes) && history == old(history)
      ensures old(appReady) ==> result.ok && !threw
      ensures history.opens == old(history).opens +
                OpensFor(old(appReady) || old(identifyOutstanding), transport, options, old(nextControlId))
    {
      hide Wire, Matched, Drawn, ReadyCoherent, WithinBudget, FairlyStopped, AnswersItsSeed, Control.OpenPayload;
      InvFacts(reserved, None);
      threw := false;
      if appReady && sessionSid != "" {
        result := AlreadyReady(reserved);
        NoWaitStopped(result, deadline);
        return;
      }
      if transport.None? {
        result := Fail(NO_RESULT.(statusCode := UNAVAILABLE, stage := TransportStage));
        NoWaitStopped(result, deadline);
        return;
      }
      core.control.SetRequestedHeartbeatInterval(Clamp(requestedHeartbeatMs, 1, 60000));
      Control.NearestIsClamp(core.control.requestedHeartbeatMs, Clamp(requestedHeartbeatMs, 1, 60000));
      if identifyOutstanding {
        result, threw := WaitForIdentified(deadline, reserved, start, sleeps0);
        return;
      }
      result, threw := Handshake(options, deadline, reserved, start, sleeps0);
    }

    /** Runs the handshake under `deadline`; an exception becomes an internal error. */
    method EnsureAppReadyUntil(options: AppReadyOptions, deadline: int,
                               ghost reserved: set<uint32>, ghost start: int, ghost sleeps0: nat)
      returns (result: AppReadyResult)
      requires Inv(reserved, None) && WithinBudget(start, sleeps0, deadline, now, sleeps)
      modifies this`now, this`sleeps, this`passes, this`polled, this`inbox, this`signal, this`appReady,
               this`sessionSid, this`identifyOutstanding, this`pendingIdentifySeed, this`negotiatedHeartbeatMs,
               this`nextControlId, this`lastAppReady, this`lastError, this`history, this`quiet, this`answer,
               this`draws, this`openDraws, this`lastOpen, core, core.control, core.calls
      ensures Inv(reserved, None) && WithinBudget(start, sleeps0, deadline, now, sleeps) && now >= old(now)
      ensures sleeps >= old(sleeps) && passes - old(passes) <= sleeps - old(sleeps) + 3
      ensures SameCalls(old(history), history)
      ensures lastAppReady == result && lastError == result.statusCode
      ensures (result.ok <==> appReady) && (result.ok <==> result.statusCode == SUCCESS)
      ensures result.ok ==> AnswersItsSeed(result.randomSeed)
      ensures history.failedIdentifies != old(history).failedIdentifies ==>
                result.stage == Callback && result.statusCode == INTERNAL_ERROR
      ensures FairlyStopped(result, deadline)
      ensures result.stage in {TransportStage, ControlOpen, ControlAccept, Hello, Identified, AppReady, Callback}
      ensures result.ok <==> result.stage == AppReady
      ensures result.stage == TransportStage ==> result.statusCode == UNAVAILABLE
      ensures result.stage == TransportStage <==> !old(appReady) && transport.None?
      ensures Grew(old(history).identifies, history.identifies, options.randomSeed)
      ensures Grew(old(core.frames), core.frames, options.randomSeed)
      ensures result.ok && !old(appReady) && !old(identifyOutstanding) && options.randomSeed.Some? ==>
                result.randomSeed == options.randomSeed.value
      ensures history.opens != old(history).opens ==>
                lastOpen == Some(Control.OpenPayload(old(nextControlId), AskedInterval(requestedHeartbeatMs)))
      ensures result.ok ==> result.sid == sessionSid && result.hasRandomSeed &&
                            result.randomSeed == Last(history.identifies)
      ensures old(appReady) || old(identifyOutstanding) || transport.None? ==> NothingSent(old(history), history)
      ensures old(appReady) ==> result.ok && history == old(history)
      ensures history.opens == old(history).opens +
                OpensFor(old(appReady) || old(identifyOutstanding), transport, options, old(nextControlId))
    {
      hide Wire, Matched, Drawn, ReadyCoherent, WithinBudget, FairlyStopped, AnswersItsSeed, Control.OpenPayload;
      var threw;
      result, threw := EnsureAppReadyUntilImpl(options, deadline, reserved, start, sleeps0);
      if threw {
        InvFacts(reserved, None);
        result := Fail(NO_RESULT.(statusCode := INTERNAL_ERROR, stage := Callback));
        ThrowingStops(now >= deadline);
        WaitStopped(result, deadline);
      }
    }

    /**
     Brings the session up. The client is ready exactly when this succeeds; a wait that was cut short is resumed
     without another OPEN or IDENTIFY; and it makes at most one pass per millisecond of the timeout plus three.
     */
    method EnsureAppReady(options: AppReadyOptions) returns (result: AppReadyResult)
      requires Valid()
      modifies this`now, this`sleeps, this`passes, this`polled, this`inbox, this`signal, this`appReady,
               this`sessionSid, this`identifyOutstanding, this`pendingIdentifySeed, this`negotiatedHeartbeatMs,
               this`nextControlId, this`lastAppReady, this`lastError, this`history, this`quiet, this`answer,
               this`draws, this`openDraws, this`lastOpen, core, core.control, core.calls
      ensures Valid() && now >= old(now)
      ensures passes - old(passes) <= Max(options.timeoutMs, 0) + 3
      ensures SameCalls(old(history), history)
      ensures lastAppReady == result && lastError == result.statusCode
      ensures (result.ok <==> appReady) && (result.ok <==> result.statusCode == SUCCESS)
      ensures result.ok ==> AnswersItsSeed(result.randomSeed)
      ensures history.failedIdentifies != old(history).failedIdentifies ==>
                result.stage == Callback && result.statusCode == INTERNAL_ERROR
      ensures FairlyStopped(result, old(now) + Max(options.timeoutMs, 0) * MS)
      ensures result.stage in {TransportStage, ControlOpen, ControlAccept, Hello, Identified, AppReady, Callback}
      ensures result.ok <==> result.stage == AppReady
      ensures result.stage == TransportStage ==> result.statusCode == UNAVAILABLE
      ensures result.stage == TransportStage <==> !old(appReady) && transport.None?
      ensures Grew(old(history).identifies, history.identifies, options.randomSeed)
      ensures Grew(old(core.frames), core.frames, options.randomSeed)
      ensures result.ok && !old(appReady) && !old(identifyOutstanding) && options.randomSeed.Some? ==>
                result.randomSeed == options.randomSeed.value
      ensures history.opens != old(history).opens ==>
                lastOpen == Some(Control.OpenPayload(old(nextControlId), AskedInterval(requestedHeartbeatMs)))
      ensures result.ok ==> result.sid == sessionSid && result.hasRandomSeed &&
                            result.randomSeed == Last(history.identifies)
      ensures old(appReady) || old(identifyOutstanding) || transport.None? ==> NothingSent(old(history), history)
      ensures old(appReady) ==> result.ok && history == old(history)
      ensures history.opens == old(history).opens +
                OpensFor(old(appReady) || old(identifyOutstanding), transport, options, old(nextControlId))
    {
      hide Wire, Matched, Drawn, ReadyCoherent, FairlyStopped, AnswersItsSeed, Control.OpenPayload;
      var deadline := now + Max(options.timeoutMs, 0) * MS;
      result := EnsureAppReadyUntil(options, deadline, {}, now, sleeps);
    }

    // Calls.

    /** Hands a claimed request to the core and the transport; it may throw after the request has left. */
    method SendRpcRequest(request: RpcPayload) returns (outcome: SendOutcome)
      requires Inv({request.requestId}, None) && request.requestId != 0
      requires autoIdentify ==> appReady
      modifies this`history, this`signal, this`lastSent, core.calls
      ensures !outcome.Rejected? && lastSent == Some(request)
      ensures signal == if outcome.Threw? then Throwing else Silent
      ensures Inv({}, Some(request.requestId))
      ensures history == old(history).(requests := old(history).requests + [request.requestId])
    {
      hide WireBy, CoherentBy, MatchedBy, Orderly, DrawnFrom, AllOpens, Suffix, Core.AxtpCore.Line,
           Core.AxtpCore.Tagged, Table.PendingCallTable.Value, Table.Expectable, Table.Expected;
      SendingKeepsWire(history, usedRequestIds, past, core.calls.Value(), request.requestId);
      RequestsDoNotMatter(history, identifyOutstanding, pendingIdentifySeed, appReady, sessionSid, lastAppReady,
                          request.requestId);
      var expected := core.calls.Expect(request.requestId);
      // An id that was just claimed has never been handed to the core of this session.
      assert expected;
      outcome := Transmit(request);
    }

    method Transmit(request: RpcPayload) returns (outcome: SendOutcome)
      modifies this`history, this`signal, this`lastSent
      ensures !outcome.Rejected? && lastSent == Some(request)
      ensures signal == if outcome.Threw? then Throwing else Silent
      ensures history == old(history).(requests := old(history).requests + [request.requestId])
    {
      history, lastSent := history.(requests := history.requests + [request.requestId]), Some(request);
      var threw: bool := *;
      signal := if threw then Throwing else Silent;
      outcome := if threw then Threw else Sent;
    }

    method AbandonRequest(id: uint32)
      requires Inv({}, Some(id))
      modifies this`history, core.calls
      ensures Valid() && history == old(history).(abandoned := old(history).abandoned + [id])
      ensures core.calls.Value() == Table.Abandoned(old(core.calls.Value()), id)
    {
      hide Lawful, Core.Tracks;
      ghost var sent := Elements(history.requests);
      Core.AbandonKeepsTracks(core.calls.Value(), sent - {id}, id);
      EndingKeepsLaw(history, id);
      assert sent - {id} + {id} == sent - AsSet(None);
      core.calls.Abandon(id);
      history := history.(abandoned := history.abandoned + [id]);
    }

    method TakeResponse(id: uint32) returns (response: Option<RpcPayload>)
      requires Inv({}, Some(id))
      modifies this`history, core.calls
      ensures response.None? ==> Inv({}, Some(id)) && history == old(history)
      ensures response.Some? ==> Valid() && response.value.requestId == id
      ensures response.Some? ==> history == old(history).(answered := old(history).answered + [id])
      ensures response == Table.Response(old(core.calls.Value()), id)
      ensures core.calls.Value() == Table.Taken(old(core.calls.Value()), id)
    {
      hide Lawful, Core.Tracks;
      ghost var sent := Elements(history.requests);
      Core.TakeKeepsTracks(core.calls.Value(), sent - {id}, id);
      EndingKeepsLaw(history, id);
      assert sent - {id} + {id} == sent - AsSet(None);
      response := core.calls.TryTakeResolved(id);
      if response.Some? {
        history := history.(answered := history.answered + [id]);
      }
    }

    /** Takes a response that came without an id. */
    method TakeAnyResponse(ghost id: uint32) returns (response: Option<RpcPayload>)
      requires Inv({}, Some(id))
      modifies core.calls
      ensures Inv({}, Some(id)) && (response.Some? ==> response.value.requestId == 0)
      ensures response == Table.Response(old(core.calls.Value()), 0)
      ensures core.calls.Value() == Table.Taken(old(core.calls.Value()), 0)
    {
      hide Lawful;
      Core.TakeKeepsTracks(core.calls.Value(), Elements(history.requests) - {id}, id);
      response := core.calls.TryTakeAnyResolved();
    }

    /** Hands over the request's own response, or one that came without an id if the caller accepts it. */
    method TakeDelivery(request: RpcPayload, options: CallOptions, ghost expired: bool)
        returns (response: Option<RpcPayload>)
      requires Inv({}, Some(request.requestId)) && request.requestId != 0 && signal.Silent?
      modifies this`history, core.calls
      ensures var seen, id, any := old(core.calls.Value()), request.requestId, options.acceptAnyResponse;
              if response.None? then
                Inv({}, Some(id)) && history == old(history) && NothingThere(seen, id, any)
              else
                && Valid() && Delivered(old(history), history, request, response.value, any, seen, signal, expired)
                && (|| Answered(old(history), history, id, response.value)
                    || Abandoned(old(history), history, id, response.value, any))
    {
      hide Wire, Matched, Drawn, ReadyCoherent, Answered, Abandoned, Delivered;
      ghost var seen := core.calls.Value();
      response := TakeResponse(request.requestId);
      if response.Some? {
        AnswerIsDelivered(old(history), request, response.value, options.acceptAnyResponse, seen, signal, expired);
        return;
      }
      if options.acceptAnyResponse {
        response := TakeAnyResponse(request.requestId);
        if response.Some? {
          AbandonRequest(request.requestId);
          AnyIsDelivered(old(history), request, response.value, seen, signal, expired);
        }
      }
    }

    /** Ends a request without its answer: it is abandoned and the caller gets an error. */
    method GiveUp(request: RpcPayload, code: ErrorCode, options: CallOptions, ghost expired: bool)
        returns (response: RpcPayload)
      requires Inv({}, Some(request.requestId)) && StoppedBy(code, signal, expired)
      requires signal.Throwing? || NothingThere(polled, request.requestId, options.acceptAnyResponse)
      modifies this`history, core.calls
      ensures Valid()
      ensures Abandoned(old(history), history, request.requestId, response, options.acceptAnyResponse)
      ensures Delivered(old(history), history, request, response, options.acceptAnyResponse, polled, signal, expired)
    {
      hide Wire, Matched, Drawn, ReadyCoherent, Abandoned, Delivered, StoppedBy, NothingThere;
      AbandonRequest(request.requestId);
      response := ErrorResponse(request, code);
      ErrorIsDelivered(old(history), request, code, options.acceptAnyResponse, polled, signal, expired);
    }

    /** The first half of a pass: poll, the progress hook, and what there is to deliver. */
    method PollForResponse(request: RpcPayload, options: CallOptions, ghost deadline: int)
        returns (response: Option<RpcPayload>)
      requires Inv({}, Some(request.requestId)) && request.requestId != 0
      modifies this`now, this`passes, this`polled, this`inbox, this`signal, this`history, core, core.control,
               core.calls
      ensures now >= old(now) && passes == old(passes) + 1
      ensures response.None? ==>
                && Inv({}, Some(request.requestId)) && history == old(history)
                && NothingThere(polled, request.requestId, options.acceptAnyResponse)
      ensures response.Some? ==>
                && Valid()
                && Delivered(old(history), history, request, response.value, options.acceptAnyResponse, polled, signal,
                             now >= deadline)
                && (|| Answered(old(history), history, request.requestId, response.value)
                    || Abandoned(old(history), history, request.requestId, response.value, options.acceptAnyResponse))
    {
      hide Wire, Matched, Drawn, ReadyCoherent, Answered, Abandoned, Delivered, NothingThere;
      passes := passes + 1;
      var threw := Poll({}, Some(request.requestId));
      if threw {
        var failed := GiveUp(request, INTERNAL_ERROR, options, now >= deadline);
        return Some(failed);
      }
      var status := InvokeProgress();
      if status.Some? {
        var failed := GiveUp(request, status.value, options, now >= deadline);
        return Some(failed);
      }
      response := TakeDelivery(request, options, now >= deadline);
    }

    /**
     Waits for the response to a request that may be on the wire; on every other exit the request is abandoned. What
     the last poll left in the table decides: a response there is delivered unless a callback throws, and running out
     or being cancelled means that there was none.
     */
    method WaitForResponse(request: RpcPayload, options: CallOptions, deadline: int,
                           ghost start: int, ghost sleeps0: nat)
      returns (response: RpcPayload)
      requires Inv({}, Some(request.requestId)) && request.requestId != 0
      requires WithinBudget(start, sleeps0, deadline, now, sleeps)
      modifies this`now, this`sleeps, this`passes, this`polled, this`inbox, this`signal, this`history, core,
               core.control, core.calls
      ensures Valid() && WithinBudget(start, sleeps0, deadline, now, sleeps) && now >= old(now)
      ensures sleeps >= old(sleeps) && passes - old(passes) == sleeps - old(sleeps) + 1
      ensures Answered(old(history), history, request.requestId, response) ||
              Abandoned(old(history), history, request.requestId, response, options.acceptAnyResponse)
      ensures Delivered(old(history), history, request, response, options.acceptAnyResponse, polled, signal,
                        now >= deadline)
    {
      hide Wire, Matched, Drawn, ReadyCoherent, WithinBudget, Answered, Abandoned, Delivered, NothingThere;
      var id := request.requestId;
      while true
        invariant Inv({}, Some(id)) && history == old(history) && now >= old(now)
        invariant WithinBudget(start, sleeps0, deadline, now, sleeps)
        invariant sleeps >= old(sleeps) && passes - old(passes) == sleeps - old(sleeps)
        decreases if now < deadline then deadline - now else 0
      {
        ghost var before := now;
        var delivered := PollForResponse(request, options, deadline);
        BudgetAllowsWaiting(start, sleeps0, deadline, before, now, sleeps);
        if delivered.Some? {
          return delivered.value;
        }
        before := now;
        var status := InvokeCancellation();
        BudgetAllowsWaiting(start, sleeps0, deadline, before, now, sleeps);
        if status.Some? {
          response := GiveUp(request, status.value, options, now >= deadline);
          return;
        }
        if now >= deadline {
          response := GiveUp(request, RPC_RESPONSE_TIMEOUT, options, now >= deadline);
          return;
        }
        before := now;
        Sleep();
        SleepKeepsBudget(start, sleeps0, deadline, before, now, sleeps - 1);
      }
    }

    /** A method registered on this client answers without the network; its handler may throw. */
    method CallLocally(request: RpcPayload) returns (response: RpcPayload, ghost handler: Handler)
      requires Inv({request.requestId}, None)
      modifies this`usedRequestIds
      ensures Valid() && usedRequestIds == old(usedRequestIds) - {request.requestId}
      ensures !handler.NotRun?
      ensures response == HandlerResponse(request, handler)
    {
      var body: Bytes, threw: bool := *, *;
      handler := if threw then HandlerThrew else Returned(body);
      ReleaseUnsentRequestId(request.requestId);
      response := if threw then ErrorResponse(request, INTERNAL_ERROR)
                  else ErrorResponse(request, SUCCESS).(body := body);
    }

    /** Makes the session ready for a business request, if the client does that on its own. */
    method PrepareSession(request: RpcPayload, deadline: int, ghost start: int, ghost sleeps0: nat)
      returns (status: ErrorCode, prepared: RpcPayload)
      requires Inv({request.requestId}, None) && WithinBudget(start, sleeps0, deadline, now, sleeps)
      requires transport.Some? && request == WithSid(request, sessionSid)
      modifies this`now, this`sleeps, this`passes, this`polled, this`inbox, this`signal, this`appReady,
               this`sessionSid, this`identifyOutstanding, this`pendingIdentifySeed, this`negotiatedHeartbeatMs,
               this`nextControlId, this`lastAppReady, this`lastError, this`history, this`quiet, this`answer,
               this`draws, this`openDraws, this`lastOpen, core, core.control, core.calls
      ensures Inv({request.requestId}, None) && WithinBudget(start, sleeps0, deadline, now, sleeps) && now >= old(now)
      ensures sleeps >= old(sleeps) && passes - old(passes) <= sleeps - old(sleeps) + 3
      ensures SameCalls(old(history), history)
      ensures history.failedIdentifies != old(history).failedIdentifies ==> status == INTERNAL_ERROR
      ensures status == SUCCESS ==> (autoIdentify ==> appReady)
      ensures (autoIdentify ==> appReady) ==> status == SUCCESS
      ensures old(appReady) || !autoIdentify ==> appReady == old(appReady) && sessionSid == old(sessionSid)
      ensures history.opens == old(history).opens +
                OpensFor(old(appReady) || old(identifyOutstanding) || !autoIdentify, transport, DEFAULT_READY,
                         old(nextControlId))
      ensures status != SUCCESS ==> !lastAppReady.ok && status == lastAppReady.statusCode
      ensures status != SUCCESS ==> FairlyStopped(lastAppReady, deadline)
      ensures prepared == if status == SUCCESS then WithSid(request, sessionSid) else request
    {
      hide Wire, Matched, Drawn, ReadyCoherent, WithinBudget, FairlyStopped;
      InvFacts({request.requestId}, None);
      status, prepared := SUCCESS, request;
      if autoIdentify && !appReady {
        var ready := EnsureAppReadyUntil(DEFAULT_READY, deadline, {request.requestId}, start, sleeps0);
        if !ready.ok {
          return ready.statusCode, prepared;
        }
        InvFacts({request.requestId}, None);
        if request.meta.sourceProtocol.JsonRpc? && request.meta.jsonSid == "" && sessionSid != "" {
          prepared := request.(meta := request.meta.(jsonSid := sessionSid));
        }
      }
    }

    /** The send and the wait. A send that throws may have left, so its id is given up. */
    method Exchange(request: RpcPayload, options: CallOptions, deadline: int, ghost start: int, ghost sleeps0: nat)
        returns (response: RpcPayload)
      requires Inv({request.requestId}, None) && WithinBudget(start, sleeps0, deadline, now, sleeps)
      requires autoIdentify ==> appReady
      modifies this`now, this`sleeps, this`passes, this`polled, this`inbox, this`signal, this`history,
               this`lastSent, core, core.control, core.calls
      ensures Valid() && WithinBudget(start, sleeps0, deadline, now, sleeps) && now >= old(now)
      ensures sleeps >= old(sleeps) && passes - old(passes) <= sleeps - old(sleeps) + 1
      ensures lastSent == Some(request) && history.failedIdentifies == old(history).failedIdentifies
      ensures history.opens == old(history).opens
      ensures CalledOnce(old(history), history, request, response, options.acceptAnyResponse, polled,
                         signal, now >= deadline)
    {
      hide Wire, Matched, Drawn, ReadyCoherent, WithinBudget, Answered, Abandoned, Delivered, CalledOnce, StoppedBy;
      FreshId(request.requestId);
      var outcome := SendRpcRequest(request);
      ghost var sent := history;
      if outcome.Threw? {
        ThrowingStops(now >= deadline);
        response := GiveUp(request, INTERNAL_ERROR, options, now >= deadline);
      } else {
        response := WaitForResponse(request, options, deadline, start, sleeps0);
      }
      EndedCallIsOnce(old(history), sent, history, request, response, options.acceptAnyResponse, polled, signal,
                      now >= deadline);
    }

    /** A call under a claimed id over the network: the session, the send and the wait. */
    method CallRemotely(request: RpcPayload, options: CallOptions, deadline: int, ghost start: int, ghost sleeps0: nat)
        returns (response: RpcPayload)
      requires Inv({request.requestId}, None) && WithinBudget(start, sleeps0, deadline, now, sleeps)
      requires transport.Some? && request == WithSid(request, sessionSid)
      modifies this`now, this`sleeps, this`passes, this`polled, this`inbox, this`signal, this`appReady,
               this`sessionSid, this`identifyOutstanding, this`pendingIdentifySeed, this`negotiatedHeartbeatMs,
               this`nextControlId, this`lastAppReady, this`lastError, this`history, this`usedRequestIds, this`quiet,
               this`answer, this`draws, this`openDraws, this`lastOpen, this`lastSent, core, core.control, core.calls
      ensures Valid() && WithinBudget(start, sleeps0, deadline, now, sleeps) && now >= old(now)
      ensures sleeps >= old(sleeps) && passes - old(passes) <= sleeps - old(sleeps) + 4
      ensures old(sessionSid) == "" || old(sessionSid) == sessionSid
      ensures history.opens == old(history).opens +
                OpensFor(old(appReady) || old(identifyOutstanding) || !autoIdentify, transport, DEFAULT_READY,
                         old(nextControlId))
      ensures !(autoIdentify ==> appReady) ==>
                && SameCalls(old(history), history) && !lastAppReady.ok && FairlyStopped(lastAppReady, deadline)
                && response == ErrorResponse(request, lastAppReady.statusCode) && sessionSid == old(sessionSid)
      ensures (autoIdentify ==> appReady) ==>
                && lastSent == Some(WithSid(request, sessionSid))
                && CalledOnce(old(history), history, lastSent.value, response, options.acceptAnyResponse, polled,
                              signal, now >= deadline)
      ensures history.failedIdentifies != old(history).failedIdentifies ==> response.statusCode == INTERNAL_ERROR
    {
      hide Wire, Matched, Drawn, ReadyCoherent, WithinBudget, FairlyStopped, CalledOnce;
      InvFacts({request.requestId}, None);
      var status, prepared := PrepareSession(request, deadline, start, sleeps0);
      InvFacts({request.requestId}, None);
      if status != SUCCESS {
        ReleaseUnsentRequestId(request.requestId);
        return ErrorResponse(request, status);
      }
      ghost var ready := history;
      response := Exchange(prepared, options, deadline, start, sleeps0);
      HandshakesDoNotCount(old(history), ready, history, prepared, response, options.acceptAnyResponse, polled, signal,
                           now >= deadline);
    }

    /**
     A synchronous call. Either nothing business-related was sent, or the request went out once and was answered
     or abandoned, exactly once and never both; and all its waiting together makes at most one pass per
     millisecond of the timeout plus four.
     */
    method CallRaw(wanted: RpcPayload, options: CallOptions)
        returns (response: RpcPayload, ghost id: uint32, ghost handler: Handler)
      requires Valid()
      modifies this`now, this`sleeps, this`passes, this`polled, this`inbox, this`signal, this`appReady,
               this`sessionSid, this`identifyOutstanding, this`pendingIdentifySeed, this`negotiatedHeartbeatMs,
               this`nextControlId, this`lastAppReady, this`lastError, this`history, this`usedRequestIds,
               this`nextRequestId, this`quiet, this`answer, this`draws, this`openDraws, this`lastSent,
               this`lastOpen, core, core.control, core.calls
      ensures Valid() && now >= old(now)
      ensures passes - old(passes) <= Max(options.timeoutMs, 0) + 4
      ensures wanted.requestId != 0 ==> id == wanted.requestId
      ensures history.requests != old(history).requests <==>
                && Claimable(wanted, old(usedRequestIds)) && wanted.methodOrEventId !in localMethods
                && transport.Some? && (autoIdentify ==> appReady)
      ensures !Claimable(wanted, old(usedRequestIds)) ==>
                history == old(history) && response == ErrorResponse(wanted, INVALID_ARGUMENT)
      ensures handler.NotRun? <==> !(Claimable(wanted, old(usedRequestIds)) && wanted.methodOrEventId in localMethods)
      ensures !handler.NotRun? ==>
                history == old(history) && response == HandlerResponse(Normalized(wanted, id, sessionSid), handler)
      ensures Claimable(wanted, old(usedRequestIds)) && handler.NotRun? && transport.None? ==>
                history == old(history) && response == ErrorResponse(Normalized(wanted, id, sessionSid), UNAVAILABLE)
      ensures Claimable(wanted, old(usedRequestIds)) && handler.NotRun? && transport.Some? &&
              history.requests == old(history).requests ==>
                && SameCalls(old(history), history) && !lastAppReady.ok
                && response == ErrorResponse(Normalized(wanted, id, sessionSid), lastAppReady.statusCode)
                && FairlyStopped(lastAppReady, old(now) + Max(options.timeoutMs, 0) * MS)
      ensures Claimable(wanted, old(usedRequestIds)) && handler.NotRun? ==>
                history.opens == old(history).opens +
                  OpensFor(old(appReady) || old(identifyOutstanding) || !autoIdentify, transport, DEFAULT_READY,
                           old(nextControlId))
      ensures history.requests != old(history).requests ==>
                && lastSent == Some(Normalized(wanted, id, sessionSid))
                && CalledOnce(old(history), history, lastSent.value, response, options.acceptAnyResponse, polled,
                              signal, now >= old(now) + Max(options.timeoutMs, 0) * MS)
      ensures history.failedIdentifies != old(history).failedIdentifies ==> response.statusCode == INTERNAL_ERROR
    {
      hide Wire, Matched, Drawn, ReadyCoherent, FairlyStopped, Normalized, ErrorResponse;
      handler := NotRun;
      ghost var start, sleeps0, sid := now, sleeps, sessionSid;
      var deadline := now + Max(options.timeoutMs, 0) * MS;
      var ok, request := NormalizeRequest(wanted);
      id := request.requestId;
      if !ok {
        return ErrorResponse(request, INVALID_ARGUMENT), id, handler;
      }
      NormalizedWithSid(wanted, id, sid, sid);
      if request.methodOrEventId in localMethods {
        response, handler := CallLocally(request);
        return;
      }
      if transport.None? {
        ReleaseUnsentRequestId(request.requestId);
        return ErrorResponse(request, UNAVAILABLE), id, handler;
      }
      response := CallRemotely(request, options, deadline, start, sleeps0);
      NormalizedWithSid(wanted, id, sid, sessionSid);
    }

    lemma FreshId(id: uint32)
      requires Inv({id}, None)
      ensures id !in history.requests && id != 0
    {
      assert id in usedRequestIds;
    }

    /**
     One CONTROL heartbeat and its acknowledgement. Only this operation skips control id zero; it takes no
     acknowledgement but its own and leaves the session, its requests and their responses alone.
     */
    method Heartbeat(timeoutMs: int) returns (status: ErrorCode, ghost ack: Option<ControlPayload>)
      requires Valid()
      modifies this`now, this`sleeps, this`passes, this`polled, this`inbox, this`signal, this`nextControlId,
               this`draws, this`lastError, this`beats, core, core.control, core.calls
      ensures Valid() && now >= old(now) && lastError == status
      ensures passes - old(passes) <= Max(timeoutMs, 1)
      ensures old(HeartbeatUnavailable()) != SUCCESS ==>
                status == old(HeartbeatUnavailable()) && beats == old(beats) && nextControlId == old(nextControlId)
      ensures old(HeartbeatUnavailable()) == SUCCESS ==>
                var id := HeartbeatId(old(nextControlId));
                && beats == old(beats) + [id] && nextControlId == (id as int + 1) % 0x1_0000
                && BeatEnded(status, ack, id, now >= old(now) + Max(timeoutMs, 1) * MS, passes > old(passes))
    {
      hide Wire, Matched, Drawn, ReadyCoherent, BeatEnded;
      ack := None;
      status := HeartbeatUnavailable();
      if status != SUCCESS {
        lastError := status;
        return;
      }
      var controlId := DrawControlId();
      if controlId == 0 {
        controlId := DrawControlId();
      }
      var threw := SendHeartbeat(controlId);
      if threw {
        status, lastError := INTERNAL_ERROR, INTERNAL_ERROR;
        ThrowingBeat(controlId, now >= old(now) + Max(timeoutMs, 1) * MS, passes > old(passes));
        return;
      }
      status, ack := WaitForHeartbeatAck(controlId, Max(timeoutMs, 1));
      lastError := status;
    }

    method SendHeartbeat(id: uint16) returns (threw: bool)
      modifies this`beats, this`signal
      ensures beats == old(beats) + [id] && signal == if threw then Throwing else Silent
    {
      beats := beats + [id];
      threw := *;
      signal := if threw then Throwing else Silent;
    }

    /**
     A heartbeat ends with the status of its own acknowledgement; without one, something threw or the time was up, and
     then none was queued if there was a poll at all.
     */
    ghost predicate BeatEnded(status: ErrorCode, ack: Option<ControlPayload>, id: uint16, expired: bool,
                              polledOnce: bool)
      reads this`signal, this`core, core`controlNotices
    {
      if ack.Some? then
        && ack.value.opcode == HEARTBEAT_ACK && ack.value.controlId == id
        && status == ack.value.statusCode && signal.Silent?
      else
        && (signal.Throwing? ==> status == INTERNAL_ERROR)
        && (!signal.Throwing? ==>
              status == CONTROL_HEARTBEAT_TIMEOUT && expired && (polledOnce ==> NoNotice(HEARTBEAT_ACK, id)))
    }

    lemma ThrowingBeat(id: uint16, expired: bool, polledOnce: bool)
      requires signal.Throwing?
      ensures BeatEnded(INTERNAL_ERROR, None, id, expired, polledOnce)
    {
    }

    /** Takes the next id off the 16-bit counter. */
    method DrawControlId() returns (id: uint16)
      requires Valid()
      modifies this`nextControlId, this`draws
      ensures Valid() && id == old(nextControlId) && nextControlId == (id as int + 1) % 0x1_0000
      ensures draws == old(draws) + 1
    {
      hide Wire, Matched, ReadyCoherent, DrawnFrom, AllOpens, Suffix;
      DrawKeeps(firstDraw, draws, nextControlId, openDraws, AllOpens(earlier) + history.opens);
      id := nextControlId;
      nextControlId := (nextControlId as int + 1) % 0x1_0000;
      draws := draws + 1;
    }

    /**
     `ack` is the acknowledgement that ended the wait, if there was one. The clock is read again before the first
     pass, so a short wait can end without one.
     */
    method WaitForHeartbeatAck(controlId: uint16, timeoutMs: int)
      returns (status: ErrorCode, ghost ack: Option<ControlPayload>)
      requires Valid() && timeoutMs > 0 && signal.Silent?
      ensures sleeps >= old(sleeps) && sleeps - old(sleeps) <= passes - old(passes) <= sleeps - old(sleeps) + 1
      modifies this`now, this`sleeps, this`passes, this`polled, this`inbox, this`signal, core, core.control,
               core.calls
      ensures Valid() && now >= old(now)
      ensures 0 <= passes - old(passes) <= timeoutMs
      ensures BeatEnded(status, ack, controlId, now >= old(now) + timeoutMs * MS, passes > old(passes))
    {
      hide Wire, Matched, Drawn, ReadyCoherent, NoNotice;
      var deadline := now + timeoutMs * MS;
      var elapsed: nat :| 0 <= elapsed;
      now := now + elapsed;
      while now < deadline
        invariant Valid() && now >= old(now)
        invariant passes >= old(passes) && (passes - old(passes)) * MS <= now - old(now)
        invariant passes - old(passes) == sleeps - old(sleeps) <= timeoutMs
        invariant signal.Silent? && (passes > old(passes) ==> NoNotice(HEARTBEAT_ACK, controlId))
        decreases deadline - now
      {
        passes := passes + 1;
        var threw := Poll({}, None);
        if threw {
          return INTERNAL_ERROR, None;
        }
        var progress := InvokeProgress();
        if progress.Some? {
          return INTERNAL_ERROR, None;
        }
        var notice := TakeNotice(HEARTBEAT_ACK, controlId, {});
        if notice.Some? {
          return notice.value.statusCode, notice;
        }
        Sleep();
      }
      return CONTROL_HEARTBEAT_TIMEOUT, None;
    }

    /** Why no heartbeat can be sent now, or success. */
    function HeartbeatUnavailable(): (status: ErrorCode)
      reads this, core.control
      ensures status in {SUCCESS, UNAVAILABLE, NOT_SUPPORTED}
      ensures status == UNAVAILABLE <==> transport.None? || !connected
      ensures status == SUCCESS <==>
                && connected && transport == Some(FramedBinary)
                && core.control.open && negotiatedHeartbeatMs.Some?
    {
      if transport.None? || !connected then UNAVAILABLE
      else if !transport.value.FramedBinary? || !core.control.open then NOT_SUPPORTED
      else if negotiatedHeartbeatMs.None? then NOT_SUPPORTED
      else SUCCESS
    }

    method RegisterMethod(methodId: uint32)
      requires Valid()
      modifies this`localMethods
      ensures Valid() && localMethods == old(localMethods) + {methodId}
    {
      localMethods := localMethods + {methodId};
    }
  }

  /** The control id a heartbeat uses when the counter stands at `next`. */
  function HeartbeatId(next: uint16): (id: uint16)
    ensures id != 0
  {
    if next == 0 then 1 else next
  }

  // Runs.

  datatype Command =
    | Attach(transport: Option<WireMode>)
    | Detach
    | Ready(readyOptions: AppReadyOptions)
    | Call(request: RpcPayload, callOptions: CallOptions)
    | Beat(timeoutMs: int)
    | Pump
    | Register(methodId: uint32)

  /** Whatever a program does with a client, the client stays valid and every physical session was lawful. */
  method Drive(client: AxtpClient, commands: seq<Command>)
    requires client.Valid()
    modifies client, client.core, client.core.control, client.core.calls
    ensures client.Valid()
    ensures forall h | h in client.past + [client.history] :: Lawful(h, None)
    ensures client.appReady ==> client.sessionSid != "" && !client.identifyOutstanding
    ensures client.appReady ==> client.AnswersItsSeed(client.lastAppReady.randomSeed)
    ensures Orderly(client.past, client.history.failedIdentifies) ==> client.OrderlyCore()
  {
    for i := 0 to |commands|
      invariant client.Valid()
      invariant client.core == old(client.core) ||
                (fresh(client.core) && fresh(client.core.control) && fresh(client.core.calls))
    {
      Perform(client, commands[i]);
    }
    if client.appReady {
      client.ReadyAnswers({});
    }
    if Orderly(client.past, client.history.failedIdentifies) {
      SuffixIsOrderly(client.earlier, client.past, client.history.failedIdentifies);
    }
  }

  method Perform(client: AxtpClient, command: Command)
    requires client.Valid()
    modifies client, client.core, client.core.control, client.core.calls
    ensures client.Valid()
    ensures client.core == old(client.core) ||
            (fresh(client.core) && fresh(client.core.control) && fresh(client.core.calls))
  {
    hide AxtpClient.Wire, AxtpClient.ReadyCoherent;
    match command {
      case Attach(transport) => var _ := client.AttachTransport(transport);
      case Detach => var _ := client.Close();
      case Ready(options) => var _ := client.EnsureAppReady(options);
      case Call(request, options) => var _, _, _ := client.CallRaw(request, options);
      case Beat(timeoutMs) => var _, _ := client.Heartbeat(timeoutMs);
      case Pump => var _ := client.Poll({}, None);
      case Register(methodId) => client.RegisterMethod(methodId);
    }
  }
}
