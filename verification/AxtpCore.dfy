/** The protocol core behind an endpoint: the control session, response matching and the two notice queues. */
module AxtpCore {
  import opened AxtpTypes
  import ControlSession
  import Answers = IdentifyAnswers
  import Table = PendingCallTable

  /** A decoded inbound payload. */
  datatype Inbound = Control(control: ControlPayload) | Rpc(rpc: RpcPayload)

  /** Position of the first element of `q` that satisfies `hit`, or its length. */
  function FirstMatch<T>(q: seq<T>, hit: T -> bool): (i: nat)
    ensures i <= |q|
    ensures i < |q| ==> hit(q[i])
    ensures forall j | 0 <= j < i :: !hit(q[j])
  {
    if q == [] || hit(q[0]) then 0 else 1 + FirstMatch(q[1..], hit)
  }

  /** What a scan leaves behind: the queue is rotated up to the element it removes. */
  function Remaining<T>(q: seq<T>, i: nat): seq<T>
    requires i <= |q|
  {
    if i == |q| then q else q[i + 1..] + q[..i]
  }

  function FirstWith(q: seq<RpcPayload>, op: RpcOp): (i: nat)
    ensures i <= |q|
  {
    FirstMatch(q, (p: RpcPayload) => p.op == op)
  }

  function FirstNotice(q: seq<ControlPayload>, opcode: ControlOpcode, id: uint16): (i: nat)
    ensures i <= |q|
  {
    FirstMatch(q, (p: ControlPayload) => IsNotice(p, opcode, id))
  }

  lemma FirstMatchIs<T>(q: seq<T>, hit: T -> bool, i: nat)
    requires i <= |q| && (i < |q| ==> hit(q[i])) && forall j | 0 <= j < i :: !hit(q[j])
    ensures FirstMatch(q, hit) == i
  {
  }

  /** One miss moves the front of the queue to its back. */
  lemma RotationStep<T>(q: seq<T>, i: nat)
    requires i < |q|
    ensures var r := q[i..] + q[..i];
            r[0] == q[i] && r[1..] == q[i + 1..] + q[..i] && r[1..] + [q[i]] == q[i + 1..] + q[..i + 1]
  {
  }

  /**
   A scan keeps the other notices in arrival order exactly when the one it removes was the first or the last
   of the queue; otherwise the later notices overtake the earlier ones.
   */
  lemma ScanKeepsOrder<T>(q: seq<T>, i: nat)
    requires i < |q| && forall j, k | 0 <= j < k < |q| :: q[j] != q[k]
    ensures Remaining(q, i) == q[..i] + q[i + 1..] <==> i == 0 || i == |q| - 1
  {
    var kept := q[..i] + q[i + 1..];
    if i == 0 || i == |q| - 1 {
      assert Remaining(q, i) == kept;
    } else {
      assert Remaining(q, i)[0] == q[i + 1] && kept[0] == q[0];
    }
  }

  /** The answer tags of the IDENTIFIEDs in a queue, in queue order. */
  ghost function Tags(q: seq<RpcPayload>, answers: seq<nat>): seq<nat>
    requires |q| == |answers|
  {
    if q == [] then []
    else
      var n := |q| - 1;
      Tags(q[..n], answers[..n]) + (if q[n].op == IDENTIFIED then [answers[n]] else [])
  }

  lemma {:induction false} TagsAppend(q: seq<RpcPayload>, a: seq<nat>, r: seq<RpcPayload>, b: seq<nat>)
    requires |q| == |a| && |r| == |b|
    ensures Tags(q + r, a + b) == Tags(q, a) + Tags(r, b)
  {
    if r == [] {
      assert q + r == q && a + b == a;
    } else {
      var n := |r| - 1;
      TagsAppend(q, a, r[..n], b[..n]);
      assert (q + r)[..|q| + n] == q + r[..n] && (a + b)[..|q| + n] == a + b[..n];
    }
  }

  lemma TagsAt(q: seq<RpcPayload>, a: seq<nat>, i: nat)
    requires |q| == |a| && i < |q|
    ensures Tags(q, a) == Tags(q[..i], a[..i]) +
              (if q[i].op == IDENTIFIED then [a[i]] else []) + Tags(q[i + 1..], a[i + 1..])
  {
    assert q == q[..i + 1] + q[i + 1..] && a == a[..i + 1] + a[i + 1..];
    TagsAppend(q[..i + 1], a[..i + 1], q[i + 1..], a[i + 1..]);
    assert q[..i + 1][..i] == q[..i] && a[..i + 1][..i] == a[..i];
  }

  lemma {:induction false} NoTags(q: seq<RpcPayload>, a: seq<nat>)
    requires |q| == |a|
    ensures Tags(q, a) == [] <==> forall p | p in q :: p.op != IDENTIFIED
  {
    if q != [] {
      var n := |q| - 1;
      NoTags(q[..n], a[..n]);
      assert q == q[..n] + [q[n]];
    }
  }

  /** Removing element `i` by a scan turns the tags in front of it to the back and drops its own, if it has one. */
  lemma TagsRemaining(q: seq<RpcPayload>, a: seq<nat>, i: nat)
    requires |q| == |a| && i < |q|
    ensures |Remaining(q, i)| == |Remaining(a, i)|
    ensures var l, r := Tags(q[..i], a[..i]), Tags(q[i + 1..], a[i + 1..]);
            && Tags(q, a) == l + (if q[i].op == IDENTIFIED then [a[i]] else []) + r
            && Tags(Remaining(q, i), Remaining(a, i)) == r + l
  {
    TagsAt(q, a, i);
    TagsAppend(q[i + 1..], a[i + 1..], q[..i], a[..i]);
  }

  /** A hit on an IDENTIFIED drops the first tag; any other hit turns the tags by those in front of it. */
  lemma TagsOfHit(q: seq<RpcPayload>, a: seq<nat>, i: nat) returns (n: nat)
    requires |q| == |a| && i < |q| && forall j | 0 <= j < i :: q[j].op != q[i].op
    ensures |Remaining(q, i)| == |Remaining(a, i)| && n <= |Tags(q, a)|
    ensures q[i].op == IDENTIFIED ==>
              Tags(q, a) == [a[i]] + Tags(Remaining(q, i), Remaining(a, i))
    ensures q[i].op != IDENTIFIED ==>
              Tags(Remaining(q, i), Remaining(a, i)) == Tags(q, a)[n..] + Tags(q, a)[..n]
  {
    var l, r := Tags(q[..i], a[..i]), Tags(q[i + 1..], a[i + 1..]);
    TagsRemaining(q, a, i);
    NoTags(q[..i], a[..i]);
    assert q[i].op == IDENTIFIED ==> l == [] by {
      assert forall p | p in q[..i] :: p.op != q[i].op;
    }
    n := |l|;
    hide Tags, Remaining;
    Turning(l, r);
  }

  lemma Turning(l: seq<nat>, r: seq<nat>)
    ensures (l + [] + r)[|l|..] + (l + [] + r)[..|l|] == r + l
    ensures l == [] ==> r + l == r
  {
    assert l + [] + r == l + r;
  }

  predicate IsNotice(p: ControlPayload, opcode: ControlOpcode, id: uint16) {
    p.opcode == opcode && p.controlId == id
  }

  // What a burst of inbound payloads leaves in the core: its last payload after those before it.

  /** A peer's response; one this side generated itself goes the other way. */
  predicate IsResponse(p: RpcPayload) {
    (p.op == REQUEST_RESPONSE || p.op == REQUEST_BATCH_RESPONSE) && !p.meta.localGeneratedResponse
  }

  predicate IsSessionMessage(p: RpcPayload) {
    p.op == IDENTIFY || p.op == REIDENTIFY || p.op == HELLO || p.op == IDENTIFIED
  }

  /** By their numbers: HELLO, IDENTIFY, IDENTIFIED and REIDENTIFY are queued, both kinds of response are matched. */
  lemma KindsOfMessages(p: RpcPayload)
    ensures IsSessionMessage(p) <==> p.op in {0, 2, 3, 4}
    ensures IsResponse(p) <==> p.op in {8, 10} && !p.meta.localGeneratedResponse
    ensures !(IsSessionMessage(p) && IsResponse(p))
  {
  }

  function CallsAfter(c: Table.Calls, inbound: seq<Inbound>): Table.Calls {
    if inbound == [] then c
    else
      var before, last := CallsAfter(c, inbound[..|inbound| - 1]), inbound[|inbound| - 1];
      if last.Rpc? && IsResponse(last.rpc) then Table.Resolved(before, last.rpc.requestId, last.rpc) else before
  }

  function SessionsIn(inbound: seq<Inbound>): seq<RpcPayload> {
    if inbound == [] then []
    else
      var before, last := SessionsIn(inbound[..|inbound| - 1]), inbound[|inbound| - 1];
      if last.Rpc? && IsSessionMessage(last.rpc) then before + [last.rpc] else before
  }

  function NoticesIn(inbound: seq<Inbound>): seq<ControlPayload> {
    if inbound == [] then []
    else
      var before, last := NoticesIn(inbound[..|inbound| - 1]), inbound[|inbound| - 1];
      if last.Control? then before + [last.control] else before
  }

  function ControlAfter(s: ControlSession.Session, inbound: seq<Inbound>): ControlSession.Session {
    if inbound == [] then s
    else
      var before, last := ControlAfter(s, inbound[..|inbound| - 1]), inbound[|inbound| - 1];
      if last.Control? then ControlSession.AfterHandle(before, last.control) else before
  }

  /**
   The response to a request in flight is there after any burst that contains it: the first such one, whatever comes
   before and after it.
   */
  lemma {:induction false} ResponseArrives(c: Table.Calls, inbound: seq<Inbound>, id: uint32)
    requires id != 0 && id in c.pending && id !in c.retired && id !in c.resolved
    ensures (exists p: RpcPayload :: Rpc(p) in inbound && IsResponse(p) && p.requestId == id) ==>
              var after := CallsAfter(c, inbound);
              && id in after.resolved && id !in after.pending && id in after.retired
              && Rpc(after.resolved[id]) in inbound && after.resolved[id].requestId == id
    ensures !(exists p: RpcPayload :: Rpc(p) in inbound && IsResponse(p) && p.requestId == id) ==>
              var after := CallsAfter(c, inbound); id in after.pending && id !in after.retired && id !in after.resolved
  {
    if inbound != [] {
      var before, last := inbound[..|inbound| - 1], inbound[|inbound| - 1];
      assert inbound == before + [last];
      ResponseArrives(c, before, id);
    }
  }

  // Response matching seen by a caller that has at most one request in flight.

  /** `done` are the ids retired so far; `inFlight` is the one request that is pending or answered but not yet taken. */
  ghost predicate Tracks(c: Table.Calls, done: set<uint32>, inFlight: Option<uint32>) {
    && (forall id | id in c.resolved :: c.resolved[id].requestId == id)
    && match inFlight
       case None => c.pending == {} && c.resolved.Keys <= {0} && c.retired == done
       case Some(id) =>
         && id != 0 && id !in done
         && (|| (c.pending == {id} && c.resolved.Keys <= {0} && c.retired == done)
             || (c.pending == {} && id in c.resolved && c.resolved.Keys <= {0, id} && c.retired == done + {id}))
  }

  lemma ResolveKeepsTracks(c: Table.Calls, done: set<uint32>, inFlight: Option<uint32>, p: RpcPayload)
    requires Tracks(c, done, inFlight)
    ensures Tracks(Table.Resolved(c, p.requestId, p), done, inFlight)
  {
  }

  lemma ExpectKeepsTracks(c: Table.Calls, done: set<uint32>, id: uint32)
    requires Tracks(c, done, None) && id != 0 && id !in done
    ensures Table.Expectable(c, id) && Tracks(Table.Expected(c, id), done, Some(id))
  {
  }

  lemma AbandonKeepsTracks(c: Table.Calls, done: set<uint32>, id: uint32)
    requires Tracks(c, done, Some(id))
    ensures Tracks(Table.Abandoned(c, id), done + {id}, None)
  {
  }

  lemma TakeKeepsTracks(c: Table.Calls, done: set<uint32>, id: uint32)
    requires Tracks(c, done, Some(id))
    ensures id in c.resolved ==> Tracks(Table.Taken(c, id), done + {id}, None) && c.resolved[id].requestId == id
    ensures id !in c.resolved ==> Table.Taken(c, id) == c
    ensures Tracks(Table.Taken(c, 0), done, Some(id)) && (0 in c.resolved ==> c.resolved[0].requestId == 0)
  {
    assert id !in c.resolved ==> c.resolved - {id} == c.resolved;
  }

  class AxtpCore {
    const control: ControlSession.ControlSession
    const calls: Table.PendingCallTable
    var sessionRpcs: seq<RpcPayload>
    var controlNotices: seq<ControlPayload>
    var inboundActivity: nat
    ghost var frames: seq<uint32>
    ghost var nextAnswer: nat
    ghost var answers: seq<nat>
    ghost var honest: bool

    /** Every queued session message carries a tag: for an IDENTIFIED, the IDENTIFY it answers. */
    ghost predicate Tagged()
      reads this`sessionRpcs, this`answers
    {
      |answers| == |sessionRpcs|
    }

    ghost function Line(): Answers.Line
      requires Tagged()
      reads this`sessionRpcs, this`answers, this`frames, this`nextAnswer
    {
      Answers.Line(frames, nextAnswer, Tags(sessionRpcs, answers))
    }

    ghost predicate NothingQueued(op: RpcOp)
      reads this`sessionRpcs
    {
      forall p | p in sessionRpcs :: p.op != op
    }

    constructor ()
      ensures fresh(control) && fresh(calls)
      ensures Tagged() && Line() == Answers.NEW_LINE && honest
      ensures control.Value() == ControlSession.INITIAL && calls.Value() == Table.NO_CALLS
      ensures sessionRpcs == [] && controlNotices == [] && inboundActivity == 0
    {
      control := new ControlSession.ControlSession();
      calls := new Table.PendingCallTable();
      sessionRpcs, controlNotices, inboundActivity := [], [], 0;
      frames, nextAnswer, answers, honest := [], 0, [], true;
    }

    method HandleControl(payload: ControlPayload)
      modifies this`controlNotices, this`inboundActivity, control
      ensures control.Value() == ControlSession.AfterHandle(old(control.Value()), payload)
      ensures controlNotices == old(controlNotices) + [payload] && inboundActivity == old(inboundActivity) + 1
    {
      inboundActivity := inboundActivity + 1;
      var reply := control.Handle(payload);
      controlNotices := controlNotices + [payload];
    }

    /**
     Queues a session message. `tag` is the IDENTIFY an IDENTIFIED answers; a peer that answers out of order, twice,
     or what was never sent is no longer honest.
     */
    method Enqueue(payload: RpcPayload, ghost tag: nat)
      requires Tagged()
      modifies this`sessionRpcs, this`answers, this`nextAnswer, this`honest
      ensures Tagged() && sessionRpcs == old(sessionRpcs) + [payload]
      ensures Line() == if payload.op == IDENTIFIED then Answers.Arrived(old(Line()), tag) else old(Line())
      ensures honest <==> old(honest) && (payload.op == IDENTIFIED ==> Answers.CanArrive(old(Line()), tag))
    {
      TagsAppend(sessionRpcs, answers, [payload], [tag]);
      assert Tags([payload], [tag]) == if payload.op == IDENTIFIED then [tag] else [];
      if payload.op == IDENTIFIED {
        honest := honest && Answers.CanArrive(Line(), tag);
        nextAnswer := tag + 1;
      }
      sessionRpcs := sessionRpcs + [payload];
      answers := answers + [tag];
    }

    method HandleRpc(payload: RpcPayload, ghost done: set<uint32>, ghost inFlight: Option<uint32>, ghost tag: nat)
      requires Tracks(calls.Value(), done, inFlight) && Tagged()
      modifies this`sessionRpcs, this`inboundActivity, this`answers, this`nextAnswer, this`honest, calls
      ensures Tracks(calls.Value(), done, inFlight) && Tagged()
      ensures inboundActivity == old(inboundActivity) + 1
      ensures sessionRpcs == old(sessionRpcs) +
                (if IsSessionMessage(payload) then [payload] else [])
      ensures Line() == if payload.op == IDENTIFIED then Answers.Arrived(old(Line()), tag) else old(Line())
      ensures honest <==> old(honest) && (payload.op == IDENTIFIED ==> Answers.CanArrive(old(Line()), tag))
      ensures calls.Value() == if IsResponse(payload) then
                                 Table.Resolved(old(calls.Value()), payload.requestId, payload)
                               else old(calls.Value())
    {
      hide Tracks, Tags;
      inboundActivity := inboundActivity + 1;
      if payload.op == IDENTIFY || payload.op == REIDENTIFY || payload.op == HELLO || payload.op == IDENTIFIED {
        Enqueue(payload, tag);
        return;
      }
      if payload.op == REQUEST_RESPONSE || payload.op == REQUEST_BATCH_RESPONSE {
        if payload.meta.localGeneratedResponse {
          return;
        }
        if payload.requestId != 0 && payload.requestId !in calls.pending {
          return;
        }
        ResolveKeepsTracks(calls.Value(), done, inFlight, payload);
        calls.Resolve(payload.requestId, payload);
      }
    }

    /** Everything the transport delivers during one poll. `arrived` are the tags of the IDENTIFIEDs among it. */
    method Receive(inbound: seq<Inbound>, ghost done: set<uint32>, ghost inFlight: Option<uint32>, ghost tags: seq<nat>)
        returns (ghost arrived: seq<nat>)
      requires Tracks(calls.Value(), done, inFlight) && Tagged() && |tags| == |inbound|
      modifies this, control, calls
      ensures Tracks(calls.Value(), done, inFlight) && Tagged()
      ensures inboundActivity == old(inboundActivity) + |inbound| && frames == old(frames)
      ensures calls.Value() == CallsAfter(old(calls.Value()), inbound)
      ensures control.Value() == ControlAfter(old(control.Value()), inbound)
      ensures sessionRpcs == old(sessionRpcs) + SessionsIn(inbound)
      ensures controlNotices == old(controlNotices) + NoticesIn(inbound)
      ensures Line() == Answers.ArriveAll(old(Line()), arrived)
      ensures honest <==> old(honest) && Answers.Honest(old(Line()), arrived)
    {
      arrived := [];
      for i := 0 to |inbound|
        invariant Tracks(calls.Value(), done, inFlight) && Tagged()
        invariant inboundActivity == old(inboundActivity) + i && frames == old(frames)
        invariant calls.Value() == CallsAfter(old(calls.Value()), inbound[..i])
        invariant control.Value() == ControlAfter(old(control.Value()), inbound[..i])
        invariant sessionRpcs == old(sessionRpcs) + SessionsIn(inbound[..i])
        invariant controlNotices == old(controlNotices) + NoticesIn(inbound[..i])
        invariant Line() == Answers.ArriveAll(old(Line()), arrived)
        invariant honest <==> old(honest) && Answers.Honest(old(Line()), arrived)
      {
        assert inbound[..i + 1][..i] == inbound[..i];
        match inbound[i]
        case Control(payload) => HandleControl(payload);
        case Rpc(payload) =>
          HandleRpc(payload, done, inFlight, tags[i]);
          if payload.op == IDENTIFIED {
            assert (arrived + [tags[i]])[..|arrived|] == arrived;
            arrived := arrived + [tags[i]];
          }
      }
      assert inbound[..|inbound|] == inbound;
    }

    /** An IDENTIFY leaves on this core. */
    ghost method LetIdentifyLeave(seed: uint32)
      requires Tagged()
      modifies this`frames
      ensures frames == old(frames) + [seed] && Line() == Answers.Sent(old(Line()), seed)
    {
      frames := frames + [seed];
    }

    /** `answer` is the IDENTIFY that a taken IDENTIFIED answers: that of the first one in the queue. */
    method TryTakeSessionRpc(op: RpcOp) returns (taken: Option<RpcPayload>, ghost answer: nat, ghost turned: nat)
      requires Tagged()
      modifies this`sessionRpcs, this`answers
      ensures Tagged()
      ensures var q := old(sessionRpcs);
              var i := FirstWith(q, op);
              taken == (if i < |q| then Some(q[i]) else None) && sessionRpcs == Remaining(q, i)
      ensures taken.None? <==> old(NothingQueued(op))
      ensures taken.None? ==> sessionRpcs == old(sessionRpcs) && Line() == old(Line())
      ensures taken.Some? && op == IDENTIFIED ==>
                && old(Line()).queued != [] && answer == old(Line()).queued[0]
                && Line() == Answers.Taken(old(Line()))
      ensures taken.Some? && op != IDENTIFIED ==>
                turned <= |old(Line()).queued| && Line() == Answers.Turned(old(Line()), turned)
    {
      hide FirstMatch, Tags;
      turned := 0;
      ghost var q, a := sessionRpcs, answers;
      ghost var hit := (p: RpcPayload) => p.op == op;
      var count := |sessionRpcs|;
      for index := 0 to count
        invariant sessionRpcs == q[index..] + q[..index] && answers == a[index..] + a[..index]
        invariant forall j | 0 <= j < index :: !hit(q[j])
      {
        RotationStep(q, index);
        RotationStep(a, index);
        var payload := sessionRpcs[0];
        answer := answers[0];
        sessionRpcs, answers := sessionRpcs[1..], answers[1..];
        if payload.op == op {
          FirstMatchIs(q, hit, index);
          turned := TagsOfHit(q, a, index);
          return Some(payload), answer, turned;
        }
        sessionRpcs, answers := sessionRpcs + [payload], answers + [answer];
      }
      FirstMatchIs(q, hit, |q|);
      assert sessionRpcs == q && answers == a;
      return None, 0, 0;
    }

    method TryTakeControlNotice(opcode: ControlOpcode, id: uint16) returns (taken: Option<ControlPayload>)
      modifies this`controlNotices
      ensures var q := old(controlNotices);
              var i := FirstNotice(q, opcode, id);
              taken == (if i < |q| then Some(q[i]) else None) && controlNotices == Remaining(q, i)
      ensures taken.Some? ==> taken.value.opcode == opcode && taken.value.controlId == id
      ensures taken.None? <==> forall p | p in old(controlNotices) :: p.opcode != opcode || p.controlId != id
      ensures taken.None? ==> controlNotices == old(controlNotices)
    {
      hide FirstMatch;
      ghost var q := controlNotices;
      ghost var hit := (p: ControlPayload) => IsNotice(p, opcode, id);
      var count := |controlNotices|;
      for index := 0 to count
        invariant controlNotices == q[index..] + q[..index]
        invariant forall j | 0 <= j < index :: !hit(q[j])
      {
        RotationStep(q, index);
        var payload := controlNotices[0];
        controlNotices := controlNotices[1..];
        if payload.opcode == opcode && payload.controlId == id {
          FirstMatchIs(q, hit, index);
          return Some(payload);
        }
        controlNotices := controlNotices + [payload];
      }
      FirstMatchIs(q, hit, |q|);
      assert controlNotices == q;
      return None;
    }
  }
}
