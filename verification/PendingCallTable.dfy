/** The table that matches responses to requests: every non-zero id is single-use until the table is reset. */
module PendingCallTable {
  import opened AxtpTypes

  datatype Calls = Calls(pending: set<uint32>, resolved: map<uint32, RpcPayload>, retired: set<uint32>)

  const NO_CALLS: Calls := Calls({}, map[], {})

  predicate Expectable(c: Calls, id: uint32) {
    id == 0 || (id !in c.retired && id !in c.pending)
  }

  function Expected(c: Calls, id: uint32): Calls {
    if Expectable(c, id) then c.(resolved := c.resolved - {id}, pending := c.pending + {id}) else c
  }

  /** A response is stored only on the legacy channel zero or for a request still in flight. */
  predicate Resolvable(c: Calls, id: uint32) {
    id == 0 || (id !in c.retired && id in c.pending)
  }

  function Resolved(c: Calls, id: uint32, payload: RpcPayload): Calls {
    if !Resolvable(c, id) then c
    else Calls(c.pending - {id}, c.resolved[id := payload], if id != 0 then c.retired + {id} else c.retired)
  }

  function Abandoned(c: Calls, id: uint32): Calls {
    Calls(c.pending - {id}, c.resolved - {id}, if id != 0 then c.retired + {id} else c.retired)
  }

  function Taken(c: Calls, id: uint32): Calls {
    c.(resolved := c.resolved - {id})
  }

  function Response(c: Calls, id: uint32): Option<RpcPayload> {
    if id in c.resolved then Some(c.resolved[id]) else None
  }

  /**
   A response is stored, in place of any before it, for id zero always and for another id exactly while its request is
   in flight and not retired; any other response changes nothing.
   */
  lemma ResolveDecides(c: Calls, id: uint32, payload: RpcPayload)
    ensures var d := Resolved(c, id, payload);
            && (id == 0 || (id in c.pending && id !in c.retired) ==>
                  Response(d, id) == Some(payload) && id !in d.pending && d.retired == c.retired + ({id} - {0}))
            && (id != 0 && (id !in c.pending || id in c.retired) ==> d == c)
            && forall other: uint32 | other != id ::
                 Response(d, other) == Response(c, other) && (other in d.pending <==> other in c.pending)
  {
  }

  class PendingCallTable {
    var pending: set<uint32>
    var resolved: map<uint32, RpcPayload>
    var retired: set<uint32>

    function Value(): Calls
      reads this
    {
      Calls(pending, resolved, retired)
    }

    constructor ()
      ensures Value() == NO_CALLS
    {
      pending, resolved, retired := {}, map[], {};
    }

    method Expect(id: uint32) returns (ok: bool)
      modifies this
      ensures ok == Expectable(old(Value()), id)
      ensures Value() == Expected(old(Value()), id)
    {
      if id != 0 && id in retired {
        return false;
      }
      if id != 0 && id in pending {
        return false;
      }
      resolved := resolved - {id};
      pending := pending + {id};
      return true;
    }

    method Resolve(id: uint32, payload: RpcPayload)
      modifies this
      ensures Value() == Resolved(old(Value()), id, payload)
    {
      if id != 0 && id in retired {
        return;
      }
      if id != 0 && id !in pending {
        return;
      }
      resolved := resolved[id := payload];
      pending := pending - {id};
      if id != 0 {
        retired := retired + {id};
      }
    }

    method Abandon(id: uint32)
      modifies this
      ensures Value() == Abandoned(old(Value()), id)
    {
      pending := pending - {id};
      resolved := resolved - {id};
      if id != 0 {
        retired := retired + {id};
      }
    }

    method TryTakeResolved(id: uint32) returns (payload: Option<RpcPayload>)
      modifies this
      ensures payload == Response(old(Value()), id)
      ensures Value() == Taken(old(Value()), id)
    {
      if id !in resolved {
        assert resolved - {id} == resolved;
        return None;
      }
      payload := Some(resolved[id]);
      resolved := resolved - {id};
    }

    method TryTakeAnyResolved() returns (payload: Option<RpcPayload>)
      modifies this
      ensures payload == Response(old(Value()), 0)
      ensures Value() == Taken(old(Value()), 0)
    {
      payload := TryTakeResolved(0);
    }

    method Reset()
      modifies this
      ensures Value() == NO_CALLS
    {
      pending, resolved, retired := {}, map[], {};
    }
  }

  // Runs between two resets.

  datatype Op =
    | Expect(id: uint32)
    | Resolve(id: uint32, payload: RpcPayload)
    | Abandon(id: uint32)
    | Take(id: uint32)

  function Next(c: Calls, op: Op): Calls {
    match op
    case Expect(id) => Expected(c, id)
    case Resolve(id, payload) => Resolved(c, id, payload)
    case Abandon(id) => Abandoned(c, id)
    case Take(id) => Taken(c, id)
  }

  function Run(ops: seq<Op>): Calls {
    if ops == [] then NO_CALLS else Next(Run(ops[..|ops| - 1]), ops[|ops| - 1])
  }

  /** Operation `i` hands the caller a response for `id`. */
  ghost predicate Delivers(ops: seq<Op>, i: nat, id: uint32) {
    i < |ops| && ops[i] == Take(id) && Response(Run(ops[..i]), id).Some?
  }

  /** Operation `i` is a successful claim of `id`. */
  ghost predicate Claims(ops: seq<Op>, i: nat, id: uint32) {
    i < |ops| && ops[i] == Expect(id) && Expectable(Run(ops[..i]), id)
  }

  /** Operation `i` is the arrival of `payload` for `id`, and it is kept. */
  ghost predicate Stores(ops: seq<Op>, i: nat, id: uint32, payload: RpcPayload) {
    i < |ops| && ops[i] == Resolve(id, payload) && Resolvable(Run(ops[..i]), id)
  }

  ghost predicate Inv(c: Calls) {
    && c.pending - {0} !! c.retired
    && c.resolved.Keys - {0} <= c.retired
  }

  lemma {:induction false} RunKeepsInv(ops: seq<Op>)
    ensures Inv(Run(ops))
  {
    if ops != [] {
      RunKeepsInv(ops[..|ops| - 1]);
    }
  }

  lemma {:induction false} RetiredForever(ops: seq<Op>, i: nat, id: uint32)
    requires i <= |ops| && id in Run(ops[..i]).retired
    ensures id in Run(ops).retired
    ensures id !in Run(ops[..i]).resolved ==> id == 0 || id !in Run(ops).resolved
    decreases |ops|
  {
    if i == |ops| {
      assert ops[..i] == ops;
    } else {
      var before := ops[..|ops| - 1];
      assert before[..i] == ops[..i];
      RetiredForever(before, i, id);
      RunKeepsInv(before);
    }
  }

  /** Once an id is answered or abandoned, it is never claimed again and nothing is ever delivered for it. */
  lemma NothingAfterTheEnd(ops: seq<Op>, i: nat, j: nat, id: uint32)
    requires id != 0 && i < j
    requires Delivers(ops, i, id) || (i < |ops| && ops[i] == Abandon(id))
    ensures !Delivers(ops, j, id) && !Claims(ops, j, id)
  {
    if j < |ops| {
      RunKeepsInv(ops[..i]);
      var after := ops[..i + 1];
      assert after[..i] == ops[..i];
      assert ops[..j][..i + 1] == after;
      RetiredForever(ops[..j], i + 1, id);
    }
  }

  /** A non-zero id is claimed at most once. */
  lemma ClaimedOnce(ops: seq<Op>, i: nat, j: nat, id: uint32)
    requires id != 0 && i < j && Claims(ops, i, id)
    ensures !Claims(ops, j, id)
  {
    if j < |ops| {
      assert ops[..i + 1][..i] == ops[..i];
      StaysClaimed(ops[..j], i + 1, id);
      assert ops[..j][..i + 1] == ops[..i + 1];
    }
  }

  lemma {:induction false} StaysClaimed(ops: seq<Op>, i: nat, id: uint32)
    requires id != 0 && i <= |ops| && id in Run(ops[..i]).pending + Run(ops[..i]).retired
    ensures id in Run(ops).pending + Run(ops).retired
    decreases |ops|
  {
    if i == |ops| {
      assert ops[..i] == ops;
    } else {
      assert ops[..|ops| - 1][..i] == ops[..i];
      StaysClaimed(ops[..|ops| - 1], i, id);
    }
  }

  /** Every delivery of a non-zero id hands over a response that arrived after the id was claimed. */
  lemma {:induction false} DeliveredWasClaimed(ops: seq<Op>, id: uint32) returns (i: nat, j: nat)
    requires id != 0 && id in Run(ops).resolved
    ensures i < j < |ops| && Claims(ops, i, id) && Stores(ops, j, id, Run(ops).resolved[id])
  {
    var n := |ops| - 1;
    var before := ops[..n];
    RunKeepsInv(before);
    if id in Run(before).resolved {
      i, j := DeliveredWasClaimed(before, id);
      assert before[..i] == ops[..i] && before[..j] == ops[..j];
    } else {
      i := PendingWasClaimed(before, id);
      j := n;
      assert before[..i] == ops[..i];
    }
  }

  lemma {:induction false} PendingWasClaimed(ops: seq<Op>, id: uint32) returns (i: nat)
    requires id != 0 && id in Run(ops).pending
    ensures i < |ops| && Claims(ops, i, id)
  {
    var n := |ops| - 1;
    var before := ops[..n];
    if id in Run(before).pending {
      i := PendingWasClaimed(before, id);
      assert before[..i] == ops[..i];
    } else {
      i := n;
    }
  }

  /** At most one response per non-zero id, it answers the one claim of that id, and never after an abandon. */
  lemma AtMostOneAnswer(ops: seq<Op>, k: nat, id: uint32)
    requires id != 0 && Delivers(ops, k, id)
    ensures exists i: nat, j: nat ::
              i < j < k && Claims(ops, i, id) && Stores(ops, j, id, Response(Run(ops[..k]), id).value)
    ensures forall l: nat :: Delivers(ops, l, id) ==> l == k
    ensures forall l: nat | l < |ops| && ops[l] == Abandon(id) :: k < l
  {
    var i, j := DeliveredWasClaimed(ops[..k], id);
    assert ops[..k][..i] == ops[..i] && ops[..k][..j] == ops[..j];
    assert i < j < k && Claims(ops, i, id) && Stores(ops, j, id, Response(Run(ops[..k]), id).value);
    forall l: nat | Delivers(ops, l, id)
      ensures l == k
    {
      if l != k {
        NothingAfterTheEnd(ops, if l < k then l else k, if l < k then k else l, id);
      }
    }
    forall l: nat | l < |ops| && ops[l] == Abandon(id)
      ensures k < l
    {
      if l < k {
        NothingAfterTheEnd(ops, l, k, id);
      }
    }
  }
}
