/** The cyclic order in which request ids are tried: 1, 2, ..., 2^32 - 1, 1, ... */
module RequestIds {
  import opened AxtpTypes

  const ID_COUNT: nat := 0xFFFF_FFFF

  /** The id tried after `k` rejections when the first candidate is `first`. */
  function Candidate(first: uint32, k: nat): (id: uint32)
    requires first != 0
    ensures id != 0
  {
    (first - 1 + k) % ID_COUNT + 1
  }

  function FirstCandidate(next: uint32): (first: uint32)
    ensures first != 0
  {
    if next == 0 then 1 else next
  }

  /** `id` is unused and every id before it in cyclic order from the cursor is used. */
  ghost predicate IsFirstUnused(used: set<uint32>, next: uint32, id: uint32) {
    id !in used && exists k: nat ::
      k < ID_COUNT && id == Candidate(FirstCandidate(next), k) &&
      forall j: nat | j < k :: Candidate(FirstCandidate(next), j) in used
  }

  ghost predicate Exhausted(used: set<uint32>) {
    forall id: uint32 | id != 0 :: id in used
  }

  lemma CandidateStart(first: uint32)
    requires first != 0
    ensures Candidate(first, 0) == first
  {
  }

  lemma CandidateStep(first: uint32, k: nat)
    requires first != 0
    ensures Candidate(first, k + 1) == if Candidate(first, k) == 0xFFFF_FFFF then 1 else Candidate(first, k) + 1
    ensures k + 1 <= ID_COUNT ==> (Candidate(first, k + 1) == first <==> k + 1 == ID_COUNT)
  {
  }

  /** The order visits every non-zero id within one round. */
  lemma CandidatesCover(first: uint32, id: uint32) returns (k: nat)
    requires first != 0 && id != 0
    ensures k < ID_COUNT && Candidate(first, k) == id
  {
    k := if first <= id then id - first else id - first + ID_COUNT;
  }

  /** The first unused id in cyclic order is unique, so the allocator has exactly one possible answer. */
  lemma FirstUnusedIsUnique(used: set<uint32>, next: uint32, a: uint32, b: uint32)
    requires IsFirstUnused(used, next, a) && IsFirstUnused(used, next, b)
    ensures a == b
  {
    var first := FirstCandidate(next);
    var k: nat :| a == Candidate(first, k) && forall j: nat | j < k :: Candidate(first, j) in used;
    var l: nat :| b == Candidate(first, l) && forall j: nat | j < l :: Candidate(first, j) in used;
  }

  lemma ExhaustedByOneRound(used: set<uint32>, first: uint32)
    requires first != 0 && forall j: nat | j < ID_COUNT :: Candidate(first, j) in used
    ensures Exhausted(used)
  {
    forall id: uint32 | id != 0
      ensures id in used
    {
      var k := CandidatesCover(first, id);
    }
  }

  /** Exhaustion needs every one of the 2^32 - 1 non-zero ids. */
  lemma {:induction false} ExhaustedSize(used: set<uint32>, n: nat)
    requires n <= ID_COUNT && forall id: uint32 | 0 < id <= n :: id in used
    ensures |used| >= n
  {
    if n > 0 {
      var last: uint32 := n;
      ExhaustedSize(used - {last}, n - 1);
    }
  }

  /** `other` is tried before `id` when ids go up from the cursor and start again at one. */
  predicate TriedBefore(next: uint32, id: uint32, other: uint32) {
    other != 0 && if next <= id then next <= other < id else other >= next || other < id
  }

  function Place(first: uint32, id: uint32): nat
    requires first != 0 && id != 0
  {
    if first <= id then id - first else id - first + ID_COUNT
  }

  lemma PlaceIs(first: uint32, id: uint32, k: nat)
    requires first != 0 && id != 0 && k < ID_COUNT
    ensures Candidate(first, k) == id <==> k == Place(first, id)
  {
  }

  /** The answer in plain terms: an unused id other than zero, with every id that is tried before it in use. */
  lemma FirstUnusedSkipsOnlyUsed(used: set<uint32>, next: uint32, id: uint32)
    requires IsFirstUnused(used, next, id)
    ensures id != 0 && id !in used && forall other: uint32 | TriedBefore(next, id, other) :: other in used
  {
    hide Candidate;
    var first: uint32 := FirstCandidate(next);
    var k: nat :| k < ID_COUNT && id == Candidate(first, k) && forall j: nat | j < k :: Candidate(first, j) in used;
    PlaceIs(first, id, k);
    forall other: uint32 | TriedBefore(next, id, other)
      ensures other in used
    {
      PlaceIs(first, other, Place(first, other));
    }
  }
}
