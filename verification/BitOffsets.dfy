/** Contiguous bit offsets: sorted distinct keys against their positions, and permutations of 0..n-1. */
module BitOffsets {
  import opened AxtpTypes
  import opened Numbers
  import opened RegistryItems

  function InDomain(items: seq<RegistryItem>, domain: string): seq<RegistryItem> {
    if items == [] then []
    else
      var last := items[|items| - 1];
      InDomain(items[..|items| - 1], domain) + (if last.domain == domain then [last] else [])
  }

  lemma {:induction false} InDomainIff(items: seq<RegistryItem>, domain: string, item: RegistryItem)
    ensures item in InDomain(items, domain) <==> item in items && item.domain == domain
  {
    if items != [] {
      InDomainIff(items[..|items| - 1], domain, item);
      assert items == items[..|items| - 1] + [items[|items| - 1]];
    }
  }

  function Offsets(items: seq<RegistryItem>): set<real> {
    set item | item in items :: item.bitOffset
  }

  /** Natural numbers, with every smaller natural number present too. */
  ghost predicate FromZero(bits: set<real>) {
    forall x | x in bits :: IsInteger(x) && x >= 0.0 && (x > 0.0 ==> x - 1.0 in bits)
  }

  ghost predicate Increasing(bits: seq<real>) {
    forall j, k | 0 <= j < k < |bits| :: bits[j] < bits[k]
  }

  lemma Element<T>(s: set<T>) returns (x: T)
    requires s != {}
    ensures x in s
  {
    x :| x in s;
  }

  /** The built-in numeric sort on distinct keys. */
  method SortNumbers(keys: set<real>) returns (bits: seq<real>)
    ensures Increasing(bits) && forall x :: x in bits <==> x in keys
  {
    bits := [];
    var remaining := keys;
    while remaining != {}
      invariant remaining <= keys && Increasing(bits)
      invariant forall k, x | 0 <= k < |bits| && x in remaining :: bits[k] < x
      invariant forall x :: x in bits <==> x in keys && x !in remaining
      decreases remaining
    {
      ghost var least := Least(remaining, (x: real) => x);
      var bit :| bit in remaining && forall other | other in remaining :: bit <= other;
      bits := bits + [bit];
      remaining := remaining - {bit};
    }
  }

  ghost predicate Positions(bits: seq<real>) {
    forall k | 0 <= k < |bits| :: bits[k] == k as real
  }

  lemma {:induction false} SortedFromZero(bits: seq<real>, keys: set<real>, n: nat)
    requires Increasing(bits) && FromZero(keys) && (forall x :: x in bits <==> x in keys) && n <= |bits|
    ensures forall k | 0 <= k < n :: bits[k] == k as real
  {
    if n > 0 {
      SortedFromZero(bits, keys, n - 1);
      var bit := bits[n - 1];
      assert bit in keys;
      assert n > 1 ==> bits[n - 2] < bit;
      if bit > 0.0 {
        assert bit - 1.0 in bits;
        var m: nat :| m < |bits| && bits[m] == bit - 1.0;
        assert m < n - 1;
        assert bits[m + 1] == (m + 1) as real || m + 1 == n - 1;
      }
    }
  }

  /** Each sorted key equals its position exactly when the keys are contiguous from zero. */
  lemma PositionsIff(bits: seq<real>, keys: set<real>)
    requires Increasing(bits) && forall x :: x in bits <==> x in keys
    ensures Positions(bits) <==> FromZero(keys)
  {
    if FromZero(keys) {
      SortedFromZero(bits, keys, |bits|);
    }
    if Positions(bits) {
      forall x | x in keys
        ensures IsInteger(x) && x >= 0.0 && (x > 0.0 ==> x - 1.0 in keys)
      {
        var k :| 0 <= k < |bits| && bits[k] == x;
        if k > 0 {
          assert bits[k - 1] in keys;
        }
      }
    }
  }

  /** The numbers 0 to n - 1. */
  function Ramp(n: nat): set<real> {
    if n == 0 then {} else Ramp(n - 1) + {(n - 1) as real}
  }

  predicate NaturalBelow(x: real, n: nat) {
    IsInteger(x) && 0.0 <= x < n as real
  }

  lemma NaturalBelowIff(x: real, i: int, n: nat)
    requires x == i as real
    ensures NaturalBelow(x, n) <==> 0 <= i < n
  {
  }

  lemma NaturalBelowStep(x: real, n: nat)
    requires n > 0
    ensures NaturalBelow(x, n) <==> NaturalBelow(x, n - 1) || x == (n - 1) as real
  {
    if IsInteger(x) {
      NaturalBelowIff(x, x.Floor, n);
      NaturalBelowIff(x, x.Floor, n - 1);
      hide *;
    } else {
      assert x != (n - 1) as real;
    }
  }

  lemma {:induction false} RampIff(n: nat, x: real)
    ensures x in Ramp(n) <==> NaturalBelow(x, n)
  {
    if n > 0 {
      hide NaturalBelow;
      NaturalBelowStep(x, n);
      RampIff(n - 1, x);
    }
  }

  lemma {:induction false} RampSize(n: nat)
    ensures |Ramp(n)| == n
  {
    if n > 0 {
      RampSize(n - 1);
      RampIff(n - 1, (n - 1) as real);
      NaturalBelowIff((n - 1) as real, n - 1, n - 1);
    }
  }

  lemma GreatestBit(bits: set<real>) returns (greatest: real)
    requires bits != {}
    ensures greatest in bits && forall x | x in bits :: x <= greatest
  {
    var negated := set x | x in bits :: -x;
    var some := Element(bits);
    assert -some in negated;
    var least := Least(negated, (x: real) => x);
    greatest := -least;
    forall x | x in bits
      ensures x <= greatest
    {
      assert -x in negated;
    }
  }

  /** The greatest of a contiguous set is the one number missing from the ramp of the others. */
  lemma TopFollowsRamp(bits: set<real>, top: real, n: nat)
    requires FromZero(bits) && top in bits && bits - {top} == Ramp(n)
    ensures top == n as real
  {
    var i := top.Floor;
    RampIff(n, top);
    NaturalBelowIff(top, i, n);
    if i > 0 {
      assert top - 1.0 in Ramp(n);
      RampIff(n, top - 1.0);
      NaturalBelowIff(top - 1.0, i - 1, n);
    }
  }

  lemma {:induction false} FromZeroIsRamp(bits: set<real>)
    requires FromZero(bits)
    ensures bits == Ramp(|bits|)
    decreases |bits|
  {
    if bits != {} {
      var top := GreatestBit(bits);
      var rest := bits - {top};
      assert FromZero(rest);
      FromZeroIsRamp(rest);
      TopFollowsRamp(bits, top, |rest|);
      assert bits == rest + {top};
    }
  }

  lemma RampFromZero(n: nat)
    ensures FromZero(Ramp(n))
  {
    forall x | x in Ramp(n)
      ensures IsInteger(x) && x >= 0.0 && (x > 0.0 ==> x - 1.0 in Ramp(n))
    {
      RampIff(n, x);
      RampIff(n, x - 1.0);
      NaturalBelowIff(x, x.Floor, n);
      if x > 0.0 {
        NaturalBelowIff(x - 1.0, x.Floor - 1, n);
      }
    }
  }

  lemma DistinctSnoc(items: seq<RegistryItem>, last: RegistryItem)
    ensures DistinctKeys(items + [last], ByOffset) <==>
            DistinctKeys(items, ByOffset) && last.bitOffset !in Offsets(items)
  {
    var all := items + [last];
    assert forall k | 0 <= k < |items| :: all[k] == items[k];
    if last.bitOffset in Offsets(items) {
      var k :| 0 <= k < |items| && items[k].bitOffset == last.bitOffset;
      assert ByOffset(all[k]) == ByOffset(all[|items|]);
    }
  }

  lemma {:induction false} OffsetsSize(items: seq<RegistryItem>)
    ensures |Offsets(items)| <= |items|
    ensures |Offsets(items)| == |items| <==> DistinctKeys(items, ByOffset)
  {
    if items != [] {
      var n := |items| - 1;
      var before, last := items[..n], items[n];
      OffsetsSize(before);
      assert items == before + [last];
      assert Offsets(items) == Offsets(before) + {last.bitOffset};
      DistinctSnoc(before, last);
      hide DistinctKeys, Offsets;
    }
  }

  /** n items whose offsets are exactly 0 to n - 1. */
  ghost predicate IsPermutation(items: seq<RegistryItem>) {
    Offsets(items) == Ramp(|items|)
  }

  /** Distinct and contiguous from zero is the same as being a permutation of 0 to n - 1. */
  lemma PermutationIff(items: seq<RegistryItem>)
    ensures IsPermutation(items) <==> DistinctKeys(items, ByOffset) && FromZero(Offsets(items))
  {
    hide DistinctKeys, Offsets, FromZero;
    OffsetsSize(items);
    RampSize(|items|);
    RampFromZero(|items|);
    if FromZero(Offsets(items)) {
      FromZeroIsRamp(Offsets(items));
    }
  }
}
