/** How the generator learns which domain owns each high byte of an id. */
module DomainRegistry {
  import opened AxtpTypes
  import opened RegistryItems

  type DomainByHighByte = map<int, string>

  /** `highByte` is any number the registry file may hold. */
  datatype DomainCandidate = DomainCandidate(highByte: real, domain: string, name: string)

  datatype DomainRange = DomainRange(highByte: real, domain: string)

  predicate IsByte(x: real) {
    IsInteger(x) && 0.0 <= x <= 255.0
  }

  predicate IsRegistryHighByte(highByte: int) {
    0x00 < highByte < 0x70
  }

  /** The bytes are the integers from 0 to 255. */
  lemma BytesAre(n: int, x: real)
    ensures IsByte(n as real) <==> 0 <= n < 256
    ensures IsByte(x) <==> 0 <= x.Floor < 256 && x == x.Floor as real
  {
  }

  function Owner(mapping: DomainByHighByte, highByte: int): string {
    if highByte in mapping then mapping[highByte] else ""
  }

  /** The candidate is a byte, and the byte is free, held under an empty domain name, or held by the same domain. */
  predicate Fits(mapping: DomainByHighByte, c: DomainCandidate) {
    && IsByte(c.highByte)
    && Owner(mapping, c.highByte.Floor) in {"", c.domain}
  }

  /** The map after all candidates; the most recent one wins. */
  function Assigned(candidates: seq<DomainCandidate>): DomainByHighByte {
    if candidates == [] then map[]
    else
      var last := candidates[|candidates| - 1];
      Assigned(candidates[..|candidates| - 1])[last.highByte.Floor := last.domain]
  }

  ghost predicate AllFit(candidates: seq<DomainCandidate>) {
    forall k | 0 <= k < |candidates| :: Fits(Assigned(candidates[..k]), candidates[k])
  }

  lemma AllFitStep(candidates: seq<DomainCandidate>, next: DomainCandidate)
    ensures AllFit(candidates + [next]) <==> AllFit(candidates) && Fits(Assigned(candidates), next)
    ensures Assigned(candidates + [next]) == Assigned(candidates)[next.highByte.Floor := next.domain]
  {
    var more := candidates + [next];
    assert more[..|candidates|] == candidates;
    forall k | 0 <= k < |candidates|
      ensures more[..k] == candidates[..k] && more[k] == candidates[k]
    {
    }
  }

  method AddDomain(mapping: DomainByHighByte, candidate: DomainCandidate)
      returns (verdict: Verdict, after: DomainByHighByte)
    ensures verdict == if Fits(mapping, candidate) then Accepted else Rejected(INVALID, candidate.name)
    ensures after == if verdict.Accepted? then mapping[candidate.highByte.Floor := candidate.domain] else mapping
  {
    if !IsInteger(candidate.highByte) || candidate.highByte < 0.0 || candidate.highByte > 255.0 {
      return Rejected(INVALID, candidate.name), mapping;
    }
    var existing := Owner(mapping, candidate.highByte.Floor);
    if existing != "" && existing != candidate.domain {
      return Rejected(INVALID, candidate.name), mapping;
    }
    return Accepted, mapping[candidate.highByte.Floor := candidate.domain];
  }

  /** An item stands for its domain at its high byte when that byte is in the registry range. */
  function Candidates(item: RegistryItem): seq<DomainCandidate> {
    if IsRegistryHighByte(HighByte(item.id)) then
      [DomainCandidate(HighByte(item.id) as real, item.domain, item.name)]
    else
      []
  }

  method AddItemDomain(mapping: DomainByHighByte, item: RegistryItem, ghost before: seq<DomainCandidate>)
      returns (verdict: Verdict, after: DomainByHighByte)
    requires AllFit(before) && mapping == Assigned(before)
    ensures verdict == if AllFit(before + Candidates(item)) then Accepted else Rejected(INVALID, item.name)
    ensures verdict.Accepted? ==> after == Assigned(before + Candidates(item))
  {
    hide AllFit, Assigned, Fits;
    var highByte := HighByte(item.id);
    if !IsRegistryHighByte(highByte) {
      assert before + Candidates(item) == before;
      return Accepted, mapping;
    }
    AllFitStep(before, DomainCandidate(highByte as real, item.domain, item.name));
    verdict, after := AddDomain(mapping, DomainCandidate(highByte as real, item.domain, item.name));
  }

  function AllCandidates(items: seq<RegistryItem>): seq<DomainCandidate> {
    if items == [] then [] else AllCandidates(items[..|items| - 1]) + Candidates(items[|items| - 1])
  }

  lemma AllFitPrefix(candidates: seq<DomainCandidate>, more: seq<DomainCandidate>)
    requires AllFit(candidates + more)
    ensures AllFit(candidates)
  {
    forall k | 0 <= k < |candidates|
      ensures Fits(Assigned(candidates[..k]), candidates[k])
    {
      assert (candidates + more)[..k] == candidates[..k] && (candidates + more)[k] == candidates[k];
    }
  }

  lemma {:induction false} AllCandidatesPrefix(items: seq<RegistryItem>, n: nat) returns (rest: seq<DomainCandidate>)
    requires n <= |items|
    ensures AllCandidates(items) == AllCandidates(items[..n]) + rest
  {
    hide Candidates;
    if n == |items| {
      rest := [];
      assert items[..n] == items;
    } else {
      var last := |items| - 1;
      rest := AllCandidatesPrefix(items[..last], n);
      assert items[..last][..n] == items[..n];
      rest := rest + Candidates(items[last]);
    }
  }

  /** One of the loops that feed a list of items into the map. */
  method AddItemDomains(mapping: DomainByHighByte, items: seq<RegistryItem>, ghost before: seq<DomainCandidate>)
      returns (verdict: Verdict, after: DomainByHighByte)
    requires AllFit(before) && mapping == Assigned(before)
    ensures verdict.Accepted? <==> AllFit(before + AllCandidates(items))
    ensures verdict.Accepted? ==> after == Assigned(before + AllCandidates(items))
  {
    hide AllFit, Assigned, Candidates;
    verdict, after := Accepted, mapping;
    assert before + AllCandidates([]) == before;
    for k := 0 to |items|
      invariant verdict.Accepted? && AllFit(before + AllCandidates(items[..k]))
      invariant after == Assigned(before + AllCandidates(items[..k]))
    {
      assert items[..k + 1][..k] == items[..k];
      assert before + AllCandidates(items[..k + 1]) == before + AllCandidates(items[..k]) + Candidates(items[k]);
      verdict, after := AddItemDomain(after, items[k], before + AllCandidates(items[..k]));
      if verdict.Rejected? {
        ghost var rest := AllCandidatesPrefix(items, k + 1);
        assert before + AllCandidates(items) == before + AllCandidates(items[..k + 1]) + rest;
        if AllFit(before + AllCandidates(items)) {
          AllFitPrefix(before + AllCandidates(items[..k + 1]), rest);
        }
        return;
      }
    }
    assert items[..|items|] == items;
  }

  function RangeCandidates(ranges: seq<DomainRange>): (candidates: seq<DomainCandidate>)
    ensures |candidates| == |ranges|
  {
    seq(|ranges|, k requires 0 <= k < |ranges| =>
      DomainCandidate(ranges[k].highByte, ranges[k].domain, ranges[k].domain))
  }

  method BuildDomainByHighByteFromRegistry(domainRegistry: Option<seq<DomainRange>>)
      returns (verdict: Verdict, mapping: DomainByHighByte)
    ensures var candidates := RangeCandidates(domainRegistry.GetOr([]));
            && (verdict.Accepted? <==> AllFit(candidates))
            && (verdict.Accepted? ==> mapping == Assigned(candidates))
  {
    hide AllFit, Assigned;
    var ranges := domainRegistry.GetOr([]);
    ghost var candidates := RangeCandidates(ranges);
    verdict, mapping := Accepted, map[];
    NoCandidates();
    for k := 0 to |ranges|
      invariant verdict.Accepted? && AllFit(candidates[..k]) && mapping == Assigned(candidates[..k])
    {
      assert candidates[..k + 1] == candidates[..k] + [candidates[k]];
      AllFitStep(candidates[..k], candidates[k]);
      verdict, mapping := AddDomain(mapping, DomainCandidate(ranges[k].highByte, ranges[k].domain, ranges[k].domain));
      if verdict.Rejected? {
        assert candidates == candidates[..k + 1] + candidates[k + 1..];
        if AllFit(candidates) {
          AllFitPrefix(candidates[..k + 1], candidates[k + 1..]);
        }
        return;
      }
    }
    assert candidates[..|ranges|] == candidates;
  }

  lemma NoCandidates()
    ensures AllFit([]) && Assigned([]) == map[]
  {
  }

  /** A non-empty declared registry is used alone; otherwise methods, events and errors are read in that order. */
  function SourceCandidates(domainRegistry: Option<seq<DomainRange>>, methods: seq<RegistryItem>,
                            events: seq<RegistryItem>, errors: seq<RegistryItem>): seq<DomainCandidate>
  {
    var declared := RangeCandidates(domainRegistry.GetOr([]));
    if declared != [] then declared
    else AllCandidates(methods) + AllCandidates(events) + AllCandidates(errors)
  }

  lemma AssignedSize(candidates: seq<DomainCandidate>)
    ensures |Assigned(candidates)| > 0 <==> candidates != []
  {
  }

  method BuildSourceDomainByHighByte(domainRegistry: Option<seq<DomainRange>>, methods: seq<RegistryItem>,
                                     events: seq<RegistryItem>, errors: seq<RegistryItem>)
      returns (verdict: Verdict, mapping: DomainByHighByte)
    ensures var candidates := SourceCandidates(domainRegistry, methods, events, errors);
            && (verdict.Accepted? <==> AllFit(candidates))
            && (verdict.Accepted? ==> mapping == Assigned(candidates))
  {
    hide AllFit, Assigned, AllCandidates;
    ghost var declared := RangeCandidates(domainRegistry.GetOr([]));
    verdict, mapping := BuildDomainByHighByteFromRegistry(domainRegistry);
    if verdict.Rejected? {
      if declared == [] {
        NoCandidates();
      }
      return;
    }
    AssignedSize(declared);
    if |mapping| > 0 {
      return;
    }
    mapping := map[];
    NoCandidates();
    ghost var ms, es, rs := AllCandidates(methods), AllCandidates(events), AllCandidates(errors);
    assert [] + ms == ms;
    verdict, mapping := AddItemDomains(mapping, methods, []);
    if verdict.Rejected? {
      if AllFit(ms + es + rs) {
        AllFitPrefix(ms + es, rs);
        AllFitPrefix(ms, es);
      }
      return;
    }
    verdict, mapping := AddItemDomains(mapping, events, ms);
    if verdict.Rejected? {
      if AllFit(ms + es + rs) {
        AllFitPrefix(ms + es, rs);
      }
      return;
    }
    verdict, mapping := AddItemDomains(mapping, errors, ms + es);
  }

  /** Errors speak only for bytes that nothing before them has taken. */
  function WithErrors(candidates: seq<DomainCandidate>, errors: seq<RegistryItem>): seq<DomainCandidate> {
    if errors == [] then candidates
    else
      var last := errors[|errors| - 1];
      var before := WithErrors(candidates, errors[..|errors| - 1]);
      if HighByte(last.id) in Assigned(before) then before else before + Candidates(last)
  }

  function ProtocolCandidates(methods: seq<RegistryItem>, events: seq<RegistryItem>, errors: seq<RegistryItem>):
    seq<DomainCandidate>
  {
    WithErrors(AllCandidates(methods) + AllCandidates(events), errors)
  }

  lemma FreeByteFits(before: seq<DomainCandidate>, item: RegistryItem)
    requires HighByte(item.id) !in Assigned(before)
    ensures AllFit(before + Candidates(item)) <==> AllFit(before)
  {
    hide AllFit, Assigned;
    if IsRegistryHighByte(HighByte(item.id)) {
      AllFitStep(before, DomainCandidate(HighByte(item.id) as real, item.domain, item.name));
    } else {
      assert before + [] == before;
    }
  }

  /** An error never clashes: its byte is skipped when taken. */
  lemma {:induction false} ErrorsAlwaysFit(candidates: seq<DomainCandidate>, errors: seq<RegistryItem>)
    ensures AllFit(WithErrors(candidates, errors)) <==> AllFit(candidates)
  {
    hide AllFit, Assigned, Candidates;
    if errors != [] {
      var last := errors[|errors| - 1];
      ErrorsAlwaysFit(candidates, errors[..|errors| - 1]);
      var before := WithErrors(candidates, errors[..|errors| - 1]);
      if HighByte(last.id) !in Assigned(before) {
        FreeByteFits(before, last);
      }
    }
  }

  /** The errors here carry their category as the domain, which is how the code passes them on. */
  method BuildProtocolDomainByHighByte(methods: seq<RegistryItem>, events: seq<RegistryItem>, errors: seq<RegistryItem>)
      returns (verdict: Verdict, mapping: DomainByHighByte)
    ensures verdict.Accepted? <==> AllFit(AllCandidates(methods) + AllCandidates(events))
    ensures verdict.Accepted? ==> mapping == Assigned(ProtocolCandidates(methods, events, errors))
  {
    hide AllFit, Assigned, AllCandidates, Candidates;
    NoCandidates();
    ghost var ms, es := AllCandidates(methods), AllCandidates(events);
    assert [] + ms == ms;
    verdict, mapping := AddItemDomains(map[], methods, []);
    if verdict.Rejected? {
      if AllFit(ms + es) {
        AllFitPrefix(ms, es);
      }
      return;
    }
    verdict, mapping := AddItemDomains(mapping, events, ms);
    if verdict.Rejected? {
      return;
    }
    for k := 0 to |errors|
      invariant verdict.Accepted? && mapping == Assigned(WithErrors(ms + es, errors[..k]))
    {
      assert errors[..k + 1][..k] == errors[..k];
      if HighByte(errors[k].id) in mapping {
        continue;
      }
      ErrorsAlwaysFit(ms + es, errors[..k]);
      ErrorsAlwaysFit(ms + es, errors[..k + 1]);
      verdict, mapping := AddItemDomain(mapping, errors[k], WithErrors(ms + es, errors[..k]));
    }
    assert errors[..|errors|] == errors;
  }

  // ---------- what an accepted map means ----------

  ghost predicate NamedDomains(candidates: seq<DomainCandidate>) {
    forall c | c in candidates :: c.domain != ""
  }

  /** No byte is claimed for two domains. */
  ghost predicate OneDomainPerByte(candidates: seq<DomainCandidate>) {
    forall c, d | c in candidates && d in candidates && c.highByte == d.highByte :: c.domain == d.domain
  }

  ghost predicate Claims(candidates: seq<DomainCandidate>, highByte: int, domain: string) {
    exists c :: c in candidates && c.highByte.Floor == highByte && c.domain == domain
  }

  ghost predicate AllBytes(candidates: seq<DomainCandidate>) {
    forall c | c in candidates :: IsByte(c.highByte)
  }

  /** The map holds a domain for a byte exactly when some candidate claims it. */
  ghost predicate MapsClaims(candidates: seq<DomainCandidate>) {
    forall b: int, d: string ::
      (b in Assigned(candidates) && Assigned(candidates)[b] == d) <==> Claims(candidates, b, d)
  }

  lemma FitsIff(before: seq<DomainCandidate>, last: DomainCandidate)
    requires NamedDomains(before + [last]) && AllBytes(before + [last])
    requires MapsClaims(before) && OneDomainPerByte(before)
    ensures Fits(Assigned(before), last) <==> OneDomainPerByte(before + [last])
  {
    hide Assigned;
    var b, more := last.highByte.Floor, before + [last];
    assert forall c :: c in more <==> c in before || c == last;
    assert b in Assigned(before) ==> Claims(before, b, Assigned(before)[b]);
    if c :| c in before && c.highByte == last.highByte {
      assert Claims(before, b, c.domain);
      if Fits(Assigned(before), last) {
        forall d | d in before && d.highByte == last.highByte
          ensures d.domain == last.domain
        {
          assert Claims(before, b, d.domain);
        }
      }
    }
  }

  lemma ClaimsStep(before: seq<DomainCandidate>, last: DomainCandidate, b: int, d: string)
    ensures Claims(before + [last], b, d) <==> Claims(before, b, d) || (b == last.highByte.Floor && d == last.domain)
  {
    var more := before + [last];
    assert more[|before|] == last;
    if c :| c in before && c.highByte.Floor == b && c.domain == d {
      assert c in more;
    }
  }

  lemma MapsClaimsStep(before: seq<DomainCandidate>, last: DomainCandidate)
    requires NamedDomains(before + [last]) && MapsClaims(before) && Fits(Assigned(before), last)
    ensures MapsClaims(before + [last])
  {
    AllFitStep(before, last);
    var b := last.highByte.Floor;
    if b in Assigned(before) {
      assert Claims(before, b, Assigned(before)[b]);
      assert Owner(Assigned(before), b) != "";
    }
    hide Assigned, Claims, AllFit;
    forall x: int, d: string
      ensures (x in Assigned(before + [last]) && Assigned(before + [last])[x] == d) <==> Claims(before + [last], x, d)
    {
      ClaimsStep(before, last, x, d);
    }
  }

  /** With non-empty domain names, candidates are accepted exactly when all are bytes and no byte has two domains. */
  lemma {:induction false} AllFitIff(candidates: seq<DomainCandidate>)
    requires NamedDomains(candidates)
    ensures AllFit(candidates) <==> AllBytes(candidates) && OneDomainPerByte(candidates)
    ensures AllFit(candidates) ==> MapsClaims(candidates)
  {
    if candidates != [] {
      var n := |candidates| - 1;
      var last, before := candidates[n], candidates[..n];
      assert candidates == before + [last];
      AllFitIff(before);
      AllFitStep(before, last);
      hide AllFit, Assigned, MapsClaims;
      if AllFit(before) && IsByte(last.highByte) {
        FitsIff(before, last);
        if Fits(Assigned(before), last) {
          MapsClaimsStep(before, last);
        }
      }
    }
  }
}
