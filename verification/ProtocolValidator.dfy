/** The checks on the protocol definition, and how they compare with the checks on the source registries. */
module ProtocolValidator {
  import opened AxtpTypes
  import opened RegistryItems
  import opened BitOffsets
  import opened DomainRegistry
  import SourceValidator

  method AssertUnique(items: seq<RegistryItem>, key: RegistryItem -> Key) returns (verdict: Verdict)
    ensures verdict.Accepted? <==> NoneNoticed(items, key)
    ensures verdict.Rejected? ==>
              exists k: nat :: StopsAt(items, key, k) && verdict == Rejected(INVALID, items[k].name)
  {
    var stop, seen := ScanForRepeats(items, key);
    return if stop.Some? then Rejected(INVALID, items[stop.value].name) else Accepted;
  }

  /**
   The two validators look for repeated names differently: the source one keeps a set, this one reads back the stored
   name. They disagree exactly when the only repeated name is the empty one.
   */
  lemma UniqueNamesAgree(items: seq<RegistryItem>)
    ensures NoneNoticed(items, ByName) <==>
            forall j, k | 0 <= j < k < |items| && items[j].name == items[k].name :: items[j].name == ""
    ensures DistinctKeys(items, ByName) ==> NoneNoticed(items, ByName)
  {
    NoneNoticedIff(items, ByName);
    forall j: nat, k: nat | j < k < |items| && items[j].name == items[k].name && items[j].name != ""
      ensures exists last: nat :: RepeatsNamed(items, ByName, last, k)
    {
      assert ByName(items[j]) == ByName(items[k]);
      var last := LastBefore(items, ByName, j, k);
      assert ByName(items[last]) == ByName(items[k]);
      assert RepeatsNamed(items, ByName, last, k);
    }
    forall j: nat, k: nat | RepeatsNamed(items, ByName, j, k)
      ensures j < k < |items| && items[j].name == items[k].name && items[j].name != ""
    {
      assert ByName(items[j]) == ByName(items[k]);
    }
  }

  // ---------- bit offsets ----------

  ghost predicate DomainBitsPass(group: seq<RegistryItem>) {
    DistinctKeys(group, ByOffset) && FromZero(Offsets(group))
  }

  ghost predicate ProtocolOffsetsPass(items: seq<RegistryItem>) {
    forall domain: string :: DomainBitsPass(InDomain(items, domain))
  }

  method CollectBits(group: seq<RegistryItem>) returns (verdict: Verdict, seen: set<real>)
    ensures verdict.Accepted? <==> DistinctKeys(group, ByOffset)
    ensures verdict.Accepted? ==> seen == Offsets(group)
  {
    seen := {};
    for k := 0 to |group|
      invariant forall i, j | 0 <= i < j < k :: group[i].bitOffset != group[j].bitOffset
      invariant forall x :: x in seen <==> exists j :: 0 <= j < k && group[j].bitOffset == x
    {
      if group[k].bitOffset in seen {
        var j :| 0 <= j < k && group[j].bitOffset == group[k].bitOffset;
        assert ByOffset(group[j]) == ByOffset(group[k]);
        return Rejected(INVALID, group[k].name), seen;
      }
      seen := seen + {group[k].bitOffset};
    }
    forall x
      ensures x in seen <==> x in Offsets(group)
    {
      if j :| 0 <= j < |group| && group[j].bitOffset == x {
        assert group[j] in group;
      }
    }
    return Accepted, seen;
  }

  method AssertDomainBits(items: seq<RegistryItem>) returns (verdict: Verdict)
    ensures verdict.Accepted? <==> ProtocolOffsetsPass(items)
  {
    hide InDomain, DistinctKeys, FromZero, Offsets;
    SourceValidator.NothingGrouped();
    var order: seq<string>, byDomain: map<string, seq<RegistryItem>> := [], map[];
    for k := 0 to |items|
      invariant SourceValidator.Grouped(items[..k], order, byDomain)
    {
      order, byDomain := SourceValidator.File(items[k], items[..k], order, byDomain);
      assert items[..k + 1] == items[..k] + [items[k]];
    }
    assert items[..|items|] == items;
    EmptyBitsPass();
    for d := 0 to |order|
      invariant forall i | 0 <= i < d :: DomainBitsPass(InDomain(items, order[i]))
    {
      assert order[d] in byDomain;
      var seen;
      verdict, seen := CollectBits(byDomain[order[d]]);
      if verdict.Rejected? { return; }
      verdict := SourceValidator.CheckPositions(order[d], seen);
      if verdict.Rejected? { return; }
    }
    return Accepted;
  }

  lemma EmptyBitsPass()
    ensures DomainBitsPass([])
  {
  }

  lemma DomainChecksAgree(items: seq<RegistryItem>, domain: string)
    requires NonEmptyNames(items)
    ensures DomainBitsPass(InDomain(items, domain)) <==> IsPermutation(InDomain(items, domain))
    ensures DomainBitsPass(InDomain(items, domain)) <==> SourceValidator.DomainOffsetsPass(InDomain(items, domain))
  {
    hide DistinctKeys, FromZero, NoneNoticed, Offsets, InDomain, IsPermutation;
    PermutationIff(InDomain(items, domain));
    DomainStaysNamed(items, domain);
    NamedNoneNoticedIff(InDomain(items, domain), ByOffset);
  }

  ghost predicate PermutedPerDomain(items: seq<RegistryItem>) {
    forall domain: string :: IsPermutation(InDomain(items, domain))
  }

  /** With named items both validators accept exactly the lists whose offsets are a permutation of 0..n-1 per domain. */
  lemma OffsetChecksAgree(items: seq<RegistryItem>)
    requires NonEmptyNames(items)
    ensures ProtocolOffsetsPass(items) <==> PermutedPerDomain(items)
    ensures SourceValidator.SourceOffsetsPass(items) <==> PermutedPerDomain(items)
  {
    hide DomainBitsPass, SourceValidator.DomainOffsetsPass, InDomain, IsPermutation;
    forall domain: string
      ensures DomainBitsPass(InDomain(items, domain)) <==> IsPermutation(InDomain(items, domain))
      ensures DomainBitsPass(InDomain(items, domain)) <==> SourceValidator.DomainOffsetsPass(InDomain(items, domain))
    {
      DomainChecksAgree(items, domain);
    }
    if ProtocolOffsetsPass(items) {
      PassingOffsetsAreNatural(items);
    }
  }

  lemma DomainStaysNamed(items: seq<RegistryItem>, domain: string)
    requires NonEmptyNames(items)
    ensures NonEmptyNames(InDomain(items, domain))
  {
    var group := InDomain(items, domain);
    forall k | 0 <= k < |group|
      ensures group[k].name != ""
    {
      InDomainIff(items, domain, group[k]);
    }
  }

  lemma PassingOffsetsAreNatural(items: seq<RegistryItem>)
    requires ProtocolOffsetsPass(items)
    ensures SourceValidator.NaturalOffsets(items)
  {
    hide DistinctKeys;
    forall k | 0 <= k < |items|
      ensures IsInteger(items[k].bitOffset) && items[k].bitOffset >= 0.0
    {
      InDomainIff(items, items[k].domain, items[k]);
      assert DomainBitsPass(InDomain(items, items[k].domain));
      assert items[k].bitOffset in Offsets(InDomain(items, items[k].domain));
    }
  }

  lemma EmptyNamePair(first: RegistryItem, second: RegistryItem)
    requires first.name == "" && first.bitOffset == second.bitOffset == 0.0
    ensures SourceValidator.DomainOffsetsPass([first, second]) && !DomainBitsPass([first, second])
  {
    var items := [first, second];
    assert items[..1] == [first] && items[..1][..0] == [];
    assert ByOffset(items[0]) == ByOffset(items[1]) == Offset(0.0);
    assert !DistinctKeys(items, ByOffset);
    assert Latest(items[..1], ByOffset, Offset(0.0)) == Some("");
    assert NoneNoticed(items, ByOffset);
    hide Latest, Noticed, DistinctKeys;
    assert Offsets(items) == {0.0};
  }

  /** With an empty name the source check can miss a repeated offset that this one reports. */
  lemma EmptyNameHidesRepeat(first: RegistryItem, second: RegistryItem)
    requires first.name == "" && first.domain == second.domain && first.bitOffset == second.bitOffset == 0.0
    ensures SourceValidator.SourceOffsetsPass([first, second]) && !ProtocolOffsetsPass([first, second])
  {
    var items, domain := [first, second], first.domain;
    EmptyNamePair(first, second);
    SourceValidator.EmptyDomainPasses();
    hide DomainBitsPass, SourceValidator.DomainOffsetsPass;
    forall d: string
      ensures InDomain(items, d) == if d == domain then items else []
    {
      assert items[..1] == [first];
      assert InDomain([first], d) == if d == domain then [first] else [];
    }
    assert InDomain(items, domain) == items;
  }

  // ---------- one high byte per domain ----------

  /** All methods of a domain share a high byte, and so do the events of a domain that has methods. */
  ghost predicate Aligned(methods: seq<RegistryItem>, events: seq<RegistryItem>) {
    && (forall m, n | m in methods && n in methods && m.domain == n.domain :: HighByte(m.id) == HighByte(n.id))
    && (forall m, e | m in methods && e in events && m.domain == e.domain :: HighByte(m.id) == HighByte(e.id))
  }

  ghost predicate Records(methodDomainIds: map<string, int>, methods: seq<RegistryItem>) {
    && (forall m | m in methods :: m.domain in methodDomainIds && methodDomainIds[m.domain] == HighByte(m.id))
    && (forall d | d in methodDomainIds :: exists m :: m in methods && m.domain == d)
  }

  method AssertDomainIdAlignment(methods: seq<RegistryItem>, events: seq<RegistryItem>) returns (verdict: Verdict)
    ensures verdict.Accepted? <==> Aligned(methods, events)
  {
    var methodDomainIds: map<string, int> := map[];
    for k := 0 to |methods|
      invariant Records(methodDomainIds, methods[..k])
    {
      var m := methods[k];
      var domainId := HighByte(m.id);
      if m.domain in methodDomainIds && methodDomainIds[m.domain] != domainId {
        var other :| other in methods[..k] && other.domain == m.domain;
        assert other in methods && m in methods;
        return Rejected(INVALID, m.name);
      }
      methodDomainIds := methodDomainIds[m.domain := domainId];
      assert methods[..k + 1] == methods[..k] + [m];
    }
    assert methods[..|methods|] == methods;
    for k := 0 to |events|
      invariant forall m, j | m in methods && 0 <= j < k && m.domain == events[j].domain ::
                  HighByte(m.id) == HighByte(events[j].id)
    {
      var e := events[k];
      if e.domain in methodDomainIds && HighByte(e.id) != methodDomainIds[e.domain] {
        var m :| m in methods && m.domain == e.domain;
        assert e in events;
        return Rejected(INVALID, e.name);
      }
    }
    return Accepted;
  }

  // ---------- error categories ----------

  const BASE_CATEGORIES: seq<string> := ["common", "frame", "control", "rpc"]

  function AllowedErrorCategories(code: int, mapping: DomainByHighByte): seq<string> {
    var highByte := HighByte(code);
    if code <= 0x00FF then BASE_CATEGORIES
    else if Owner(mapping, highByte) != "" then [Owner(mapping, highByte)]
    else if 0x70 <= highByte <= 0x7E then ["vendor"]
    else if highByte == 0x7F then ["legacy"]
    else []
  }

  predicate ErrorFits(error: RegistryItem, mapping: DomainByHighByte) {
    error.domain in AllowedErrorCategories(error.id, mapping)
  }

  method AssertErrorRanges(errors: seq<RegistryItem>, mapping: DomainByHighByte) returns (verdict: Verdict)
    ensures verdict.Accepted? <==> forall error | error in errors :: ErrorFits(error, mapping)
    ensures verdict.Rejected? ==> exists k: nat ::
              k < |errors| && !ErrorFits(errors[k], mapping) && verdict == Rejected(INVALID, errors[k].name)
  {
    for k := 0 to |errors|
      invariant forall j | 0 <= j < k :: ErrorFits(errors[j], mapping)
    {
      var error := errors[k];
      var allowed := AllowedErrorCategories(error.id, mapping);
      if |allowed| == 0 || error.domain !in allowed {
        assert error in errors && !ErrorFits(error, mapping);
        return Rejected(INVALID, error.name);
      }
    }
    return Accepted;
  }

  predicate InRegistry(item: RegistryItem) {
    IsRegistryHighByte(HighByte(item.id))
  }

  /** What remains for an error outside the registry bytes. */
  predicate ReservedCategory(error: RegistryItem) {
    var highByte := HighByte(error.id);
    || (error.id <= 0x00FF && error.domain in BASE_CATEGORIES)
    || (error.id > 0x00FF && 0x70 <= highByte <= 0x7E && error.domain == "vendor")
    || (error.id > 0x00FF && highByte == 0x7F && error.domain == "legacy")
  }

  /** For codes of 32 bits: what the registry holds, and what is reserved outside it. */
  lemma CodeRanges(error: RegistryItem)
    requires IsInt32(error.id)
    ensures InRegistry(error) <==> 0x0100 <= error.id <= 0x6FFF
    ensures ReservedCategory(error) <==>
            || (error.id <= 0x00FF && error.domain in {"common", "frame", "control", "rpc"})
            || (0x7000 <= error.id <= 0x7EFF && error.domain == "vendor")
            || (0x7F00 <= error.id <= 0x7FFF && error.domain == "legacy")
  {
    HighByteOfInt32(error.id);
  }

  /** A code that wraps never gets a reserved category: only its own size decides which of the two kinds it may have. */
  lemma SizeDecidesCategory(error: RegistryItem)
    requires ReservedCategory(error)
    ensures error.domain in {"common", "frame", "control", "rpc"} <==> error.id < 0x0100
    ensures error.domain in {"vendor", "legacy"} <==> error.id >= 0x0100
  {
  }

  /** One domain per registry byte, shared by methods, events and error categories alike. */
  ghost predicate OneDomainPerHighByte(items: seq<RegistryItem>) {
    forall x, y | x in items && y in items && InRegistry(x) && HighByte(x.id) == HighByte(y.id) :: x.domain == y.domain
  }

  /** The map is built and every error fits it. */
  ghost predicate ProtocolDomainsPass(methods: seq<RegistryItem>, events: seq<RegistryItem>,
                                      errors: seq<RegistryItem>)
  {
    && AllFit(AllCandidates(methods) + AllCandidates(events))
    && forall error | error in errors :: ErrorFits(error, Assigned(ProtocolCandidates(methods, events, errors)))
  }

  method ValidateDomains(methods: seq<RegistryItem>, events: seq<RegistryItem>, errors: seq<RegistryItem>)
      returns (verdict: Verdict)
    ensures verdict.Accepted? <==> ProtocolDomainsPass(methods, events, errors)
  {
    hide AllFit, AllCandidates, Assigned, ErrorFits, ProtocolCandidates;
    var mapping;
    verdict, mapping := BuildProtocolDomainByHighByte(methods, events, errors);
    if verdict.Rejected? {
      return;
    }
    verdict := AssertErrorRanges(errors, mapping);
  }

  ghost predicate ClaimedBy(c: DomainCandidate, items: seq<RegistryItem>) {
    exists item :: item in items && Candidates(item) == [c]
  }

  lemma {:induction false} AllCandidatesIff(items: seq<RegistryItem>, c: DomainCandidate)
    ensures c in AllCandidates(items) <==> ClaimedBy(c, items)
  {
    if items != [] {
      var n := |items| - 1;
      AllCandidatesIff(items[..n], c);
      assert items == items[..n] + [items[n]];
    }
  }

  lemma {:induction false} AssignedKeys(candidates: seq<DomainCandidate>, b: int)
    ensures b in Assigned(candidates) <==> exists c :: c in candidates && c.highByte.Floor == b
  {
    if candidates != [] {
      var n := |candidates| - 1;
      AssignedKeys(candidates[..n], b);
      assert candidates == candidates[..n] + [candidates[n]];
    }
  }

  /** Methods and events are kept, errors add only their own claims, and no error byte is left without an owner. */
  lemma {:induction false} WithErrorsIff(candidates: seq<DomainCandidate>, errors: seq<RegistryItem>)
    ensures forall c | c in candidates :: c in WithErrors(candidates, errors)
    ensures forall c | c in WithErrors(candidates, errors) :: c in candidates || ClaimedBy(c, errors)
    ensures forall e | e in errors && InRegistry(e) :: HighByte(e.id) in Assigned(WithErrors(candidates, errors))
  {
    if errors != [] {
      var n := |errors| - 1;
      var last, before := errors[n], WithErrors(candidates, errors[..n]);
      WithErrorsIff(candidates, errors[..n]);
      assert errors == errors[..n] + [last];
      var after := WithErrors(candidates, errors);
      forall e | e in errors && InRegistry(e)
        ensures HighByte(e.id) in Assigned(after)
      {
        AssignedKeys(before, HighByte(e.id));
        AssignedKeys(after, HighByte(e.id));
      }
    }
  }

  ghost predicate NamedItems(items: seq<RegistryItem>) {
    forall item | item in items :: item.domain != ""
  }

  /** Each candidate comes from an item of the list, carrying its byte and its domain. */
  ghost predicate DrawnFrom(candidates: seq<DomainCandidate>, items: seq<RegistryItem>) {
    forall c | c in candidates :: ClaimedBy(c, items)
  }

  lemma DrawnCandidates(candidates: seq<DomainCandidate>, items: seq<RegistryItem>)
    requires DrawnFrom(candidates, items) && NamedItems(items)
    ensures NamedDomains(candidates) && AllBytes(candidates)
    ensures OneDomainPerHighByte(items) ==> OneDomainPerByte(candidates)
  {
    forall c | c in candidates
      ensures c.domain != "" && IsByte(c.highByte)
    {
      var item :| item in items && Candidates(item) == [c];
      assert c == Candidates(item)[0];
    }
    if OneDomainPerHighByte(items) {
      forall c, d | c in candidates && d in candidates && c.highByte == d.highByte
        ensures c.domain == d.domain
      {
        var x :| x in items && Candidates(x) == [c];
        var y :| y in items && Candidates(y) == [d];
        assert c == Candidates(x)[0] && d == Candidates(y)[0];
      }
    }
  }

  lemma BaseDrawn(methods: seq<RegistryItem>, events: seq<RegistryItem>)
    ensures DrawnFrom(AllCandidates(methods) + AllCandidates(events), methods + events)
    ensures forall item | item in methods + events && InRegistry(item) ::
              Candidates(item)[0] in AllCandidates(methods) + AllCandidates(events)
  {
    forall c | c in AllCandidates(methods) + AllCandidates(events)
      ensures ClaimedBy(c, methods + events)
    {
      AllCandidatesIff(methods, c);
      AllCandidatesIff(events, c);
    }
    forall item | item in methods + events && InRegistry(item)
      ensures Candidates(item)[0] in AllCandidates(methods) + AllCandidates(events)
    {
      AllCandidatesIff(methods, Candidates(item)[0]);
      AllCandidatesIff(events, Candidates(item)[0]);
    }
  }

  /** Methods and events get a map exactly when no registry byte has two domains among them. */
  lemma BaseFitsIff(methods: seq<RegistryItem>, events: seq<RegistryItem>)
    requires NamedItems(methods + events)
    ensures AllFit(AllCandidates(methods) + AllCandidates(events)) <==> OneDomainPerHighByte(methods + events)
  {
    hide AllFit, Assigned, AllCandidates;
    var base := AllCandidates(methods) + AllCandidates(events);
    BaseDrawn(methods, events);
    DrawnCandidates(base, methods + events);
    AllFitIff(base);
    if OneDomainPerByte(base) {
      forall x, y | x in methods + events && y in methods + events && InRegistry(x) && HighByte(x.id) == HighByte(y.id)
        ensures x.domain == y.domain
      {
        assert Candidates(x)[0] in base && Candidates(y)[0] in base;
      }
    }
  }

  /** Who owns a byte in the finished map: every method and event with it, or else the first error with it. */
  lemma OwnersIff(methods: seq<RegistryItem>, events: seq<RegistryItem>, errors: seq<RegistryItem>)
    requires NamedItems(methods + events + errors)
    requires AllFit(AllCandidates(methods) + AllCandidates(events))
    ensures var mapping := Assigned(ProtocolCandidates(methods, events, errors));
            && (forall item | item in methods + events && InRegistry(item) ::
                  Owner(mapping, HighByte(item.id)) == item.domain)
            && (forall e | e in errors && InRegistry(e) :: HighByte(e.id) in mapping)
            && AllOwned(mapping, methods + events + errors)
  {
    hide AllFit, Assigned, AllCandidates, WithErrors;
    var base, items := AllCandidates(methods) + AllCandidates(events), methods + events + errors;
    var all, mapping := WithErrors(base, errors), Assigned(WithErrors(base, errors));
    BaseDrawn(methods, events);
    WithErrorsIff(base, errors);
    ErrorsAlwaysFit(base, errors);
    forall c | c in all
      ensures ClaimedBy(c, items)
    {
      var item :| item in (if c in base then methods + events else errors) && Candidates(item) == [c];
      assert item in items;
    }
    DrawnCandidates(all, items);
    AllFitIff(all);
    forall item | item in methods + events && InRegistry(item)
      ensures Owner(mapping, HighByte(item.id)) == item.domain
    {
      var c := Candidates(item)[0];
      assert c in all && c.highByte.Floor == HighByte(item.id);
      assert Claims(all, HighByte(item.id), item.domain);
    }
    forall b | b in mapping
      ensures OwnedThrough(mapping, b, items)
    {
      assert Claims(all, b, mapping[b]);
      var c :| c in all && c.highByte.Floor == b && c.domain == mapping[b];
      var item :| item in items && Candidates(item) == [c];
      assert c == Candidates(item)[0];
    }
  }

  ghost predicate OwnedThrough(mapping: DomainByHighByte, b: int, items: seq<RegistryItem>)
    requires b in mapping
  {
    exists item :: item in items && InRegistry(item) && HighByte(item.id) == b && item.domain == mapping[b]
  }

  ghost predicate AllOwned(mapping: DomainByHighByte, items: seq<RegistryItem>) {
    forall b | b in mapping :: OwnedThrough(mapping, b, items)
  }

  /** The guard that decides for the base categories leaves the registry bytes to the registry. */
  ghost predicate RegistryCodesAreLarge(errors: seq<RegistryItem>) {
    forall error | error in errors && InRegistry(error) :: error.id > 0x00FF
  }

  /** Codes of 32 bits meet the guard, and so do all larger ones. */
  lemma CodesAreLarge(errors: seq<RegistryItem>)
    requires forall error | error in errors :: error.id >= -0x8000_0000
    ensures RegistryCodesAreLarge(errors)
  {
    forall error | error in errors && InRegistry(error)
      ensures error.id > 0x00FF
    {
      if error.id <= 0x00FF {
        HighByteOfInt32(error.id);
      }
    }
  }

  lemma ErrorFitsIff(error: RegistryItem, mapping: DomainByHighByte, items: seq<RegistryItem>)
    requires error.domain != "" && NamedItems(items) && (InRegistry(error) ==> error.id > 0x00FF)
    requires InRegistry(error) ==> HighByte(error.id) in mapping
    requires AllOwned(mapping, items)
    ensures ErrorFits(error, mapping) <==>
            if InRegistry(error) then Owner(mapping, HighByte(error.id)) == error.domain else ReservedCategory(error)
  {
    var b := HighByte(error.id);
    assert b in mapping ==> OwnedThrough(mapping, b, items) && mapping[b] != "";
    hide HighByte;
  }

  /** Given the owners of the bytes, agreement of every error with its owner is agreement of all items. */
  lemma OwnersShared(mapping: DomainByHighByte, base: seq<RegistryItem>, errors: seq<RegistryItem>)
    requires forall item | item in base && InRegistry(item) :: Owner(mapping, HighByte(item.id)) == item.domain
    requires forall e | e in errors && InRegistry(e) :: HighByte(e.id) in mapping
    requires AllOwned(mapping, base + errors)
    ensures (forall e | e in errors && InRegistry(e) :: Owner(mapping, HighByte(e.id)) == e.domain) <==>
            OneDomainPerHighByte(base + errors)
  {
    hide HighByte;
    if OneDomainPerHighByte(base + errors) {
      forall e | e in errors && InRegistry(e)
        ensures Owner(mapping, HighByte(e.id)) == e.domain
      {
        var b := HighByte(e.id);
        var item :| item in base + errors && InRegistry(item) && HighByte(item.id) == b && item.domain == mapping[b];
        assert e in base + errors;
      }
    }
  }

  /** Every registry byte has one domain, and every other error a category reserved for its range. */
  ghost predicate DomainsAreSound(methods: seq<RegistryItem>, events: seq<RegistryItem>, errors: seq<RegistryItem>) {
    && OneDomainPerHighByte(methods + events + errors)
    && forall error | error in errors && !InRegistry(error) :: ReservedCategory(error)
  }

  /**
   When no code at or below 0x00FF wraps into a registry byte, the definition passes exactly when every registry byte
   belongs to one domain shared by all its methods, events and error categories, and every other error carries a
   category reserved for its range.
   */
  lemma DomainsPassIff(methods: seq<RegistryItem>, events: seq<RegistryItem>, errors: seq<RegistryItem>)
    requires NamedItems(methods + events + errors)
    requires RegistryCodesAreLarge(errors)
    ensures ProtocolDomainsPass(methods, events, errors) <==> DomainsAreSound(methods, events, errors)
  {
    hide AllFit, Assigned, AllCandidates, ProtocolCandidates, ErrorFits, AllOwned;
    BaseFitsIff(methods, events);
    var mapping := Assigned(ProtocolCandidates(methods, events, errors));
    if AllFit(AllCandidates(methods) + AllCandidates(events)) {
      OwnersIff(methods, events, errors);
      forall error | error in errors
        ensures ErrorFits(error, mapping) <==>
                if InRegistry(error) then Owner(mapping, HighByte(error.id)) == error.domain
                else ReservedCategory(error)
      {
        ErrorFitsIff(error, mapping, methods + events + errors);
      }
      OwnersShared(mapping, methods + events, errors);
    }
  }

  /**
   A code that wraps breaks this: every error at or below 0x00FF with a registry byte belongs to a list of errors on
   which passing and soundness differ.
   */
  lemma WrappedCodeBreaks(error: RegistryItem) returns (errors: seq<RegistryItem>)
    requires InRegistry(error) && error.id <= 0x00FF && error.domain != ""
    ensures error in errors && NamedItems(errors)
    ensures ProtocolDomainsPass([], [], errors) <==> !DomainsAreSound([], [], errors)
  {
    if error.domain in BASE_CATEGORIES {
      var owner := RegistryItem(256 * HighByte(error.id), "", error.domain + "x", 0.0);
      errors := [owner, error];
      HighByteOfInt32(owner.id);
      OwnerAndWrapped(owner, error);
    } else {
      errors := [error];
      WrappedAlone(error);
    }
  }

  /** A base category passes under any owner of the byte, so the byte is shared by two domains. */
  lemma OwnerAndWrapped(owner: RegistryItem, error: RegistryItem)
    requires InRegistry(error) && error.id <= 0x00FF && error.domain in BASE_CATEGORIES
    requires owner.id > 0x00FF && HighByte(owner.id) == HighByte(error.id)
    requires owner.domain != "" && owner.domain != error.domain
    ensures ProtocolDomainsPass([], [], [owner, error]) && !DomainsAreSound([], [], [owner, error])
  {
    var errors, b := [owner, error], HighByte(owner.id);
    NoCandidates();
    assert AllCandidates([]) + AllCandidates([]) == [];
    OwnerIsFirst(owner, error);
    assert ErrorFits(owner, Assigned(ProtocolCandidates([], [], errors)));
    assert ErrorFits(error, Assigned(ProtocolCandidates([], [], errors)));
    assert [] + [] + errors == errors && owner in errors && error in errors;
  }

  /** The first error with a registry byte owns it. */
  lemma OwnerIsFirst(owner: RegistryItem, error: RegistryItem)
    requires InRegistry(owner) && HighByte(owner.id) == HighByte(error.id)
    ensures Owner(Assigned(ProtocolCandidates([], [], [owner, error])), HighByte(owner.id)) == owner.domain
  {
    var none, first := WithErrors([], []), WithErrors([], [owner]);
    assert AllCandidates([]) + AllCandidates([]) == [];
    assert [owner][..0] == [] && [owner, error][..1] == [owner];
    assert Candidates(owner)[..0] == [];
    assert first == [] + Candidates(owner) == Candidates(owner);
    assert Assigned(first) == map[HighByte(owner.id) := owner.domain];
    assert WithErrors([], [owner, error]) == first;
  }

  /** Another category fails the base range although no item disagrees with it. */
  lemma WrappedAlone(error: RegistryItem)
    requires InRegistry(error) && error.id <= 0x00FF && error.domain !in BASE_CATEGORIES
    ensures !ProtocolDomainsPass([], [], [error]) && DomainsAreSound([], [], [error])
  {
    hide Assigned, ProtocolCandidates, AllFit, HighByte, AllCandidates;
    var mapping := Assigned(ProtocolCandidates([], [], [error]));
    assert AllowedErrorCategories(error.id, mapping) == BASE_CATEGORIES;
    assert error in [error] && !ErrorFits(error, mapping);
    assert [] + [] + [error] == [error];
  }

  // ---------- the source validator, in the same terms ----------

  /** Who claims a byte for the source validator: the declared ranges alone, or every item with a registry byte. */
  lemma SourceClaims(declared: Option<seq<DomainRange>>, methods: seq<RegistryItem>, events: seq<RegistryItem>,
                     errors: seq<RegistryItem>, b: real, domain: string)
    ensures var candidates := SourceCandidates(declared, methods, events, errors);
            (exists c :: c in candidates && c.highByte == b && c.domain == domain) <==>
            if declared.Some? && declared.value != [] then
              exists range :: range in declared.value && range.highByte == b && range.domain == domain
            else
              exists item :: item in methods + events + errors && InRegistry(item) &&
                             HighByte(item.id) as real == b && item.domain == domain
  {
    var candidates := SourceCandidates(declared, methods, events, errors);
    if declared.Some? && declared.value != [] {
      var ranges := declared.value;
      assert forall k | 0 <= k < |ranges| :: candidates[k] in candidates && ranges[k] in ranges;
      if range :| range in ranges && range.highByte == b && range.domain == domain {
        var k :| 0 <= k < |ranges| && ranges[k] == range;
        assert candidates[k].highByte == b && candidates[k].domain == domain;
      }
    } else {
      ItemClaims(methods + events + errors, b, domain);
      forall c
        ensures c in candidates <==> ClaimedBy(c, methods + events + errors)
      {
        AllCandidatesIff(methods, c);
        AllCandidatesIff(events, c);
        AllCandidatesIff(errors, c);
      }
    }
  }

  lemma ItemClaims(items: seq<RegistryItem>, b: real, domain: string)
    ensures (exists c :: ClaimedBy(c, items) && c.highByte == b && c.domain == domain) <==>
            exists item :: item in items && InRegistry(item) && HighByte(item.id) as real == b && item.domain == domain
  {
    forall item | item in items && InRegistry(item)
      ensures ClaimedBy(Candidates(item)[0], items)
    {
    }
  }

  ghost predicate Distinct(items: seq<RegistryItem>) {
    forall j, k | 0 <= j < k < |items| :: items[j].id != items[k].id && items[j].name != items[k].name
  }

  /**
   Named methods over named domains are accepted if and only if all claims are bytes and no byte has two domains, ids
   and names are distinct, every id lies in its range, and the offsets of each domain are a permutation of 0..n-1.
   */
  lemma AcceptedMethodsIff(declared: Option<seq<DomainRange>>, methods: seq<RegistryItem>, events: seq<RegistryItem>,
                           errors: seq<RegistryItem>)
    requires NonEmptyNames(methods) && NamedDomains(SourceCandidates(declared, methods, events, errors))
    ensures var candidates := SourceCandidates(declared, methods, events, errors);
            SourceValidator.MethodsPass(declared, methods, events, errors) <==>
            && AllBytes(candidates) && OneDomainPerByte(candidates)
            && Distinct(methods)
            && (forall item | item in methods :: SourceValidator.InRange(item, {}, Assigned(candidates)))
            && PermutedPerDomain(methods)
  {
    hide NoneNoticed, AllFit, SourceValidator.SourceOffsetsPass, SourceCandidates, PermutedPerDomain, AllBytes;
    hide OneDomainPerByte, SourceValidator.InRange, NamedDomains, NonEmptyNames;
    var candidates := SourceCandidates(declared, methods, events, errors);
    AllFitIff(candidates);
    NamedNoneNoticedIff(methods, ById);
    OffsetChecksAgree(methods);
    DistinctIff(methods);
    hide DistinctKeys, Distinct;
  }

  lemma DistinctIff(items: seq<RegistryItem>)
    ensures Distinct(items) <==> DistinctKeys(items, ById) && DistinctKeys(items, ByName)
  {
    if DistinctKeys(items, ById) && DistinctKeys(items, ByName) {
      forall j, k | 0 <= j < k < |items|
        ensures items[j].id != items[k].id && items[j].name != items[k].name
      {
        assert ById(items[j]) != ById(items[k]) && ByName(items[j]) != ByName(items[k]);
      }
    }
  }
}
