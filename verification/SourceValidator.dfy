/** The checks on the source registries, and what an accepted method list guarantees. */
module SourceValidator {
  import opened AxtpTypes
  import opened RegistryItems
  import opened BitOffsets
  import opened DomainRegistry

  method AssertUniqueIds(items: seq<RegistryItem>) returns (verdict: Verdict)
    ensures verdict.Accepted? <==> NoneNoticed(items, ById)
    ensures verdict.Rejected? ==>
              exists k: nat :: StopsAt(items, ById, k) && verdict == Rejected(DUPLICATE, items[k].name)
  {
    var stop, seen := ScanForRepeats(items, ById);
    return if stop.Some? then Rejected(DUPLICATE, items[stop.value].name) else Accepted;
  }

  ghost predicate FirstRepeatedName(items: seq<RegistryItem>, k: nat) {
    && k < |items| && (exists j :: 0 <= j < k && items[j].name == items[k].name)
    && forall i, j | 0 <= i < j < k :: items[i].name != items[j].name
  }

  method AssertUniqueNames(items: seq<RegistryItem>) returns (verdict: Verdict)
    ensures verdict.Accepted? <==> DistinctKeys(items, ByName)
    ensures verdict.Rejected? ==>
              exists k: nat :: FirstRepeatedName(items, k) && verdict == Rejected(DUPLICATE, items[k].name)
  {
    var seen: set<string> := {};
    for k := 0 to |items|
      invariant forall i, j | 0 <= i < j < k :: items[i].name != items[j].name
      invariant forall name :: name in seen <==> exists j :: 0 <= j < k && items[j].name == name
    {
      if items[k].name in seen {
        var j :| 0 <= j < k && items[j].name == items[k].name;
        assert ByName(items[j]) == ByName(items[k]) && FirstRepeatedName(items, k);
        return Rejected(DUPLICATE, items[k].name);
      }
      seen := seen + {items[k].name};
    }
    return Accepted;
  }

  /** Numbers from zero without a gap, and no offset repeated after a named item. */
  ghost predicate DomainOffsetsPass(group: seq<RegistryItem>) {
    NoneNoticed(group, ByOffset) && FromZero(Offsets(group))
  }

  ghost predicate SourceOffsetsPass(items: seq<RegistryItem>) {
    NaturalOffsets(items) && forall domain: string :: DomainOffsetsPass(InDomain(items, domain))
  }

  method CheckPositions(domain: string, keys: set<real>) returns (verdict: Verdict)
    ensures verdict == if FromZero(keys) then Accepted else Rejected(INVALID, domain)
  {
    var bits := SortNumbers(keys);
    PositionsIff(bits, keys);
    for index := 0 to |bits|
      invariant forall k | 0 <= k < index :: bits[k] == k as real
    {
      if bits[index] != index as real {
        return Rejected(INVALID, domain);
      }
    }
    return Accepted;
  }

  /** The checks on one domain: duplicates, then sorted keys against their positions. */
  method CheckDomain(domain: string, group: seq<RegistryItem>) returns (verdict: Verdict)
    ensures verdict.Accepted? <==> DomainOffsetsPass(group)
    ensures verdict.Rejected? ==> verdict.code == if NoneNoticed(group, ByOffset) then INVALID else DUPLICATE
  {
    hide NoneNoticed, FromZero;
    var stop, seen := ScanForRepeats(group, ByOffset);
    if stop.Some? {
      return Rejected(DUPLICATE, group[stop.value].name);
    }
    var keys := set key | key in seen && key.Offset? :: key.x;
    SeenOffsets(group, seen, keys);
    verdict := CheckPositions(domain, keys);
  }

  lemma SeenOffsets(group: seq<RegistryItem>, seen: map<Key, string>, keys: set<real>)
    requires forall v :: v in seen <==> exists item :: item in group && ByOffset(item) == v
    requires keys == set key | key in seen && key.Offset? :: key.x
    ensures keys == Offsets(group)
  {
    forall item | item in group
      ensures item.bitOffset in keys
    {
      assert ByOffset(item) == Offset(item.bitOffset);
      assert Offset(item.bitOffset) in seen;
    }
  }

  /** The domains met so far in order, and the items filed under each. */
  ghost predicate Grouped(items: seq<RegistryItem>, order: seq<string>, byDomain: map<string, seq<RegistryItem>>) {
    && (forall domain: string :: domain in order <==> domain in byDomain)
    && (forall domain: string :: InDomain(items, domain) == if domain in byDomain then byDomain[domain] else [])
  }

  ghost predicate NaturalOffsets(items: seq<RegistryItem>) {
    forall k | 0 <= k < |items| :: IsInteger(items[k].bitOffset) && items[k].bitOffset >= 0.0
  }

  /** The first loop: every offset is a natural number, and items are filed by domain. */
  method GroupNatural(items: seq<RegistryItem>)
      returns (verdict: Verdict, order: seq<string>, byDomain: map<string, seq<RegistryItem>>)
    ensures verdict.Accepted? <==> NaturalOffsets(items)
    ensures verdict.Rejected? ==> exists k: nat ::
              k < |items| && verdict == Rejected(INVALID, items[k].name) && NaturalOffsets(items[..k])
    ensures verdict.Accepted? ==> Grouped(items, order, byDomain)
  {
    hide InDomain, IsInteger;
    NothingGrouped();
    order, byDomain := [], map[];
    for k := 0 to |items|
      invariant NaturalOffsets(items[..k]) && Grouped(items[..k], order, byDomain)
    {
      var item := items[k];
      if !IsInteger(item.bitOffset) || item.bitOffset < 0.0 {
        return Rejected(INVALID, item.name), [], map[];
      }
      order, byDomain := File(item, items[..k], order, byDomain);
      assert items[..k + 1] == items[..k] + [item];
    }
    assert items[..|items|] == items;
    return Accepted, order, byDomain;
  }

  lemma NothingGrouped()
    ensures Grouped([], [], map[])
  {
  }

  method AssertDomainBitOffsets(items: seq<RegistryItem>) returns (verdict: Verdict)
    ensures verdict.Accepted? <==> SourceOffsetsPass(items)
  {
    hide DomainOffsetsPass, InDomain, IsInteger;
    EmptyDomainPasses();
    var order, byDomain;
    verdict, order, byDomain := GroupNatural(items);
    if verdict.Rejected? {
      return;
    }
    for d := 0 to |order|
      invariant forall i | 0 <= i < d :: DomainOffsetsPass(InDomain(items, order[i]))
    {
      assert order[d] in byDomain;
      verdict := CheckDomain(order[d], byDomain[order[d]]);
      if verdict.Rejected? {
        return;
      }
    }
    return Accepted;
  }

  lemma EmptyDomainPasses()
    ensures DomainOffsetsPass([])
  {
  }

  /** Appends an item to the list of its domain; a new domain goes last in the order of the map. */
  method File(item: RegistryItem, ghost before: seq<RegistryItem>, order: seq<string>,
              byDomain: map<string, seq<RegistryItem>>)
      returns (order': seq<string>, byDomain': map<string, seq<RegistryItem>>)
    requires Grouped(before, order, byDomain)
    ensures Grouped(before + [item], order', byDomain')
  {
    var list := if item.domain in byDomain then byDomain[item.domain] else [];
    order' := if item.domain in byDomain then order else order + [item.domain];
    byDomain' := byDomain[item.domain := list + [item]];
    assert (before + [item])[..|before|] == before;
    forall domain: string
      ensures InDomain(before + [item], domain) == if domain in byDomain' then byDomain'[domain] else []
    {
    }
  }

  // ---------- registry ranges ----------

  /** Inside the registry the byte's owner decides; outside it only the reserved ranges remain. */
  predicate InRange(item: RegistryItem, zeroByteDomains: set<string>, mapping: DomainByHighByte) {
    var highByte := HighByte(item.id);
    if Owner(mapping, highByte) != "" then
      item.domain == Owner(mapping, highByte)
    else
      || (highByte == 0x00 && item.domain in zeroByteDomains)
      || (0x70 <= highByte <= 0x7E && item.domain == "vendor")
      || (highByte == 0x7F && item.domain == "legacy")
  }

  /** For ids of 32 bits outside the registry: the low page, the vendor pages and the legacy page, and nothing else. */
  lemma ReservedRanges(item: RegistryItem, zeroByteDomains: set<string>, mapping: DomainByHighByte)
    requires IsInt32(item.id) && Owner(mapping, HighByte(item.id)) == ""
    ensures InRange(item, zeroByteDomains, mapping) <==>
            || (0x0000 <= item.id <= 0x00FF && item.domain in zeroByteDomains)
            || (0x7000 <= item.id <= 0x7EFF && item.domain == "vendor")
            || (0x7F00 <= item.id <= 0x7FFF && item.domain == "legacy")
  {
    HighByteOfInt32(item.id);
  }

  method AssertRegistryDomainRanges(items: seq<RegistryItem>, zeroByteDomains: seq<string>, mapping: DomainByHighByte)
      returns (verdict: Verdict)
    ensures var zeroByte := set d | d in zeroByteDomains;
            && (verdict.Accepted? <==> forall item | item in items :: InRange(item, zeroByte, mapping))
            && (verdict.Rejected? ==> exists k: nat ::
                  && k < |items| && !InRange(items[k], zeroByte, mapping) && verdict == Rejected(INVALID, items[k].name)
                  && forall j | 0 <= j < k :: InRange(items[j], zeroByte, mapping))
  {
    var zeroByte := set d | d in zeroByteDomains;
    for k := 0 to |items|
      invariant forall j | 0 <= j < k :: InRange(items[j], zeroByte, mapping)
    {
      var item := items[k];
      var highByte := HighByte(item.id);
      var expected := Owner(mapping, highByte);
      if expected != "" {
        if item.domain != expected {
          assert item in items && !InRange(item, zeroByte, mapping);
          return Rejected(INVALID, item.name);
        }
        continue;
      }
      if highByte == 0x00 && item.domain in zeroByte { continue; }
      if highByte >= 0x70 && highByte <= 0x7E && item.domain == "vendor" { continue; }
      if highByte == 0x7F && item.domain == "legacy" { continue; }
      assert item in items && !InRange(item, zeroByte, mapping);
      return Rejected(INVALID, item.name);
    }
    return Accepted;
  }

  /** The checks that stand between a method list and the generated table, in the order they run. */
  ghost predicate MethodsPass(domainRegistry: Option<seq<DomainRange>>, methods: seq<RegistryItem>,
                              events: seq<RegistryItem>, errors: seq<RegistryItem>)
  {
    var candidates := SourceCandidates(domainRegistry, methods, events, errors);
    && AllFit(candidates)
    && NoneNoticed(methods, ById)
    && DistinctKeys(methods, ByName)
    && (forall item | item in methods :: InRange(item, {}, Assigned(candidates)))
    && SourceOffsetsPass(methods)
  }

  method ValidateMethods(domainRegistry: Option<seq<DomainRange>>, methods: seq<RegistryItem>,
                         events: seq<RegistryItem>, errors: seq<RegistryItem>) returns (verdict: Verdict)
    ensures verdict.Accepted? <==> MethodsPass(domainRegistry, methods, events, errors)
  {
    hide NoneNoticed, DistinctKeys, InRange, AllFit, Assigned, SourceOffsetsPass, SourceCandidates;
    var mapping;
    verdict, mapping := BuildSourceDomainByHighByte(domainRegistry, methods, events, errors);
    if verdict.Rejected? { return; }
    verdict := AssertUniqueIds(methods);
    if verdict.Rejected? { return; }
    verdict := AssertUniqueNames(methods);
    if verdict.Rejected? { return; }
    assert (set d: string | d in []) == {};
    verdict := AssertRegistryDomainRanges(methods, [], mapping);
    if verdict.Rejected? { return; }
    verdict := AssertDomainBitOffsets(methods);
  }

  /** Every key of an accepted map is a byte, whatever the domain names are. */
  lemma {:induction false} AssignedKeysAreBytes(candidates: seq<DomainCandidate>)
    requires AllFit(candidates)
    ensures forall b | b in Assigned(candidates) :: 0 <= b < 256
  {
    if candidates != [] {
      var n := |candidates| - 1;
      var before, last := candidates[..n], candidates[n];
      assert candidates == before + [last];
      AllFitStep(before, last);
      ByteFloor(last.highByte);
      hide AllFit, IsByte;
      AssignedKeysAreBytes(before);
    }
  }

  lemma ByteFloor(x: real)
    requires IsByte(x)
    ensures 0 <= x.Floor < 256
  {
  }

  ghost predicate Fit32(items: seq<RegistryItem>) {
    forall item | item in items :: IsInt32(item.id)
  }

  ghost predicate Fit16(items: seq<RegistryItem>) {
    forall item | item in items :: 0 <= item.id < 0x1_0000
  }

  /** Acceptance makes ids and names of named methods distinct; ids fit 16 bits exactly when they fit 32 bits. */
  lemma AcceptedIdsFit(domainRegistry: Option<seq<DomainRange>>, methods: seq<RegistryItem>,
                       events: seq<RegistryItem>, errors: seq<RegistryItem>)
    requires MethodsPass(domainRegistry, methods, events, errors) && NonEmptyNames(methods)
    ensures DistinctKeys(methods, ById) && DistinctKeys(methods, ByName)
    ensures Fit16(methods) <==> Fit32(methods)
  {
    hide NoneNoticed, AllFit, Assigned, SourceOffsetsPass, SourceCandidates, DistinctKeys;
    NamedNoneNoticedIff(methods, ById);
    AssignedKeysAreBytes(SourceCandidates(domainRegistry, methods, events, errors));
    forall item | item in methods && IsInt32(item.id)
      ensures 0 <= item.id < 0x1_0000
    {
      HighByteOfInt32(item.id);
    }
  }

  lemma SingleOffset(item: RegistryItem)
    requires item.bitOffset == 0.0
    ensures SourceOffsetsPass([item]) && NoneNoticed([item], ById)
  {
    EmptyDomainPasses();
    assert [item][..0] == [];
    assert Offsets([item]) == {0.0};
    assert DomainOffsetsPass([item]);
    hide DomainOffsetsPass;
    forall domain: string
      ensures DomainOffsetsPass(InDomain([item], domain))
    {
      assert InDomain([item], domain) == if item.domain == domain then [item] else [];
    }
  }

  /** Without the 32-bit bound the shift wraps, and an id beyond 16 bits passes. */
  lemma WideIdPasses(item: RegistryItem)
    requires item == RegistryItem(0x1_0000_0101, "video.start", "video", 0.0)
    ensures MethodsPass(None, [item], [], [])
  {
    SingleOffset(item);
    assert HighByte(item.id) == 1;
    var c := DomainCandidate(1.0, "video", "video.start");
    assert [item][..0] == [];
    assert AllCandidates([item]) == [c];
    assert AllCandidates([]) == [];
    hide AllCandidates, SourceOffsetsPass, NoneNoticed;
    assert RangeCandidates([]) == [];
    assert SourceCandidates(None, [item], [], []) == [c];
    hide SourceCandidates;
    SingleCandidate(c);
  }

  lemma SingleCandidate(c: DomainCandidate)
    requires c.highByte == 1.0
    ensures AllFit([c]) && Assigned([c]) == map[1 := c.domain]
  {
    assert [c][..0] == [];
    assert IsByte(1.0) && (1.0).Floor == 1;
  }
}
