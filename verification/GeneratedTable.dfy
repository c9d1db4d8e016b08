/** From an accepted method list to the generated table, and from the table to both ways of looking methods up. */
module GeneratedTable {
  import opened AxtpTypes
  import opened RegistryItems
  import opened DomainRegistry
  import MethodRegistry
  import SourceValidator

  /** The comparator: ids first, then a comparison of names (`localeCompare`) that is left open. */
  function Compare(a: RegistryItem, b: RegistryItem, byName: (string, string) -> int): int {
    if a.id - b.id != 0 then a.id - b.id else byName(a.name, b.name)
  }

  function Insert(sorted: seq<RegistryItem>, item: RegistryItem, byName: (string, string) -> int): seq<RegistryItem> {
    if sorted == [] then [item]
    else
      var n := |sorted| - 1;
      if Compare(item, sorted[n], byName) < 0 then Insert(sorted[..n], item, byName) + [sorted[n]]
      else sorted + [item]
  }

  /** An insertion sort of a copy. */
  function SortById(items: seq<RegistryItem>, byName: (string, string) -> int): seq<RegistryItem> {
    if items == [] then [] else Insert(SortById(items[..|items| - 1], byName), items[|items| - 1], byName)
  }

  ghost predicate OrderedById(items: seq<RegistryItem>) {
    forall j, k | 0 <= j < k < |items| :: items[j].id <= items[k].id
  }

  lemma {:induction false} InsertKeeps(sorted: seq<RegistryItem>, item: RegistryItem, byName: (string, string) -> int)
    ensures multiset(Insert(sorted, item, byName)) == multiset(sorted) + multiset{item}
    ensures forall x :: x in Insert(sorted, item, byName) <==> x in sorted || x == item
  {
    hide Compare;
    if sorted != [] {
      var n := |sorted| - 1;
      InsertKeeps(sorted[..n], item, byName);
      assert sorted == sorted[..n] + [sorted[n]];
    }
  }

  lemma AppendOrdered(front: seq<RegistryItem>, last: RegistryItem)
    requires OrderedById(front) && forall x | x in front :: x.id <= last.id
    ensures OrderedById(front + [last])
  {
  }

  lemma {:induction false} InsertOrdered(sorted: seq<RegistryItem>, item: RegistryItem, byName: (string, string) -> int)
    requires OrderedById(sorted)
    ensures OrderedById(Insert(sorted, item, byName))
  {
    if sorted != [] {
      var n := |sorted| - 1;
      forall x | x in sorted[..n]
        ensures x.id <= sorted[n].id
      {
      }
      if Compare(item, sorted[n], byName) < 0 {
        var front := Insert(sorted[..n], item, byName);
        InsertOrdered(sorted[..n], item, byName);
        InsertKeeps(sorted[..n], item, byName);
        hide Insert;
        AppendOrdered(front, sorted[n]);
      } else {
        hide Insert;
        AppendOrdered(sorted, item);
      }
    }
  }

  /** Whatever the name comparison, the result is a permutation of the items in id order. */
  lemma {:induction false} SortByIdSorts(items: seq<RegistryItem>, byName: (string, string) -> int)
    ensures OrderedById(SortById(items, byName))
    ensures multiset(SortById(items, byName)) == multiset(items)
  {
    if items != [] {
      var n := |items| - 1;
      SortByIdSorts(items[..n], byName);
      assert items == items[..n] + [items[n]];
      InsertKeeps(SortById(items[..n], byName), items[n], byName);
      InsertOrdered(SortById(items[..n], byName), items[n], byName);
    }
  }

  function Row(item: RegistryItem): MethodRegistry.Entry
    requires 0 <= item.id < 0x1_0000
  {
    MethodRegistry.Entry(item.id, item.name)
  }

  /** One row per method, in id order. */
  function Table(items: seq<RegistryItem>): (table: seq<MethodRegistry.Entry>)
    requires forall item | item in items :: 0 <= item.id < 0x1_0000
    ensures |table| == |items|
  {
    seq(|items|, k requires 0 <= k < |items| => Row(items[k]))
  }

  ghost predicate Ascending(table: seq<MethodRegistry.Entry>) {
    forall j, k | 0 <= j < k < |table| :: table[j].id < table[k].id
  }

  lemma SortedIdsAscend(items: seq<RegistryItem>, byName: (string, string) -> int)
    requires DistinctKeys(items, ById) && forall item | item in items :: 0 <= item.id < 0x1_0000
    ensures var sorted := SortById(items, byName);
            && (forall item :: item in sorted <==> item in items)
            && Ascending(Table(sorted))
  {
    hide SortById, DistinctKeys;
    var sorted := SortById(items, byName);
    SortByIdSorts(items, byName);
    assert forall item :: item in sorted <==> item in multiset(sorted);
    assert forall item :: item in items <==> item in multiset(items);
    SameMultisetDistinct(items, sorted);
    assert forall j, k | 0 <= j < k < |sorted| :: sorted[j].id <= sorted[k].id;
  }

  /** Distinct ids stay distinct under permutation. */
  lemma SameMultisetDistinct(items: seq<RegistryItem>, sorted: seq<RegistryItem>)
    requires DistinctKeys(items, ById) && multiset(items) == multiset(sorted)
    ensures forall j, k | 0 <= j < k < |sorted| :: sorted[j].id != sorted[k].id
  {
    forall j, k | 0 <= j < k < |sorted|
      ensures sorted[j].id != sorted[k].id
    {
      var x, y := sorted[j], sorted[k];
      if x.id == y.id {
        assert x in multiset(sorted) && y in multiset(sorted);
        var a :| 0 <= a < |items| && items[a] == x;
        var b :| 0 <= b < |items| && items[b] == y;
        assert ById(items[a]) == ById(items[b]);
        assert a == b && x == y;
        TwiceCounted(sorted, j, k);
        OnceCounted(items, a);
      }
    }
  }

  lemma TwiceCounted(s: seq<RegistryItem>, j: nat, k: nat)
    requires j < k < |s| && s[j] == s[k]
    ensures multiset(s)[s[j]] >= 2
  {
    assert s == s[..j] + [s[j]] + s[j + 1..k] + [s[k]] + s[k + 1..];
  }

  lemma OnceCounted(s: seq<RegistryItem>, a: nat)
    requires a < |s| && DistinctKeys(s, ById)
    ensures multiset(s)[s[a]] == 1
  {
    assert s == s[..a] + [s[a]] + s[a + 1..];
    forall j | 0 <= j < |s| && j != a
      ensures s[j] != s[a]
    {
      assert ById(s[j]) != ById(s[a]);
    }
  }

  lemma TableOneToOne(items: seq<RegistryItem>, byName: (string, string) -> int)
    requires DistinctKeys(items, ById) && DistinctKeys(items, ByName)
    requires forall item | item in items :: 0 <= item.id < 0x1_0000
    ensures var sorted := SortById(items, byName);
            && (forall item | item in sorted :: item in items)
            && Ascending(Table(sorted)) && MethodRegistry.OneToOneTable(Table(sorted))
  {
    hide SortById;
    var sorted := SortById(items, byName);
    SortedIdsAscend(items, byName);
    var table := Table(sorted);
    forall j, k | 0 <= j < |table| && 0 <= k < |table|
      ensures !MethodRegistry.Clash(table[j], table[k])
    {
      assert sorted[j] in items && sorted[k] in items;
      var a :| 0 <= a < |items| && items[a] == sorted[j];
      var b :| 0 <= b < |items| && items[b] == sorted[k];
      assert ByName(items[a]) == Text(items[a].name) && ByName(items[b]) == Text(items[b].name);
      assert ById(items[a]) == Number(items[a].id) && ById(items[b]) == Number(items[b].id);
    }
  }

  lemma FrontOf(table: seq<MethodRegistry.Entry>, e: MethodRegistry.Entry)
    requires Ascending(table) && table != []
    ensures e in table[..|table| - 1] <==> e in table && e != table[|table| - 1]
    ensures e in table ==> e.id <= table[|table| - 1].id
  {
    var n := |table| - 1;
    if k :| 0 <= k < |table| && table[k] == e {
      assert k < n ==> table[..n][k] == e;
    }
  }

  /** Two ascending tables with the same rows are the same table. */
  lemma {:induction false} AscendingUnique(s: seq<MethodRegistry.Entry>, t: seq<MethodRegistry.Entry>)
    requires Ascending(s) && Ascending(t) && forall e :: e in s <==> e in t
    ensures s == t
  {
    assert s != [] ==> s[0] in t;
    assert t != [] ==> t[0] in s;
    if s != [] {
      var m, n := |s| - 1, |t| - 1;
      FrontOf(s, t[n]);
      FrontOf(t, s[m]);
      SameId(s, s[m], t[n]);
      forall e
        ensures e in s[..m] <==> e in t[..n]
      {
        FrontOf(s, e);
        FrontOf(t, e);
      }
      AscendingUnique(s[..m], t[..n]);
    }
  }

  lemma SameId(table: seq<MethodRegistry.Entry>, a: MethodRegistry.Entry, b: MethodRegistry.Entry)
    requires Ascending(table) && a in table && b in table
    ensures a.id == b.id <==> a == b
  {
  }

  /**
   For a method list that the source validator accepts, with named methods and 32-bit ids, the generated table holds
   exactly one row per method, and the registry built from it answers every name and every id as the scan does.
   */
  lemma AcceptedListsAgree(domainRegistry: Option<seq<DomainRange>>, methods: seq<RegistryItem>,
                           events: seq<RegistryItem>, errors: seq<RegistryItem>, byName: (string, string) -> int)
    requires SourceValidator.MethodsPass(domainRegistry, methods, events, errors) && NonEmptyNames(methods)
    requires forall item | item in methods :: IsInt32(item.id)
    ensures var sorted := SortById(methods, byName);
            && (forall item | item in sorted :: 0 <= item.id < 0x1_0000)
            && Ascending(Table(sorted)) && MethodRegistry.AgreesEverywhere(Table(sorted))
            && (forall e :: e in MethodRegistry.AfterCalls(Table(sorted)) <==> e in Table(sorted))
  {
    hide SortById, MethodRegistry.AgreesEverywhere, MethodRegistry.AfterCalls, DistinctKeys;
    SourceValidator.AcceptedIdsFit(domainRegistry, methods, events, errors);
    TableOneToOne(methods, byName);
    var table := Table(SortById(methods, byName));
    MethodRegistry.OneToOneAgrees(table);
    forall e
      ensures e in MethodRegistry.AfterCalls(table) <==> e in table
    {
      MethodRegistry.OneToOneKeepsEveryRow(table, e);
    }
  }

  /** Loading the table and listing the registry gives the table back. */
  method LoadAndList(table: seq<MethodRegistry.Entry>) returns (listed: seq<MethodRegistry.Entry>)
    requires Ascending(table) && MethodRegistry.OneToOneTable(table)
    ensures listed == table
  {
    hide MethodRegistry.AfterCalls;
    var registry := MethodRegistry.FromTable(table);
    listed := registry.Entries();
    forall e
      ensures e in listed <==> e in table
    {
      MethodRegistry.OneToOneKeepsEveryRow(table, e);
    }
    AscendingUnique(listed, table);
  }
}
