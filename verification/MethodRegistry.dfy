/** The two-map method index, its relation, and its agreement with a linear scan of the generated table. */
module MethodRegistry {
  import opened AxtpTypes
  import opened Numbers

  datatype Entry = Entry(id: uint32, name: string)

  predicate Clash(a: Entry, b: Entry) {
    a != b && (a.id == b.id || a.name == b.name)
  }

  function AfterAdding(relation: set<Entry>, added: Entry): set<Entry> {
    (set e | e in relation && !Clash(e, added)) + {added}
  }

  /** The relation a registry holds after a sequence of `addMethod` calls on an empty one. */
  function AfterCalls(calls: seq<Entry>): set<Entry> {
    if calls == [] then {} else AfterAdding(AfterCalls(calls[..|calls| - 1]), calls[|calls| - 1])
  }

  ghost predicate OneToOne(relation: set<Entry>) {
    forall a, b | a in relation && b in relation :: !Clash(a, b)
  }

  /** An entry is present exactly when some call added it and no later call used its id or name for anything else. */
  ghost predicate SurvivesFrom(calls: seq<Entry>, e: Entry, k: nat) {
    k < |calls| && calls[k] == e && forall j | k < j < |calls| :: !Clash(calls[j], e)
  }

  lemma {:induction false} PresentIff(calls: seq<Entry>, e: Entry)
    ensures e in AfterCalls(calls) <==> exists k: nat :: SurvivesFrom(calls, e, k)
  {
    if calls != [] {
      var last := |calls| - 1;
      PresentIff(calls[..last], e);
      if e == calls[last] {
        assert SurvivesFrom(calls, e, last);
      } else {
        forall k: nat
          ensures SurvivesFrom(calls, e, k) <==> SurvivesFrom(calls[..last], e, k) && !Clash(calls[last], e)
        {
          assert SurvivesFrom(calls, e, k) ==> calls[..last][k] == e;
        }
      }
    }
  }

  lemma {:induction false} CallsKeepOneToOne(calls: seq<Entry>)
    ensures OneToOne(AfterCalls(calls))
  {
    if calls != [] {
      CallsKeepOneToOne(calls[..|calls| - 1]);
    }
  }

  class MethodRegistry {
    var nameToId: map<string, uint32>
    var idToName: map<uint32, string>

    /** The two maps are mutually inverse. */
    ghost predicate Valid()
      reads this
    {
      && (forall id | id in idToName :: idToName[id] in nameToId && nameToId[idToName[id]] == id)
      && (forall name | name in nameToId :: nameToId[name] in idToName && idToName[nameToId[name]] == name)
    }

    ghost function Relation(): set<Entry>
      reads this
    {
      set id | id in idToName :: Entry(id, idToName[id])
    }

    constructor ()
      ensures Valid() && Relation() == {}
    {
      nameToId := map[];
      idToName := map[];
    }

    method AddMethod(methodId: uint32, methodName: string)
      requires Valid()
      modifies this
      ensures Valid() && Relation() == AfterAdding(old(Relation()), Entry(methodId, methodName))
    {
      ghost var wanted := AfterAdding(Relation(), Entry(methodId, methodName));
      if methodId in idToName {
        nameToId := nameToId - {idToName[methodId]};
      }
      if methodName in nameToId {
        idToName := idToName - {nameToId[methodName]};
      }
      nameToId := nameToId[methodName := methodId];
      idToName := idToName[methodId := methodName];
      forall e: Entry
        ensures e in Relation() <==> e in wanted
      {
        assert e in Relation() <==> e.id in idToName && idToName[e.id] == e.name;
        assert e in old(Relation()) <==> e.id in old(idToName) && old(idToName)[e.id] == e.name;
      }
    }

    function FindMethodId(methodName: string): (id: Option<uint32>)
      requires Valid()
      reads this
      ensures forall i: uint32 :: id == Some(i) <==> Entry(i, methodName) in Relation()
    {
      if methodName in nameToId then Some(nameToId[methodName]) else None
    }

    function FindMethodName(methodId: uint32): (name: Option<string>)
      requires Valid()
      reads this
      ensures forall n: string :: name == Some(n) <==> Entry(methodId, n) in Relation()
    {
      if methodId in idToName then Some(idToName[methodId]) else None
    }

    /** Walks the id map in key order. */
    method Entries() returns (out: seq<Entry>)
      ensures forall j, k | 0 <= j < k < |out| :: out[j].id < out[k].id
      ensures forall e :: e in out <==> e in Relation()
    {
      out := [];
      var remaining := idToName.Keys;
      while remaining != {}
        invariant remaining <= idToName.Keys
        invariant forall j, k | 0 <= j < k < |out| :: out[j].id < out[k].id
        invariant forall k, id | 0 <= k < |out| && id in remaining :: out[k].id < id
        invariant forall e :: e in out <==> e in Relation() && e.id !in remaining
        decreases remaining
      {
        ghost var least := Least(remaining, (id: uint32) => id as real);
        var id :| id in remaining && forall other | other in remaining :: id <= other;
        out := out + [Entry(id, idToName[id])];
        remaining := remaining - {id};
      }
    }
  }

  /** Loads a table row by row. */
  method FromTable(table: seq<Entry>) returns (registry: MethodRegistry)
    ensures fresh(registry) && registry.Valid() && registry.Relation() == AfterCalls(table)
  {
    registry := new MethodRegistry();
    for k := 0 to |table|
      invariant fresh(registry) && registry.Valid() && registry.Relation() == AfterCalls(table[..k])
    {
      registry.AddMethod(table[k].id, table[k].name);
      assert table[..k + 1][..k] == table[..k];
    }
    assert table[..|table|] == table;
  }

  // ---------- the linear scan ----------

  function MethodIdByName(table: seq<Entry>, name: string): Option<uint32> {
    if table == [] then None
    else if table[0].name == name then Some(table[0].id)
    else MethodIdByName(table[1..], name)
  }

  function MethodById(table: seq<Entry>, id: uint32): Option<Entry> {
    if table == [] then None
    else if table[0].id == id then Some(table[0])
    else MethodById(table[1..], id)
  }

  lemma {:induction false} ScanByName(table: seq<Entry>, name: string)
    ensures match MethodIdByName(table, name)
            case None => forall e | e in table :: e.name != name
            case Some(id) => Entry(id, name) in table
  {
    if table != [] && table[0].name != name {
      ScanByName(table[1..], name);
    }
  }

  lemma {:induction false} ScanById(table: seq<Entry>, id: uint32)
    ensures match MethodById(table, id)
            case None => forall e | e in table :: e.id != id
            case Some(e) => e in table && e.id == id
  {
    if table != [] && table[0].id != id {
      ScanById(table[1..], id);
    }
  }

  /** No id is used for two names and no name for two ids. */
  ghost predicate OneToOneTable(table: seq<Entry>) {
    forall j, k | 0 <= j < |table| && 0 <= k < |table| :: !Clash(table[j], table[k])
  }

  ghost predicate NameAgrees(table: seq<Entry>, name: string) {
    forall id: uint32 :: MethodIdByName(table, name) == Some(id) <==> Entry(id, name) in AfterCalls(table)
  }

  ghost predicate IdAgrees(table: seq<Entry>, id: uint32) {
    forall name: string :: MethodById(table, id) == Some(Entry(id, name)) <==> Entry(id, name) in AfterCalls(table)
  }

  /** The registry built from the table answers every query, present or absent, as the scan does. */
  ghost predicate AgreesEverywhere(table: seq<Entry>) {
    && (forall name: string :: NameAgrees(table, name))
    && (forall id: uint32 :: IdAgrees(table, id))
  }

  /** In a one-to-one table nothing is ever displaced. */
  lemma OneToOneKeepsEveryRow(table: seq<Entry>, e: Entry)
    requires OneToOneTable(table)
    ensures e in AfterCalls(table) <==> e in table
  {
    PresentIff(table, e);
    if e in table {
      var k: nat :| k < |table| && table[k] == e;
      assert SurvivesFrom(table, e, k);
    }
  }

  lemma OneToOneAgrees(table: seq<Entry>)
    requires OneToOneTable(table)
    ensures AgreesEverywhere(table)
  {
    hide AfterCalls;
    forall name: string
      ensures NameAgrees(table, name)
    {
      ScanByName(table, name);
      forall id: uint32
        ensures MethodIdByName(table, name) == Some(id) <==> Entry(id, name) in AfterCalls(table)
      {
        OneToOneKeepsEveryRow(table, Entry(id, name));
      }
    }
    forall id: uint32
      ensures IdAgrees(table, id)
    {
      ScanById(table, id);
      forall name: string
        ensures MethodById(table, id) == Some(Entry(id, name)) <==> Entry(id, name) in AfterCalls(table)
      {
        OneToOneKeepsEveryRow(table, Entry(id, name));
      }
    }
  }

  ghost predicate NoRepeatedRows(table: seq<Entry>) {
    forall j, k | 0 <= j < k < |table| :: table[j] != table[k]
  }

  lemma {:induction false} FirstByName(table: seq<Entry>, k: nat) returns (j: nat)
    requires k < |table|
    ensures j <= k && table[j].name == table[k].name && MethodIdByName(table, table[k].name) == Some(table[j].id)
  {
    if table[0].name == table[k].name {
      j := 0;
    } else {
      j := FirstByName(table[1..], k - 1);
      j := j + 1;
    }
  }

  lemma {:induction false} FirstById(table: seq<Entry>, k: nat) returns (j: nat)
    requires k < |table|
    ensures j <= k && table[j].id == table[k].id && MethodById(table, table[k].id) == Some(table[j])
  {
    if table[0].id == table[k].id {
      j := 0;
    } else {
      j := FirstById(table[1..], k - 1);
      j := j + 1;
    }
  }

  /** A row that answers a query is not displaced, so in a table without repeats no later row can clash with it. */
  lemma AnsweringRowIsUnchallenged(table: seq<Entry>, j: nat, k: nat)
    requires NoRepeatedRows(table) && j < k < |table|
    requires table[j] in AfterCalls(table)
    ensures !Clash(table[j], table[k])
  {
    hide AfterCalls;
    PresentIff(table, table[j]);
    var i: nat :| SurvivesFrom(table, table[j], i);
    assert i == j;
  }

  lemma AgreementForcesOneToOne(table: seq<Entry>)
    requires NoRepeatedRows(table) && AgreesEverywhere(table)
    ensures OneToOneTable(table)
  {
    hide AfterCalls;
    forall j, k | 0 <= j < k < |table|
      ensures !Clash(table[j], table[k]) && !Clash(table[k], table[j])
    {
      if table[j].name == table[k].name {
        var i := FirstByName(table, k);
        assert NameAgrees(table, table[k].name);
        UniqueByName(table, i, k);
        UniqueByName(table, i, j);
      } else if table[j].id == table[k].id {
        var i := FirstById(table, k);
        assert IdAgrees(table, table[k].id);
        UniqueById(table, i, k);
        UniqueById(table, i, j);
      }
    }
  }

  lemma UniqueByName(table: seq<Entry>, i: nat, k: nat)
    requires NoRepeatedRows(table) && i < |table| && k < |table| && table[i].name == table[k].name
    requires table[i] in AfterCalls(table) && MethodIdByName(table, table[k].name) == Some(table[i].id)
    ensures table[i] == table[k]
  {
    var first := FirstByName(table, k);
    assert table[first] == table[i];
    if first < k {
      AnsweringRowIsUnchallenged(table, first, k);
    }
  }

  lemma UniqueById(table: seq<Entry>, i: nat, k: nat)
    requires NoRepeatedRows(table) && i < |table| && k < |table| && table[i].id == table[k].id
    requires table[i] in AfterCalls(table) && MethodById(table, table[k].id) == Some(table[i])
    ensures table[i] == table[k]
  {
    var first := FirstById(table, k);
    if first < k {
      AnsweringRowIsUnchallenged(table, first, k);
    }
  }

  /** Over tables without repeated rows, one-to-one is exactly what makes registry and scan agree. */
  lemma AgreesIff(table: seq<Entry>)
    requires NoRepeatedRows(table)
    ensures AgreesEverywhere(table) <==> OneToOneTable(table)
  {
    if OneToOneTable(table) {
      OneToOneAgrees(table);
    }
    if AgreesEverywhere(table) {
      AgreementForcesOneToOne(table);
    }
  }

  /** A repeated row can repair a displaced one: this table is not one-to-one and the two still agree. */
  lemma RepeatsCanHideAClash(table: seq<Entry>)
    requires table == [Entry(1, "a"), Entry(2, "b"), Entry(2, "a"), Entry(1, "a"), Entry(2, "b")]
    ensures AgreesEverywhere(table) && !OneToOneTable(table)
  {
    var a, b := "a", "b";
    assert a[0] != b[0];
    assert Clash(table[0], table[2]);
    forall e
      ensures e in AfterCalls(table) <==> e == Entry(1, a) || e == Entry(2, b)
    {
      PresentIff(table, e);
      assert SurvivesFrom(table, Entry(1, a), 3) && SurvivesFrom(table, Entry(2, b), 4);
      assert Clash(table[4], Entry(2, a));
    }
    hide AfterCalls;
    assert table[1..][0] == table[1];
    assert MethodIdByName(table, a) == Some(1) && MethodIdByName(table, b) == Some(2);
    assert MethodById(table, 1) == Some(Entry(1, a)) && MethodById(table, 2) == Some(Entry(2, b));
    forall name: string
      ensures NameAgrees(table, name)
    {
      ScanByName(table, name);
    }
    forall id: uint32
      ensures IdAgrees(table, id)
    {
      ScanById(table, id);
    }
  }
}
