/** Registry items as the generator reads them, the bit operations it applies to ids, and its uniqueness rule. */
module RegistryItems {
  import opened AxtpTypes

  /** `bitOffset` is any number the registry file may hold, so it need not be an integer. */
  datatype RegistryItem = RegistryItem(id: int, name: string, domain: string, bitOffset: real)

  /** What a check does: return normally, or throw an error with a code about an entry. */
  datatype Verdict = Accepted | Rejected(code: string, entry: string)

  const DUPLICATE := "AXTP-GEN-1002"
  const INVALID := "AXTP-GEN-1004"

  /** The 32-bit signed value that the shift operators work on. */
  function ToInt32(n: int): int {
    (n + 0x8000_0000) % 0x1_0000_0000 - 0x8000_0000
  }

  /** `id >> 8`, an arithmetic shift. */
  function HighByte(id: int): int {
    ToInt32(id) / 256
  }

  predicate IsInt32(n: int) {
    -0x8000_0000 <= n < 0x8000_0000
  }

  /** The conversion keeps a number modulo 2^32 and brings it into range, where it changes nothing. */
  lemma ToInt32Wraps(n: int)
    ensures IsInt32(ToInt32(n)) && (ToInt32(n) - n) % 4294967296 == 0
    ensures IsInt32(n) <==> ToInt32(n) == n
    ensures IsInt32(n) <==> -2147483648 <= n <= 2147483647
  {
  }

  /** On 32-bit ids the shift is the plain quotient; an id fits 16 bits exactly when its high part is a byte. */
  lemma HighByteOfInt32(id: int)
    requires IsInt32(id)
    ensures 256 * HighByte(id) <= id < 256 * HighByte(id) + 256
    ensures 0 <= HighByte(id) < 256 <==> 0 <= id < 0x1_0000
  {
    assert ToInt32(id) == id;
  }

  ghost predicate NonEmptyNames(items: seq<RegistryItem>) {
    forall k | 0 <= k < |items| :: items[k].name != ""
  }

  datatype Key = Number(n: int) | Text(s: string) | Offset(x: real)

  const ById: RegistryItem -> Key := (item: RegistryItem) => Number(item.id)
  const ByName: RegistryItem -> Key := (item: RegistryItem) => Text(item.name)
  const ByOffset: RegistryItem -> Key := (item: RegistryItem) => Offset(item.bitOffset)

  predicate IsInteger(x: real) {
    x.Floor as real == x
  }

  /** The name of the most recent item with the key. */
  function Latest(items: seq<RegistryItem>, key: RegistryItem -> Key, value: Key): Option<string> {
    if items == [] then None
    else if key(items[|items| - 1]) == value then Some(items[|items| - 1].name)
    else Latest(items[..|items| - 1], key, value)
  }

  /** A repeated key is noticed only through the name stored with it, and an empty name reads as absent. */
  predicate Noticed(items: seq<RegistryItem>, key: RegistryItem -> Key, k: nat)
    requires k < |items|
  {
    Latest(items[..k], key, key(items[k])).GetOr("") != ""
  }

  /** `j` is the closest earlier item with the key of `k`. */
  ghost predicate Previous(items: seq<RegistryItem>, key: RegistryItem -> Key, j: nat, k: nat)
    requires k < |items|
  {
    j < k && key(items[j]) == key(items[k]) && forall i | j < i < k :: key(items[i]) != key(items[k])
  }

  lemma {:induction false} LatestIff(items: seq<RegistryItem>, key: RegistryItem -> Key, k: nat, n: nat)
    requires n <= k < |items| && forall i | n <= i < k :: key(items[i]) != key(items[k])
    ensures var latest := Latest(items[..n], key, key(items[k]));
            && (forall j: nat | Previous(items, key, j, k) :: latest == Some(items[j].name))
            && (latest.Some? ==> exists j: nat :: Previous(items, key, j, k))
  {
    if n > 0 {
      assert items[..n][..n - 1] == items[..n - 1];
      if key(items[n - 1]) == key(items[k]) {
        assert Previous(items, key, n - 1, k);
      } else {
        LatestIff(items, key, k, n - 1);
      }
    }
  }

  /** An item repeats the key of a named one, with no other item of that key in between. */
  ghost predicate RepeatsNamed(items: seq<RegistryItem>, key: RegistryItem -> Key, j: nat, k: nat) {
    k < |items| && Previous(items, key, j, k) && items[j].name != ""
  }

  lemma NoticedIff(items: seq<RegistryItem>, key: RegistryItem -> Key, k: nat)
    requires k < |items|
    ensures Noticed(items, key, k) <==> exists j: nat :: RepeatsNamed(items, key, j, k)
  {
    LatestIff(items, key, k, k);
    if j: nat :| Previous(items, key, j, k) {
      assert RepeatsNamed(items, key, j, k) <==> items[j].name != "";
    }
  }

  ghost predicate NoneNoticed(items: seq<RegistryItem>, key: RegistryItem -> Key) {
    forall k | 0 <= k < |items| :: !Noticed(items, key, k)
  }

  ghost predicate DistinctKeys(items: seq<RegistryItem>, key: RegistryItem -> Key) {
    forall j, k | 0 <= j < k < |items| :: key(items[j]) != key(items[k])
  }

  lemma {:induction false} LastBefore(items: seq<RegistryItem>, key: RegistryItem -> Key, j: nat, k: nat)
      returns (last: nat)
    requires j < k < |items| && key(items[j]) == key(items[k])
    ensures j <= last && Previous(items, key, last, k)
    decreases k - j
  {
    if next: nat :| j < next < k && key(items[next]) == key(items[k]) {
      last := LastBefore(items, key, next, k);
    } else {
      last := j;
    }
  }

  /** A list passes exactly when every repeated key last appeared on an item with an empty name. */
  lemma NoneNoticedIff(items: seq<RegistryItem>, key: RegistryItem -> Key)
    ensures NoneNoticed(items, key) <==> forall j: nat, k: nat :: !RepeatsNamed(items, key, j, k)
  {
    hide Noticed, Previous;
    forall j: nat, k: nat | RepeatsNamed(items, key, j, k)
      ensures Noticed(items, key, k)
    {
      NoticedIff(items, key, k);
    }
    forall k: nat | k < |items| && Noticed(items, key, k)
      ensures exists j: nat :: RepeatsNamed(items, key, j, k)
    {
      NoticedIff(items, key, k);
    }
  }

  /** When every item has a name, a list passes exactly when its keys are distinct. */
  lemma NamedNoneNoticedIff(items: seq<RegistryItem>, key: RegistryItem -> Key)
    requires NonEmptyNames(items)
    ensures NoneNoticed(items, key) <==> DistinctKeys(items, key)
  {
    NoneNoticedIff(items, key);
    forall j, k | 0 <= j < k < |items| && key(items[j]) == key(items[k])
      ensures exists last: nat :: RepeatsNamed(items, key, last, k)
    {
      var last := LastBefore(items, key, j, k);
      assert RepeatsNamed(items, key, last, k);
    }
  }

  /** The first item at which a check stops. */
  ghost predicate StopsAt(items: seq<RegistryItem>, key: RegistryItem -> Key, k: nat) {
    k < |items| && Noticed(items, key, k) && forall j | 0 <= j < k :: !Noticed(items, key, j)
  }

  lemma {:induction false} LatestPresent(items: seq<RegistryItem>, key: RegistryItem -> Key, value: Key)
    ensures Latest(items, key, value).Some? <==> exists item :: item in items && key(item) == value
  {
    if items != [] {
      var n := |items| - 1;
      LatestPresent(items[..n], key, value);
      assert items == items[..n] + [items[n]];
    }
  }

  /** The one-pass search for a repeated key, with a map from each key to the name it was last seen with. */
  method ScanForRepeats(items: seq<RegistryItem>, key: RegistryItem -> Key)
      returns (stop: Option<nat>, seen: map<Key, string>)
    ensures stop.None? <==> NoneNoticed(items, key)
    ensures stop.Some? ==> StopsAt(items, key, stop.value)
    ensures stop.None? ==> forall v :: v in seen <==> exists item :: item in items && key(item) == v
  {
    seen := map[];
    for k := 0 to |items|
      invariant forall j | 0 <= j < k :: !Noticed(items, key, j)
      invariant forall v :: Latest(items[..k], key, v) == if v in seen then Some(seen[v]) else None
    {
      var value := key(items[k]);
      var existing := if value in seen then seen[value] else "";
      if existing != "" {
        assert Noticed(items, key, k);
        return Some(k), seen;
      }
      seen := seen[value := items[k].name];
      assert items[..k + 1][..k] == items[..k];
    }
    assert items[..|items|] == items;
    forall v
      ensures v in seen <==> exists item :: item in items && key(item) == v
    {
      LatestPresent(items, key, v);
    }
    return None, seen;
  }
}
