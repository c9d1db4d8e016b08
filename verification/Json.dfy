/** JSON values and the checked accessors the JSON-RPC code uses; a failed access throws. */
module Json {
  import opened AxtpTypes

  /** Parsed numbers are unsigned when non-negative, signed when negative, and floating point otherwise. */
  datatype Json =
    | Null
    | Bool(b: bool)
    | Unsigned(u: nat)
    | Signed(i: int)
    | Float(r: real)
    | Str(s: string)
    | Array(items: seq<Json>)
    | Object(fields: map<string, Json>)

  datatype Checked<+T> = Ok(value: T) | Throws {
    predicate IsFailure() {
      Throws?
    }

    function PropagateFailure<U>(): Checked<U>
      requires Throws?
    {
      Throws
    }

    function Extract(): T
      requires Ok?
    {
      value
    }
  }

  function Need(condition: bool): Checked<()> {
    if condition then Ok(()) else Throws
  }

  function At(j: Json, key: string): Checked<Json> {
    if j.Object? && key in j.fields then Ok(j.fields[key]) else Throws
  }

  function Find(j: Json, key: string): Option<Json> {
    if j.Object? && key in j.fields then Some(j.fields[key]) else None
  }

  function Truncate(r: real): int {
    if r >= 0.0 then r.Floor else -((-r).Floor)
  }

  /** Two's complement reading of the low `2 * half` values. */
  function Wrap(n: int, half: nat): int
    requires half > 0
  {
    (n + half) % (2 * half) - half
  }

  function GetInt64(j: Json): Checked<int> {
    match j
    case Unsigned(u) => Ok(Wrap(u, 0x8000_0000_0000_0000))
    case Signed(i) => Ok(i)
    case Float(r) => Ok(Truncate(r))
    case _ => Throws
  }

  /** The narrower conversion also accepts booleans. */
  function GetInt32(j: Json): Checked<int> {
    match j
    case Unsigned(u) => Ok(Wrap(u, 0x8000_0000))
    case Signed(i) => Ok(Wrap(i, 0x8000_0000))
    case Float(r) => Ok(Truncate(r))
    case Bool(b) => Ok(if b then 1 else 0)
    case _ => Throws
  }

  /** `object.value(key, fallback)` for an integer. */
  function IntOr(j: Json, key: string, fallback: int): Checked<int> {
    if !j.Object? then Throws
    else if key in j.fields then GetInt32(j.fields[key])
    else Ok(fallback)
  }

  // What the conversions of numbers keep.

  /** Towards zero: the nearest integer that is no further from it. */
  lemma TruncatesTowardZero(r: real)
    ensures r >= 0.0 ==> 0.0 <= Truncate(r) as real <= r < Truncate(r) as real + 1.0
    ensures r <= 0.0 ==> Truncate(r) as real - 1.0 < r <= Truncate(r) as real <= 0.0
  {
  }

  /** Numbers that fit are read as they are, in either width; only the narrow reading takes booleans. */
  lemma SmallNumbersRead(n: int)
    requires -2147483648 <= n < 2147483648
    ensures GetInt32(Signed(n)) == Ok(n) && GetInt64(Signed(n)) == Ok(n)
    ensures n >= 0 ==> GetInt32(Unsigned(n)) == Ok(n) && GetInt64(Unsigned(n)) == Ok(n)
    ensures GetInt32(Bool(true)) == Ok(1) && GetInt32(Bool(false)) == Ok(0) && GetInt64(Bool(true)) == Throws
    ensures GetInt32(Str("")) == Throws && GetInt64(Str("")) == Throws
  {
  }

  predicate SameModulo(read: int, n: int, width: nat)
    requires width > 0
  {
    -(width as int) <= 2 * read < width && (read - n) % width == 0
  }

  lemma Wraps32(n: int)
    ensures SameModulo(Wrap(n, 2147483648), n, 4294967296)
  {
  }

  lemma Wraps64(n: int)
    ensures SameModulo(Wrap(n, 9223372036854775808), n, 18446744073709551616)
  {
  }

  /** The narrow reading keeps a number modulo 2^32, the wide one modulo 2^64, and both bring it into signed range. */
  lemma LargeNumbersWrap(n: nat, i: int)
    ensures var r := GetInt32(Unsigned(n)); r.Ok? && SameModulo(r.value, n, 4294967296)
    ensures var r := GetInt32(Signed(i)); r.Ok? && SameModulo(r.value, i, 4294967296)
    ensures var r := GetInt64(Unsigned(n)); r.Ok? && SameModulo(r.value, n, 18446744073709551616)
  {
    hide Wrap, SameModulo;
    Wraps32(n);
    Wraps32(i);
    Wraps64(n);
  }
}
