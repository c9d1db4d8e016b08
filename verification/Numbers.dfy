/** Numbers shared by the codecs, the digest and the checks: powers, big-endian bytes, and least elements. */
module Numbers {
  import opened AxtpTypes

  function Power(base: nat, k: nat): nat {
    if k == 0 then 1 else base * Power(base, k - 1)
  }

  function Repeat<T>(x: T, n: nat): (s: seq<T>)
    ensures |s| == n
  {
    seq(n, i => x)
  }

  lemma RepeatSnoc<T>(x: T, n: nat)
    ensures Repeat(x, n) + [x] == Repeat(x, n + 1)
  {
  }

  /** The low `width` bytes of `n`, highest first. */
  function BigEndian(n: nat, width: nat): (bytes: Bytes)
    ensures |bytes| == width
  {
    if width == 0 then [] else BigEndian(n / 0x100, width - 1) + [n % 0x100]
  }

  function FromBigEndian(bytes: Bytes): nat {
    if bytes == [] then 0 else FromBigEndian(bytes[..|bytes| - 1]) * 0x100 + bytes[|bytes| - 1]
  }

  lemma {:induction false} BigEndianInverts(n: nat, width: nat)
    requires n < Power(0x100, width)
    ensures FromBigEndian(BigEndian(n, width)) == n
  {
    if width > 0 {
      BigEndianInverts(n / 0x100, width - 1);
      assert BigEndian(n, width)[..width - 1] == BigEndian(n / 0x100, width - 1);
    }
  }

  /** The value of a digit in bases up to 16, or 16 for any other character. */
  function Digit(c: char): (d: nat)
    ensures d <= 16
  {
    if '0' <= c <= '9' then c as int - '0' as int
    else if 'A' <= c <= 'F' then c as int - 'A' as int + 10
    else if 'a' <= c <= 'f' then c as int - 'a' as int + 10
    else 16
  }

  /** What a numeral says in a base, its first digit the highest. */
  function DigitsValue(s: string, radix: nat): (value: int)
    ensures value >= 0
  {
    if s == [] then 0 else DigitsValue(s[..|s| - 1], radix) * radix + Digit(s[|s| - 1])
  }

  lemma {:induction false} Least<T>(s: set<T>, key: T -> real) returns (least: T)
    requires s != {}
    ensures least in s && forall x | x in s :: key(least) <= key(x)
    decreases s
  {
    least :| least in s;
    var below := set x | x in s && key(x) < key(least);
    if below == {} {
      forall x | x in s
        ensures key(least) <= key(x)
      {
        assert x !in below;
      }
    } else {
      var pivot := least;
      least := Least(below, key);
      forall x | x in s
        ensures key(least) <= key(x)
      {
        assert key(x) < key(pivot) ==> x in below;
      }
    }
  }
}
