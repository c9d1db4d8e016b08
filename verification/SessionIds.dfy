/** Session ids: a counter spread over 32 bits by an odd multiplier, mixed with the peer's seed, in fixed-width hex. */
module SessionIds {
  import opened AxtpTypes
  import opened Numbers

  const WORD: int := 0x1_0000_0000

  function Xor(a: nat, b: nat): nat {
    if a == 0 && b == 0 then 0 else 2 * Xor(a / 2, b / 2) + (if a % 2 == b % 2 then 0 else 1)
  }

  function Spread(counter: uint32): uint32 {
    counter * 0x9E37_79B9 % WORD
  }

  /** Multiplies by the inverse of the odd multiplier modulo 2^32. */
  function Unspread(n: uint32): uint32 {
    n * 340_573_321 % WORD
  }

  function Mix(seed: uint32, counter: uint32): uint32 {
    WordBound();
    XorBound(seed, Spread(counter), 32);
    Xor(seed, Spread(counter))
  }

  /** The counter has already moved on when the fallback for zero is taken from it. */
  function SessionNumber(seed: uint32, counter: uint32): uint32 {
    if Mix(seed, counter) == 0 then (counter as int + 1) % WORD else Mix(seed, counter)
  }

  function HexDigit(d: nat): char
    requires d < 16
  {
    "0123456789ABCDEF"[d]
  }

  /** Upper-case hexadecimal, zero-filled to `width` digits. */
  function Hex(n: nat, width: nat): (s: string)
    ensures |s| == width
  {
    if width == 0 then [] else Hex(n / 16, width - 1) + [HexDigit(n % 16)]
  }

  function SessionId(seed: uint32, counter: uint32): string {
    Hex(SessionNumber(seed, counter), 8)
  }

  lemma {:induction false} XorBound(a: nat, b: nat, k: nat)
    requires a < Power(2, k) && b < Power(2, k)
    ensures Xor(a, b) < Power(2, k)
    decreases k
  {
    if k > 0 {
      XorBound(a / 2, b / 2, k - 1);
    }
  }

  lemma {:induction false} XorCancels(a: nat, b: nat)
    ensures Xor(a, Xor(a, b)) == b
    ensures Xor(a, b) == 0 <==> a == b
    decreases a + b
  {
    if a != 0 || b != 0 {
      XorCancels(a / 2, b / 2);
    }
  }

  lemma WordBound()
    ensures Power(2, 32) == WORD
  {
    assert Power(2, 8) == 256;
    assert Power(2, 16) == 65536;
    assert Power(2, 24) == 16777216;
  }

  lemma Multiple(n: uint32, t: int)
    ensures (n + WORD * t) % WORD == n
  {
  }

  lemma SpreadInverts(n: uint32)
    ensures Unspread(Spread(n)) == n && Spread(Unspread(n)) == n
  {
    var p, q := n * 0x9E37_79B9 / WORD, n * 340_573_321 / WORD;
    Multiple(n, n * 210_485_888 - p * 340_573_321);
    Multiple(n, n * 210_485_888 - q * 0x9E37_79B9);
  }

  /** The counter can be recovered from the seed and the mix. */
  lemma MixInverts(seed: uint32, counter: uint32)
    ensures var m := Xor(seed, Mix(seed, counter)); m == Spread(counter)
    ensures Mix(seed, counter) == 0 <==> counter == Unspread(seed)
  {
    XorCancels(seed, Spread(counter));
    SpreadInverts(counter);
    SpreadInverts(seed);
  }

  lemma MixInjective(seed: uint32, a: uint32, b: uint32)
    ensures Mix(seed, a) == Mix(seed, b) <==> a == b
  {
    MixInverts(seed, a);
    MixInverts(seed, b);
    SpreadInverts(a);
    SpreadInverts(b);
  }

  predicate IsUpperHex(c: char) {
    '0' <= c <= '9' || 'A' <= c <= 'F'
  }

  lemma HexDigitReads(d: nat)
    requires d < 16
    ensures IsUpperHex(HexDigit(d)) && Digit(HexDigit(d)) == d
  {
  }

  /** A number that fits is read back from its digits, the first of them the highest. */
  lemma {:induction false} HexReads(n: nat, width: nat)
    requires n < Power(2, 4 * width)
    ensures forall k | 0 <= k < width :: IsUpperHex(Hex(n, width)[k])
    ensures DigitsValue(Hex(n, width), 16) == n
  {
    hide IsUpperHex, Digit, HexDigit;
    if width > 0 {
      var k := 4 * (width - 1);
      assert Power(2, k + 1) == 2 * Power(2, k) && Power(2, k + 2) == 4 * Power(2, k);
      assert Power(2, k + 3) == 8 * Power(2, k);
      HexReads(n / 16, width - 1);
      HexDigitReads(n % 16);
      assert Hex(n, width)[..width - 1] == Hex(n / 16, width - 1);
    }
  }

  lemma HexInjective(m: nat, n: nat, width: nat)
    requires m < Power(2, 4 * width) && n < Power(2, 4 * width)
    ensures Hex(m, width) == Hex(n, width) <==> m == n
  {
    hide Hex, DigitsValue;
    HexReads(m, width);
    HexReads(n, width);
  }

  /** A session id is eight upper-case hexadecimal digits, and these say its number. */
  lemma SessionIdReads(seed: uint32, counter: uint32)
    ensures var id := SessionId(seed, counter);
            && |id| == 8 && (forall k | 0 <= k < 8 :: IsUpperHex(id[k]))
            && DigitsValue(id, 16) == SessionNumber(seed, counter)
  {
    WordBound();
    HexReads(SessionNumber(seed, counter), 8);
    hide Hex, DigitsValue, SessionNumber, IsUpperHex;
  }

  /** Without a seed the number is the spread counter, or the next counter where that is zero. */
  lemma UnseededNumber(counter: uint32)
    ensures SessionNumber(0, counter) ==
            if Spread(counter) == 0 then (counter + 1) % 0x1_0000_0000 else Spread(counter)
  {
    XorZero(Spread(counter));
    hide Xor, Spread;
  }

  /** The numbers of an adapter that has just started, and of its first connection. */
  lemma FirstNumbers()
    ensures SessionNumber(0, 1) == 0x9E37_79B9 && SessionNumber(0, 2) == 0x3C6E_F372
  {
    hide SessionNumber;
    UnseededNumber(1);
    UnseededNumber(2);
  }

  lemma {:induction false} XorZero(n: nat)
    ensures Xor(0, n) == n
  {
    if n > 0 {
      XorZero(n / 2);
    }
  }

  predicate Bit(n: nat, k: nat) {
    if k == 0 then n % 2 == 1 else Bit(n / 2, k - 1)
  }

  /** A bit of the result is set exactly where the two differ. */
  lemma {:induction false} XorBits(a: nat, b: nat, k: nat)
    ensures Bit(Xor(a, b), k) <==> Bit(a, k) != Bit(b, k)
  {
    if k > 0 {
      XorBits(a / 2, b / 2, k - 1);
    }
  }

  /** Eight digits of `0123456789ABCDEF`, one id per number. */
  lemma SessionIdInjective(seed: uint32, a: uint32, b: uint32)
    ensures SessionId(seed, a) == SessionId(seed, b) <==> SessionNumber(seed, a) == SessionNumber(seed, b)
  {
    WordBound();
    HexInjective(SessionNumber(seed, a), SessionNumber(seed, b), 8);
  }

  /**
   Two counters give the same id under one seed exactly when one of them hits the zero fallback and the number
   it falls back to is the mix of the other.
   */
  lemma CollisionIff(seed: uint32, a: uint32, b: uint32)
    requires a != b
    ensures SessionId(seed, a) == SessionId(seed, b) <==>
            || (a == Unspread(seed) && Mix(seed, b) == a + 1)
            || (b == Unspread(seed) && Mix(seed, a) == b + 1)
  {
    hide Mix, SessionId, Spread, Unspread, Hex, Xor;
    SessionIdInjective(seed, a, b);
    MixInjective(seed, a, b);
    MixInverts(seed, a);
    MixInverts(seed, b);
  }

  /** Without a seed the counter runs through all its 2^32 - 1 non-zero values before any id repeats. */
  lemma UnseededIdsDistinct(a: uint32, b: uint32)
    requires a != b && a != 0 && b != 0
    ensures SessionId(0, a) != SessionId(0, b)
  {
    hide Mix, SessionId, SessionNumber;
    CollisionIff(0, a, b);
    assert Unspread(0) == 0;
  }

  /** Every seed but one has exactly one pair of counters with the same id. */
  lemma FallbackRepeats(seed: uint32) returns (a: uint32, b: uint32)
    requires Unspread(seed) != 0xFFFF_FFFF
    ensures a != b && SessionId(seed, a) == SessionId(seed, b)
    ensures forall c: uint32, d: uint32 | c != d && SessionId(seed, c) == SessionId(seed, d) :: {c, d} == {a, b}
  {
    hide Mix, SessionId, SessionNumber, Spread;
    a := Unspread(seed);
    b := MixedFrom(seed, a + 1);
    MixInverts(seed, a);
    CollisionIff(seed, a, b);
    forall c: uint32, d: uint32 | c != d && SessionId(seed, c) == SessionId(seed, d)
      ensures {c, d} == {a, b}
    {
      CollisionIff(seed, c, d);
      MixInjective(seed, c, b);
      MixInjective(seed, d, b);
    }
  }

  /** Every number is the mix of some counter. */
  lemma MixedFrom(seed: uint32, n: uint32) returns (counter: uint32)
    ensures Mix(seed, counter) == n
  {
    WordBound();
    XorBound(seed, n, 32);
    XorCancels(seed, n);
    var spread: uint32 := Xor(seed, n);
    counter := Unspread(spread);
    SpreadInverts(spread);
  }
}
