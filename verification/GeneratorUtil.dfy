/** How the generator writes ids in hexadecimal and reads them back. */
module GeneratorUtil {
  import opened AxtpTypes
  import opened Numbers

  /** An id as it comes out of a registry file. */
  datatype RawId = Integer(n: int) | Written(text: string) | Other

  const UPPER_HEX: string := "0123456789ABCDEF"

  function UpperHex(n: nat): (s: string)
    ensures s != []
  {
    if n < 16 then [UPPER_HEX[n]] else UpperHex(n / 16) + [UPPER_HEX[n % 16]]
  }

  /** `value.toString(16).toUpperCase()`; a negative number keeps its sign in front. */
  function SignedHex(value: int): (s: string)
    ensures s != []
  {
    if value < 0 then ['-'] + UpperHex(-value) else UpperHex(value)
  }

  function PadStart(s: string, width: nat): string {
    if |s| < width then Repeat('0', width - |s|) + s else s
  }

  function Hex(value: int, width: nat): string {
    "0x" + PadStart(SignedHex(value), width)
  }

  predicate IsSpace(c: char) {
    c == ' ' || '\t' <= c <= '\r'
  }

  function TrimStart(s: string): string {
    if s != [] && IsSpace(s[0]) then TrimStart(s[1..]) else s
  }

  function TrimEnd(s: string): string {
    if s != [] && IsSpace(s[|s| - 1]) then TrimEnd(s[..|s| - 1]) else s
  }

  /** The longest prefix of digits. */
  function DigitPrefix(s: string, radix: nat): string {
    if s != [] && Digit(s[0]) < radix then [s[0]] + DigitPrefix(s[1..], radix) else []
  }

  function SkipHexMark(s: string, radix: nat): string {
    if radix == 16 && |s| >= 2 && s[0] == '0' && (s[1] == 'x' || s[1] == 'X') then s[2..] else s
  }

  function ParseUnsigned(s: string, radix: nat): Option<int> {
    var digits := DigitPrefix(SkipHexMark(s, radix), radix);
    if digits == [] then None else Some(DigitsValue(digits, radix))
  }

  /** `Number.parseInt`: leading space, one sign, a hexadecimal mark in base 16, and as many digits as there are. */
  function ParseInt(text: string, radix: nat): Option<int> {
    var s := TrimStart(text);
    if s == [] then None
    else if s[0] == '+' then ParseUnsigned(s[1..], radix)
    else if s[0] == '-' then
      match ParseUnsigned(s[1..], radix)
      case Some(n) => Some(-n)
      case None => None
    else ParseUnsigned(s, radix)
  }

  function NormalizeId(value: RawId): Option<int> {
    match value
    case Integer(n) => Some(n)
    case Written(text) =>
      var trimmed := TrimStart(TrimEnd(text));
      if |trimmed| >= 2 && trimmed[0] == '0' && (trimmed[1] == 'x' || trimmed[1] == 'X') then ParseInt(trimmed[2..], 16)
      else ParseInt(trimmed, 10)
    case Other => None
  }

  predicate AllDigits(radix: nat, s: string) {
    forall k | 0 <= k < |s| :: Digit(s[k]) < radix
  }

  lemma HexDigitReads(d: nat)
    requires d < 16
    ensures Digit(UPPER_HEX[d]) == d
  {
  }

  lemma {:induction false} UpperHexReads(n: nat)
    ensures AllDigits(16, UpperHex(n)) && DigitsValue(UpperHex(n), 16) == n
  {
    hide Digit;
    HexDigitReads(n % 16);
    if n < 16 {
      assert UpperHex(n)[..0] == [];
    } else {
      UpperHexReads(n / 16);
      assert UpperHex(n)[..|UpperHex(n)| - 1] == UpperHex(n / 16);
    }
  }

  lemma {:induction false} LeadingZeros(k: nat, s: string)
    ensures DigitsValue(Repeat('0', k) + s, 16) == DigitsValue(s, 16)
  {
    if s == [] {
      assert Repeat('0', k) + s == Repeat('0', k);
      if k > 0 {
        assert Repeat('0', k)[..k - 1] == Repeat('0', k - 1) + [];
        LeadingZeros(k - 1, []);
      }
    } else {
      assert (Repeat('0', k) + s)[..k + |s| - 1] == Repeat('0', k) + s[..|s| - 1];
      LeadingZeros(k, s[..|s| - 1]);
    }
  }

  lemma {:induction false} PrefixStops(radix: nat, s: string, rest: string)
    requires AllDigits(radix, s) && (rest == [] || Digit(rest[0]) >= radix)
    ensures DigitPrefix(s + rest, radix) == s
  {
    if s == [] {
      assert s + rest == rest;
    } else {
      assert (s + rest)[1..] == s[1..] + rest;
      PrefixStops(radix, s[1..], rest);
    }
  }

  lemma HexCharIsPlain(c: char)
    requires Digit(c) < 16
    ensures !IsSpace(c) && c != '+' && c != '-' && c != 'x' && c != 'X'
  {
  }

  /** Digits are read up to where they end. */
  lemma ParseDigits(digits: string, rest: string)
    requires AllDigits(16, digits) && digits != [] && (rest == [] || rest[0] == '-')
    ensures ParseUnsigned(digits + rest, 16) == Some(DigitsValue(digits, 16))
    ensures ParseInt(digits + rest, 16) == Some(DigitsValue(digits, 16))
  {
    assert rest != [] ==> Digit(rest[0]) >= 16;
    PrefixStops(16, digits, rest);
    HexCharIsPlain(digits[0]);
    if |digits| > 1 {
      HexCharIsPlain(digits[1]);
    }
    hide Digit, DigitPrefix, IsSpace, AllDigits;
    var s := digits + rest;
    assert s[0] == digits[0] && SkipHexMark(s, 16) == s;
  }

  lemma ParseNegative(digits: string)
    requires AllDigits(16, digits) && digits != []
    ensures ParseInt(['-'] + digits, 16) == Some(-DigitsValue(digits, 16))
  {
    ParseDigits(digits, []);
    assert digits + [] == digits && !IsSpace('-');
    var s := ['-'] + digits;
    assert s[0] == '-' && s[1..] == digits && TrimStart(s) == s;
    hide AllDigits, ParseUnsigned, IsSpace, DigitsValue, TrimStart, Digit;
  }

  lemma NotTrimmed(s: string)
    requires s != [] && !IsSpace(s[0]) && !IsSpace(s[|s| - 1])
    ensures TrimStart(TrimEnd(s)) == s
  {
  }

  lemma SignedEnds(value: int)
    ensures var s := SignedHex(value); !IsSpace(s[|s| - 1])
  {
    var n := if value < 0 then -value else value;
    UpperHexReads(n);
    HexCharIsPlain(UpperHex(n)[|UpperHex(n)| - 1]);
  }

  lemma PaddedEnds(s: string, width: nat)
    requires s != []
    ensures var p := PadStart(s, width); p != [] && p[|p| - 1] == s[|s| - 1]
  {
    hide Repeat;
  }

  lemma HexIsTrimmed(value: int, width: nat)
    ensures var s := Hex(value, width); TrimStart(TrimEnd(s)) == s && |s| >= 2 && s[..2] == "0x"
  {
    SignedEnds(value);
    PaddedEnds(SignedHex(value), width);
    assert !IsSpace('0');
    hide SignedHex, PadStart, IsSpace, TrimStart, TrimEnd;
    var padded := PadStart(SignedHex(value), width);
    var s := Hex(value, width);
    assert s == "0x" + padded && s[|s| - 1] == padded[|padded| - 1] && s[0] == '0';
    NotTrimmed(s);
  }

  /** What follows the mark decides what is read. */
  lemma ReadsBody(value: int, width: nat)
    ensures NormalizeId(Written(Hex(value, width))) == ParseInt(PadStart(SignedHex(value), width), 16)
  {
    hide ParseInt, SignedHex, PadStart, TrimStart, TrimEnd;
    HexIsTrimmed(value, width);
    assert Hex(value, width)[2..] == PadStart(SignedHex(value), width);
  }

  lemma PaddedDigits(k: nat, n: nat)
    ensures AllDigits(16, Repeat('0', k)) && AllDigits(16, Repeat('0', k) + UpperHex(n))
    ensures DigitsValue(Repeat('0', k), 16) == 0
    ensures DigitsValue(Repeat('0', k) + UpperHex(n), 16) == n
  {
    UpperHexReads(n);
    hide UpperHex;
    LeadingZeros(k, UpperHex(n));
    LeadingZeros(k, []);
    assert Repeat('0', k) + [] == Repeat('0', k);
  }

  /** Writing and reading an id gives it back exactly when it is not negative or its text needs no padding. */
  lemma HexRoundTrip(value: int, width: nat)
    ensures NormalizeId(Written(Hex(value, width))) == Some(value) <==> value >= 0 || |SignedHex(value)| >= width
  {
    ReadsBody(value, width);
    var n := if value < 0 then -value else value;
    var missing := if |SignedHex(value)| < width then width - |SignedHex(value)| else 0;
    hide UpperHex, DigitsValue, AllDigits, ParseInt, NormalizeId, Hex;
    PaddedDigits(missing, n);
    PaddedDigits(0, n);
    assert Repeat('0', 0) + UpperHex(n) == UpperHex(n);
    if value >= 0 {
      ParseDigits(Repeat('0', missing) + UpperHex(n), []);
      assert Repeat('0', missing) + UpperHex(n) + [] == PadStart(SignedHex(value), width);
    } else if missing == 0 {
      ParseNegative(UpperHex(n));
    } else {
      ParseDigits(Repeat('0', missing), SignedHex(value));
    }
  }

  // Ids written in other ways.

  function Decimal(n: nat): (s: string)
    ensures s != []
  {
    if n < 10 then ["0123456789"[n]] else Decimal(n / 10) + ["0123456789"[n % 10]]
  }

  lemma DecimalDigitReads(d: nat)
    requires d < 10
    ensures Digit("0123456789"[d]) == d
  {
  }

  lemma {:induction false} DecimalReads(n: nat)
    ensures AllDigits(10, Decimal(n)) && DigitsValue(Decimal(n), 10) == n
  {
    hide Digit;
    DecimalDigitReads(n % 10);
    if n < 10 {
      assert Decimal(n)[..0] == [];
    } else {
      DecimalReads(n / 10);
      assert Decimal(n)[..|Decimal(n)| - 1] == Decimal(n / 10);
    }
  }

  /** Neither space, sign nor mark can be taken for a digit. */
  lemma DigitIsPlain(c: char)
    requires Digit(c) < 10
    ensures !IsSpace(c) && c != '+' && c != '-' && c != 'x' && c != 'X'
  {
  }

  /** Text without space at its ends and without a hexadecimal mark is read in base ten. */
  lemma DecimalText(s: string)
    requires s != [] && AllDigits(10, s)
    ensures ParseUnsigned(s, 10) == Some(DigitsValue(s, 10))
    ensures NormalizeId(Written(s)) == ParseInt(s, 10)
    ensures ParseInt(s, 10) == Some(DigitsValue(s, 10))
  {
    DigitIsPlain(s[0]);
    DigitIsPlain(s[|s| - 1]);
    if |s| > 1 {
      DigitIsPlain(s[1]);
    }
    PrefixStops(10, s, []);
    assert s + [] == s;
    hide Digit, DigitPrefix, DigitsValue, IsSpace, AllDigits;
    NotTrimmed(s);
  }

  lemma SignedText(sign: char, s: string)
    requires s != [] && AllDigits(10, s) && (sign == '+' || sign == '-')
    ensures NormalizeId(Written([sign] + s)) == ParseInt([sign] + s, 10)
    ensures ([sign] + s)[0] == sign && ([sign] + s)[1..] == s && TrimStart([sign] + s) == [sign] + s
  {
    DigitIsPlain(s[|s| - 1]);
    assert !IsSpace('+') && !IsSpace('-');
    hide Digit, IsSpace, AllDigits, ParseInt;
    NotTrimmed([sign] + s);
  }

  /** A decimal number, with or without a sign, is read as it says. */
  lemma DecimalRoundTrip(n: nat)
    ensures var value: int := n;
            && NormalizeId(Written(Decimal(n))) == Some(value)
            && NormalizeId(Written(['+'] + Decimal(n))) == Some(value)
            && NormalizeId(Written(['-'] + Decimal(n))) == Some(-value)
  {
    DecimalReads(n);
    hide Decimal, DigitsValue, AllDigits, ParseUnsigned, NormalizeId, TrimStart;
    var s := Decimal(n);
    DecimalText(s);
    SignedText('+', s);
    SignedText('-', s);
  }

  lemma {:induction false} TrimEndKeepsFront(s: string)
    ensures TrimEnd([' '] + s) == if TrimEnd(s) == [] then [] else [' '] + TrimEnd(s)
  {
    var t := [' '] + s;
    if s == [] {
      assert t[..0] == [] && TrimEnd(t) == TrimEnd(t[..0]);
    } else {
      var n := |s| - 1;
      assert t[..|t| - 1] == [' '] + s[..n] && t[|t| - 1] == s[n];
      TrimEndKeepsFront(s[..n]);
    }
  }

  /** Space around an id does not matter. */
  lemma SpaceAround(text: string)
    ensures NormalizeId(Written([' '] + text)) == NormalizeId(Written(text))
    ensures NormalizeId(Written(text + [' '])) == NormalizeId(Written(text))
  {
    TrimEndKeepsFront(text);
    assert (text + [' '])[..|text|] == text && TrimEnd(text + [' ']) == TrimEnd(text);
    assert ([' '] + TrimEnd(text))[1..] == TrimEnd(text);
    assert TrimStart([' '] + TrimEnd(text)) == TrimStart(TrimEnd(text));
    hide TrimEnd, ParseInt, IsSpace;
  }

  predicate IsMark(mark: string) {
    mark == "0x" || mark == "0X"
  }

  lemma AfterMark(mark: string, t: string)
    requires IsMark(mark) && t != [] && !IsSpace(t[|t| - 1])
    ensures NormalizeId(Written(mark + t)) == ParseInt(t, 16)
  {
    assert !IsSpace('0');
    hide IsSpace, ParseInt;
    var s := mark + t;
    assert s[|s| - 1] == t[|t| - 1] && s[2..] == t;
    NotTrimmed(s);
  }

  /** Hexadecimal digits after either mark are read as they say, in both cases. */
  lemma HexSpellings(mark: string, s: string)
    requires IsMark(mark) && s != [] && AllDigits(16, s)
    ensures NormalizeId(Written(mark + s)) == Some(DigitsValue(s, 16))
    ensures Digit('a') == Digit('A') == 10 && Digit('f') == Digit('F') == 15
  {
    HexCharIsPlain(s[|s| - 1]);
    ParseDigits(s, []);
    assert s + [] == s;
    hide AllDigits, ParseInt, DigitsValue, IsSpace, NormalizeId, IsMark;
    AfterMark(mark, s);
  }

  /** After a mark is cut off, parsing in base sixteen skips one more. */
  lemma MarkTwice(first: string, second: string, s: string)
    requires IsMark(first) && IsMark(second) && s != [] && AllDigits(16, s)
    ensures NormalizeId(Written(first + (second + s))) == Some(DigitsValue(s, 16))
  {
    HexCharIsPlain(s[|s| - 1]);
    PrefixStops(16, s, []);
    assert s + [] == s && (second + s)[|second + s| - 1] == s[|s| - 1];
    MarkIsSkipped(second, s);
    hide AllDigits, ParseInt, DigitsValue, IsSpace, DigitPrefix, NormalizeId;
    AfterMark(first, second + s);
  }

  lemma MarkIsSkipped(mark: string, s: string)
    requires IsMark(mark) && DigitPrefix(s, 16) == s != []
    ensures ParseInt(mark + s, 16) == Some(DigitsValue(s, 16))
  {
    assert (mark + s)[2..] == s && !IsSpace('0');
    hide DigitPrefix, DigitsValue, IsSpace;
  }

  /** A mark alone is no number, once or twice. */
  lemma MarksAlone()
    ensures NormalizeId(Written("0x0x")) == None && NormalizeId(Written("0x")) == None
  {
    NotTrimmed("0x0x");
    NotTrimmed("0x");
    assert "0x0x"[2..] == "0x" && "0x"[2..] == "";
    hide DigitPrefix, TrimEnd;
    assert DigitPrefix("", 16) == "";
  }

  /** Space is that of ASCII: the blank, and the five controls from tab to carriage return. */
  lemma SpacesAre(c: char)
    ensures IsSpace(c) <==> c as int in {9, 10, 11, 12, 13, 32}
  {
  }

  /** A number is its own id, and what is neither a number nor text has none. */
  lemma OtherIds(n: int)
    ensures NormalizeId(Integer(n)) == Some(n) && NormalizeId(Other) == None && NormalizeId(Written("")) == None
  {
  }
}
