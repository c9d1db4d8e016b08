/** Endpoint ids: 128 bits of a SHA-256 digest over a tagged key, in lower-case hexadecimal. */
module EndpointIdentity {
  import opened AxtpTypes
  import opened Numbers
  import Sha256

  const TAG: Bytes :=
    [0x41, 0x58, 0x54, 0x50, 0x2D, 0x45, 0x4E, 0x44, 0x50, 0x4F, 0x49, 0x4E, 0x54, 0x2D, 0x76, 0x31, 0x7C]

  /** The tag is the ASCII of its text, the separator included. */
  lemma TagIsText()
    ensures var text := "AXTP-ENDPOINT-v1|";
            |TAG| == |text| && forall k | 0 <= k < |text| :: TAG[k] == text[k] as int
  {
  }

  const HEX: string := "0123456789abcdef"

  function HexPair(b: uint8): (s: string)
    ensures |s| == 2
  {
    [HEX[b / 16], HEX[b % 16]]
  }

  function HexText(bytes: Bytes): (s: string)
    ensures |s| == 2 * |bytes|
  {
    if bytes == [] then [] else HexText(bytes[..|bytes| - 1]) + HexPair(bytes[|bytes| - 1])
  }

  function EndpointId(key: Bytes): string
    requires key != []
  {
    "ep_" + HexText(Sha256.Digest(TAG + key)[..16])
  }

  /** An empty key is refused; the id of any other key is written out two digits per digest byte. */
  method EndpointIdFromKey(endpointKey: Bytes) returns (id: Option<string>)
    ensures id == if endpointKey == [] then None else Some(EndpointId(endpointKey))
  {
    hide HexPair, Sha256.Digest;
    if |endpointKey| == 0 {
      return None;
    }
    var canonical := TAG + endpointKey;
    var digest := Sha256.Sha256(canonical);
    var text := "ep_";
    for index := 0 to 16
      invariant text == "ep_" + HexText(digest[..index])
    {
      text := text + HexPair(digest[index]);
      assert digest[..index + 1][..index] == digest[..index];
    }
    return Some(text);
  }

  predicate IsHexDigit(c: char) {
    '0' <= c <= '9' || 'a' <= c <= 'f'
  }

  lemma HexPairInverts(b: uint8)
    ensures IsHexDigit(HexPair(b)[0]) && IsHexDigit(HexPair(b)[1])
    ensures Digit(HexPair(b)[0]) * 16 + Digit(HexPair(b)[1]) == b
  {
    DigitInverts(b / 16);
    DigitInverts(b % 16);
  }

  lemma DigitInverts(d: nat)
    requires d < 16
    ensures IsHexDigit(HEX[d]) && Digit(HEX[d]) == d
  {
  }

  /** Every byte can be read back from its two digits. */
  lemma {:induction false} HexTextInverts(bytes: Bytes, k: nat)
    requires k < |bytes|
    ensures var s := HexText(bytes);
            && IsHexDigit(s[2 * k]) && IsHexDigit(s[2 * k + 1])
            && Digit(s[2 * k]) * 16 + Digit(s[2 * k + 1]) == bytes[k]
  {
    hide HexPair, Digit, IsHexDigit;
    if k == |bytes| - 1 {
      HexPairInverts(bytes[k]);
    } else {
      HexTextInverts(bytes[..|bytes| - 1], k);
    }
  }

  lemma {:induction false} HexTextInjective(a: Bytes, b: Bytes)
    requires |a| == |b|
    ensures HexText(a) == HexText(b) <==> a == b
  {
    hide HexText, Digit, IsHexDigit;
    forall k | 0 <= k < |a| && HexText(a) == HexText(b)
      ensures a[k] == b[k]
    {
      HexTextInverts(a, k);
      HexTextInverts(b, k);
    }
  }

  /**
   An id is `ep_` and 32 lower-case hexadecimal digits, and two keys share an id exactly when the digests of their
   tagged forms share their first 16 bytes.
   */
  lemma EndpointIdsCollide(a: Bytes, b: Bytes)
    requires a != [] && b != []
    ensures |EndpointId(a)| == 35 && EndpointId(a)[..3] == "ep_"
    ensures forall k | 3 <= k < 35 :: IsHexDigit(EndpointId(a)[k])
    ensures EndpointId(a) == EndpointId(b) <==> Sha256.Digest(TAG + a)[..16] == Sha256.Digest(TAG + b)[..16]
  {
    hide HexText, Digit, IsHexDigit, Sha256.Digest;
    var d, e := Sha256.Digest(TAG + a)[..16], Sha256.Digest(TAG + b)[..16];
    HexTextInjective(d, e);
    assert EndpointId(a)[3..] == HexText(d) && EndpointId(b)[3..] == HexText(e);
    forall k | 3 <= k < 35
      ensures IsHexDigit(EndpointId(a)[k])
    {
      HexTextInverts(d, (k - 3) / 2);
      assert EndpointId(a)[k] == HexText(d)[k - 3];
    }
  }

  /** Two digits after the prefix say each of the first sixteen bytes of the digest of the tag followed by the key. */
  lemma EndpointIdReads(key: Bytes, k: nat)
    requires key != [] && k < 16
    ensures var id := EndpointId(key);
            Digit(id[3 + 2 * k]) * 16 + Digit(id[4 + 2 * k]) == Sha256.Digest(TAG + key)[k]
  {
    hide HexText, Digit, Sha256.Digest, IsHexDigit;
    var d := Sha256.Digest(TAG + key)[..16];
    HexTextInverts(d, k);
    assert EndpointId(key)[3 + 2 * k] == HexText(d)[2 * k] && EndpointId(key)[4 + 2 * k] == HexText(d)[2 * k + 1];
  }
}
