/** Padding of section 5.1.1 of FIPS 180-4: a marker bit, the fewest zeros, and the bit length in 64 bits. */
module Sha256Padding {
  import opened AxtpTypes
  import opened Numbers

  /** How many zero bytes bring `length` bytes and the marker to 56 modulo 64. */
  function ZeroCount(length: nat): nat {
    (55 - length) % 64
  }

  /** Whole blocks, and no smaller number of zeros reaches a block boundary. */
  lemma ZeroCountMinimal(length: nat, zeros: nat)
    ensures (length + 1 + ZeroCount(length) + 8) % 64 == 0
    ensures (length + 1 + zeros + 8) % 64 == 0 ==> zeros >= ZeroCount(length)
  {
    var blocks := (length + 1 + zeros + 8) / 64;
    var q := (55 - length) / 64;
    assert 55 - length == 64 * q + ZeroCount(length);
  }

  const UINT64: nat := 0x1_00000000_00000000

  function Pad(message: Bytes): Bytes {
    message + [0x80] + Repeat(0, ZeroCount(|message|)) + BigEndian(|message| * 8 % UINT64, 8)
  }

  /** Reads the bit length back from the last eight bytes and drops everything after the message. */
  function Unpad(padded: Bytes): Option<Bytes> {
    if |padded| < 9 then
      None
    else
      var bits := FromBigEndian(padded[|padded| - 8..]);
      if bits % 8 != 0 || bits / 8 > |padded| - 9 then None else Some(padded[..bits / 8])
  }

  lemma PadMinimal(message: Bytes, zeros: nat)
    ensures |Pad(message)| % 64 == 0 && |Pad(message)| == |message| + 1 + ZeroCount(|message|) + 8
    ensures (|message| + 1 + zeros + 8) % 64 == 0 ==> |Pad(message)| <= |message| + 1 + zeros + 8
  {
    hide ZeroCount, BigEndian, Repeat;
    ZeroCountMinimal(|message|, zeros);
  }

  /** What stands where: the message, the marker 0x80, only zeros, and the bit length in eight big-endian bytes. */
  lemma PadContents(message: Bytes, k: nat)
    requires k < |Pad(message)|
    ensures k < |message| ==> Pad(message)[k] == message[k]
    ensures k == |message| ==> Pad(message)[k] == 0x80
    ensures |message| < k < |Pad(message)| - 8 ==> Pad(message)[k] == 0
    ensures FromBigEndian(Pad(message)[|Pad(message)| - 8..]) == |message| * 8 % UINT64
  {
    hide ZeroCount, BigEndian, FromBigEndian;
    assert Pad(message)[|Pad(message)| - 8..] == BigEndian(|message| * 8 % UINT64, 8);
    LengthFits();
    BigEndianInverts(|message| * 8 % UINT64, 8);
  }

  lemma LengthFits()
    ensures Power(0x100, 8) == UINT64
  {
    assert Power(0x100, 2) == 0x1_0000 && Power(0x100, 4) == 0x1_0000_0000 && Power(0x100, 6) == 0x1_0000_0000_0000;
  }

  /** Unpadding recovers a message exactly when its bit length fits in 64 bits. */
  lemma PadInvertible(message: Bytes)
    ensures Unpad(Pad(message)) == Some(message) <==> |message| < 0x2000_0000_0000_0000
  {
    hide BigEndian, FromBigEndian, Repeat, ZeroCount;
    var padded, bits := Pad(message), |message| * 8 % UINT64;
    assert padded[|padded| - 8..] == BigEndian(bits, 8);
    LengthFits();
    BigEndianInverts(bits, 8);
    assert bits == 8 * (|message| % 0x2000_0000_0000_0000);
    assert Unpad(padded) == Some(padded[..bits / 8]);
    if |message| < 0x2000_0000_0000_0000 {
      assert padded[..|message|] == message;
    } else {
      assert |padded[..bits / 8]| < |message|;
    }
  }

  /** Messages whose bit length fits in 64 bits never share a padded form. */
  lemma PadInjective(m: Bytes, n: Bytes)
    requires |m| < 0x2000_0000_0000_0000 && |n| < 0x2000_0000_0000_0000
    ensures Pad(m) == Pad(n) <==> m == n
  {
    PadInvertible(m);
    PadInvertible(n);
  }

  /** `n >> bits` on a non-negative number, one bit at a time. */
  function ShiftRight(n: nat, bits: nat): nat {
    if bits == 0 then n else ShiftRight(n, bits - 1) / 2
  }

  lemma ShiftByByte(n: nat, bits: nat)
    ensures ShiftRight(n, bits + 8) == ShiftRight(n, bits) / 256
  {
    assert ShiftRight(n, bits + 2) == ShiftRight(n, bits) / 4;
    assert ShiftRight(n, bits + 4) == ShiftRight(n, bits + 2) / 4;
    assert ShiftRight(n, bits + 6) == ShiftRight(n, bits + 4) / 4;
  }

  method PushZeros(start: Bytes, ghost length: nat) returns (bytes: Bytes)
    requires |start| == length + 1
    ensures bytes == start + Repeat(0, ZeroCount(length))
  {
    bytes := start;
    ghost var zeros := 0;
    ZeroCountMinimal(length, zeros);
    assert Repeat(0 as uint8, 0) == [];
    hide Repeat, ZeroCount;
    while |bytes| % 64 != 56
      invariant bytes == start + Repeat(0, zeros) && zeros <= ZeroCount(length)
      decreases ZeroCount(length) - zeros
    {
      RepeatSnoc(0 as uint8, zeros);
      bytes := bytes + [0];
      zeros := zeros + 1;
      ZeroCountMinimal(length, zeros);
    }
    ZeroCountMinimal(length, zeros);
  }

  method PadBytes(input: Bytes) returns (bytes: Bytes)
    ensures bytes == Pad(input)
  {
    var bitLength := |input| * 8 % UINT64;
    bytes := PushZeros(input + [0x80], |input|);
    ghost var marked, emitted := bytes, 0;
    var shift := 56;
    assert ShiftRight(bitLength, 0) == bitLength;
    hide ShiftRight, ZeroCount, Repeat;
    while shift >= 0
      invariant emitted <= 8 && shift == 56 - 8 * emitted
      invariant bytes == marked + BigEndian(ShiftRight(bitLength, shift + 8), emitted)
    {
      ShiftByByte(bitLength, shift);
      bytes := bytes + [ShiftRight(bitLength, shift) % 256];
      shift, emitted := shift - 8, emitted + 1;
    }
  }
}
