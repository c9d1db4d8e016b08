/** The 32-bit words and functions of section 4.1.2 of FIPS 180-4. Rotation here is the built-in operator. */
module Sha256Words {
  import opened AxtpTypes

  function Join(b0: bv8, b1: bv8, b2: bv8, b3: bv8): bv32 {
    (b0 as bv32 << 24) | (b1 as bv32 << 16) | (b2 as bv32 << 8) | b3 as bv32
  }

  function WordOf(b0: uint8, b1: uint8, b2: uint8, b3: uint8): bv32 {
    Join(b0 as bv8, b1 as bv8, b2 as bv8, b3 as bv8)
  }

  function ByteAt(word: bv32, shift: bv32): bv8
    requires shift <= 24
  {
    ((word >> shift) & 0xFF) as bv8
  }

  /** The low byte of `word` after a right shift. */
  function ByteOf(word: bv32, shift: bv32): uint8
    requires shift <= 24
  {
    ByteAt(word, shift) as int
  }

  function WordBytes(word: bv32): (bytes: Bytes)
    ensures |bytes| == 4
  {
    [ByteOf(word, 24), ByteOf(word, 16), ByteOf(word, 8), ByteOf(word, 0)]
  }

  lemma JoinSplits(word: bv32)
    ensures Join(ByteAt(word, 24), ByteAt(word, 16), ByteAt(word, 8), ByteAt(word, 0)) == word
  {
  }

  lemma BitsSurvive(v: bv8)
    ensures (v as int) as bv8 == v
  {
  }

  /** The four big-endian bytes of a word give the word back. */
  lemma WordBytesInvert(word: bv32)
    ensures MessageWord(WordBytes(word), 0) == word
  {
    hide Join, ByteAt;
    JoinSplits(word);
    BitsSurvive(ByteAt(word, 24));
    BitsSurvive(ByteAt(word, 16));
    BitsSurvive(ByteAt(word, 8));
    BitsSurvive(ByteAt(word, 0));
  }

  function MessageWord(bytes: Bytes, at: nat): bv32
    requires at + 4 <= |bytes|
  {
    WordOf(bytes[at], bytes[at + 1], bytes[at + 2], bytes[at + 3])
  }

  /** A word gives back the bytes it was joined from. */
  lemma JoinedBytes(b0: bv8, b1: bv8, b2: bv8, b3: bv8)
    ensures var w := Join(b0, b1, b2, b3);
            ByteAt(w, 24) == b0 && ByteAt(w, 16) == b1 && ByteAt(w, 8) == b2 && ByteAt(w, 0) == b3
  {
  }

  function RotateRight(value: bv32, count: bv32): bv32
    requires 0 < count < 32
  {
    (value >> count) | (value << (32 - count))
  }

  /** Addition modulo 2^32, as `+` on words. */
  function Add(x: bv32, y: bv32): bv32 {
    x + y
  }

  function Subtract(x: bv32, y: bv32): bv32 {
    x - y
  }

  lemma AddUnfolded(x: bv32, y: bv32, z: bv32)
    ensures Add(x, y) == x + y && Add(y, z) == y + z
    ensures Add(x + y, z) == Add(x, y + z)
  {
  }

  lemma SubtractUnfolded(x: bv32, y: bv32)
    ensures Subtract(x, y) == x - y
  {
  }

  lemma SumCancels(x: bv32, y: bv32)
    ensures Subtract(x + y, y) == x && Subtract(x + y, x) == y
  {
  }

  lemma DifferenceCancels(x: bv32, y: bv32)
    ensures Add(x - y, y) == x
  {
  }

  lemma AddSubtract(x: bv32, y: bv32)
    ensures Subtract(Add(x, y), y) == x && Subtract(Add(x, y), x) == y && Add(Subtract(x, y), y) == x
  {
    hide Add, Subtract;
    AddUnfolded(x, y, 0);
    SubtractUnfolded(x, y);
    SumCancels(x, y);
    DifferenceCancels(x, y);
  }

  lemma AddLaws(x: bv32, y: bv32, z: bv32)
    ensures Add(x, y) == Add(y, x)
    ensures Add(Add(x, y), z) == Add(x, Add(y, z))
  {
    assert Add(x, y) == Add(y, x);
    hide Add;
    AddUnfolded(x, y, z);
  }

  /** The code sums the four terms of a schedule word in the opposite order. */
  lemma AddReversed(x: bv32, y: bv32, z: bv32, t: bv32)
    ensures Add(Add(Add(x, y), z), t) == Add(Add(Add(t, z), y), x)
  {
    hide Add;
    AddLaws(Add(x, y), z, t);
    AddLaws(x, y, Add(z, t));
    AddLaws(Add(t, z), y, x);
    AddLaws(z, t, 0);
    AddLaws(y, x, 0);
    AddLaws(Add(x, y), Add(z, t), 0);
  }

  function Choose(x: bv32, y: bv32, z: bv32): bv32 {
    (x & y) ^ (!x & z)
  }

  function Majority(x: bv32, y: bv32, z: bv32): bv32 {
    (x & y) ^ (x & z) ^ (y & z)
  }

  function Xor3(x: bv32, y: bv32, z: bv32): bv32 {
    x ^ y ^ z
  }

  function BigSigma0(x: bv32): bv32 {
    Xor3(x.RotateRight(2), x.RotateRight(13), x.RotateRight(22))
  }

  function BigSigma1(x: bv32): bv32 {
    Xor3(x.RotateRight(6), x.RotateRight(11), x.RotateRight(25))
  }

  function SmallSigma0(x: bv32): bv32 {
    Xor3(x.RotateRight(7), x.RotateRight(18), x >> 3)
  }

  function SmallSigma1(x: bv32): bv32 {
    Xor3(x.RotateRight(17), x.RotateRight(19), x >> 10)
  }

  /** Where a single bit goes: by 2, 13 and 22 places, by 6, 11 and 25, by 7, 18 and 3, and by 17, 19 and 10. */
  lemma SigmasOfOneBit()
    ensures BigSigma0(1) == 0x4008_0400 && BigSigma1(1) == 0x0420_0080
    ensures SmallSigma0(0x8000_0000) == 0x1100_2000 && SmallSigma1(0x8000_0000) == 0x0020_5000
  {
  }

  /** Where the first word has ones the second is chosen, and where it has zeros the third. */
  lemma ChooseSelects(x: bv32, y: bv32, z: bv32)
    ensures Choose(x, y, z) & x == y & x
    ensures Choose(x, y, z) & !x == z & !x
  {
  }

  /** Where two words agree they win, and where they differ the third decides. */
  lemma MajorityDecides(x: bv32, y: bv32, z: bv32)
    ensures Majority(x, y, z) & !(x ^ y) == x & !(x ^ y)
    ensures Majority(x, y, z) & (x ^ y) == z & (x ^ y)
  {
  }

  /** Two shifts and a disjunction rotate a word. */
  lemma RotationByShifts(x: bv32)
    ensures RotateRight(x, 2) == x.RotateRight(2) && RotateRight(x, 6) == x.RotateRight(6)
    ensures RotateRight(x, 7) == x.RotateRight(7) && RotateRight(x, 11) == x.RotateRight(11)
    ensures RotateRight(x, 13) == x.RotateRight(13) && RotateRight(x, 17) == x.RotateRight(17)
    ensures RotateRight(x, 18) == x.RotateRight(18) && RotateRight(x, 19) == x.RotateRight(19)
    ensures RotateRight(x, 22) == x.RotateRight(22) && RotateRight(x, 25) == x.RotateRight(25)
  {
  }

  /** The four mixing functions as the code writes them, with two shifts for a rotation. */
  lemma SigmasByShifts(x: bv32)
    ensures Xor3(RotateRight(x, 2), RotateRight(x, 13), RotateRight(x, 22)) == BigSigma0(x)
    ensures Xor3(RotateRight(x, 6), RotateRight(x, 11), RotateRight(x, 25)) == BigSigma1(x)
    ensures Xor3(RotateRight(x, 7), RotateRight(x, 18), x >> 3) == SmallSigma0(x)
    ensures Xor3(RotateRight(x, 17), RotateRight(x, 19), x >> 10) == SmallSigma1(x)
  {
    hide RotateRight, Xor3;
    RotationByShifts(x);
  }
}
