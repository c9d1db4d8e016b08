/** The constants of sections 4.2.2 and 5.3.3 of FIPS 180-4, each derived from its prime. */
module Sha256Constants {
  import opened Sha256Words

  const ROUND_CONSTANTS: seq<seq<bv32>> := [
    [0x428a_2f98, 0x7137_4491, 0xb5c0_fbcf, 0xe9b5_dba5, 0x3956_c25b, 0x59f1_11f1, 0x923f_82a4, 0xab1c_5ed5],
    [0xd807_aa98, 0x1283_5b01, 0x2431_85be, 0x550c_7dc3, 0x72be_5d74, 0x80de_b1fe, 0x9bdc_06a7, 0xc19b_f174],
    [0xe49b_69c1, 0xefbe_4786, 0x0fc1_9dc6, 0x240c_a1cc, 0x2de9_2c6f, 0x4a74_84aa, 0x5cb0_a9dc, 0x76f9_88da],
    [0x983e_5152, 0xa831_c66d, 0xb003_27c8, 0xbf59_7fc7, 0xc6e0_0bf3, 0xd5a7_9147, 0x06ca_6351, 0x1429_2967],
    [0x27b7_0a85, 0x2e1b_2138, 0x4d2c_6dfc, 0x5338_0d13, 0x650a_7354, 0x766a_0abb, 0x81c2_c92e, 0x9272_2c85],
    [0xa2bf_e8a1, 0xa81a_664b, 0xc24b_8b70, 0xc76c_51a3, 0xd192_e819, 0xd699_0624, 0xf40e_3585, 0x106a_a070],
    [0x19a4_c116, 0x1e37_6c08, 0x2748_774c, 0x34b0_bcb5, 0x391c_0cb3, 0x4ed8_aa4a, 0x5b9c_ca4f, 0x682e_6ff3],
    [0x748f_82ee, 0x78a5_636f, 0x84c8_7814, 0x8cc7_0208, 0x90be_fffa, 0xa450_6ceb, 0xbef9_a3f7, 0xc671_78f2]
  ]

  const PRIMES: seq<seq<nat>> := [
    [2, 3, 5, 7, 11, 13, 17, 19],
    [23, 29, 31, 37, 41, 43, 47, 53],
    [59, 61, 67, 71, 73, 79, 83, 89],
    [97, 101, 103, 107, 109, 113, 127, 131],
    [137, 139, 149, 151, 157, 163, 167, 173],
    [179, 181, 191, 193, 197, 199, 211, 223],
    [227, 229, 233, 239, 241, 251, 257, 263],
    [269, 271, 277, 281, 283, 293, 307, 311]
  ]

  function RoundConstant(t: nat): bv32
    requires t < 64
  {
    InRow(t / 8, t % 8)
  }

  function InRow(r: nat, c: nat): bv32
    requires r < 8 && c < 8
  {
    ROUND_CONSTANTS[r][c]
  }

  /** The constants are taken row by row, eight to a row. */
  lemma RowByRow(r: nat, c: nat)
    requires r < 8 && c < 8
    ensures RoundConstant(8 * r + c) == InRow(r, c)
  {
    hide InRow;
  }

  datatype Registers = Registers(a: bv32, b: bv32, c: bv32, d: bv32, e: bv32, f: bv32, g: bv32, h: bv32) {
    function Word(k: nat): bv32
      requires k < 8
    {
      if k == 0 then a else if k == 1 then b else if k == 2 then c else if k == 3 then d
      else if k == 4 then e else if k == 5 then f else if k == 6 then g else h
    }

    function Words(): (words: seq<bv32>)
      ensures |words| == 8
    {
      seq(8, k requires 0 <= k < 8 => Word(k))
    }

    function Plus(other: Registers): Registers {
      Registers(Add(a, other.a), Add(b, other.b), Add(c, other.c), Add(d, other.d),
                Add(e, other.e), Add(f, other.f), Add(g, other.g), Add(h, other.h))
    }
  }

  const INITIAL: Registers := Registers(0x6a09_e667, 0xbb67_ae85, 0x3c6e_f372, 0xa54f_f53a,
                                        0x510e_527f, 0x9b05_688c, 0x1f83_d9ab, 0x5be0_cd19)

  /** `word` holds the first 32 fractional bits of the cube root of `prime`, whose whole part is `whole`. */
  predicate IsCubeRootFraction(word: bv32, prime: nat, whole: nat) {
    var root := whole * 0x1_0000_0000 + word as int;
    root * root * root <= prime * 0x1_00000000_00000000_00000000 < (root + 1) * (root + 1) * (root + 1)
  }

  predicate IsSquareRootFraction(word: bv32, prime: nat, whole: nat) {
    var root := whole * 0x1_0000_0000 + word as int;
    root * root <= prime * 0x1_00000000_00000000 < (root + 1) * (root + 1)
  }

  function WholeCubeRoot(prime: nat): nat
    requires prime < 343
  {
    if prime < 8 then 1 else if prime < 27 then 2 else if prime < 64 then 3
    else if prime < 125 then 4 else if prime < 216 then 5 else 6
  }

  /** The constant in row `r`, column `c` is the fraction of the cube root of the prime in the same place. */
  predicate FromPrime(r: nat, c: nat)
    requires r < 8 && c < 8
  {
    var prime := PRIMES[r][c];
    prime < 343 && IsCubeRootFraction(ROUND_CONSTANTS[r][c], prime, WholeCubeRoot(prime))
  }

  lemma Row0FromPrimes()
    ensures FromPrime(0, 0) && FromPrime(0, 1) && FromPrime(0, 2) && FromPrime(0, 3)
    ensures FromPrime(0, 4) && FromPrime(0, 5) && FromPrime(0, 6) && FromPrime(0, 7)
  {
  }

  lemma Row1FromPrimes()
    ensures FromPrime(1, 0) && FromPrime(1, 1) && FromPrime(1, 2) && FromPrime(1, 3)
    ensures FromPrime(1, 4) && FromPrime(1, 5) && FromPrime(1, 6) && FromPrime(1, 7)
  {
  }

  lemma Row2FromPrimes()
    ensures FromPrime(2, 0) && FromPrime(2, 1) && FromPrime(2, 2) && FromPrime(2, 3)
    ensures FromPrime(2, 4) && FromPrime(2, 5) && FromPrime(2, 6) && FromPrime(2, 7)
  {
  }

  lemma Row3FromPrimes()
    ensures FromPrime(3, 0) && FromPrime(3, 1) && FromPrime(3, 2) && FromPrime(3, 3)
    ensures FromPrime(3, 4) && FromPrime(3, 5) && FromPrime(3, 6) && FromPrime(3, 7)
  {
  }

  lemma Row4FromPrimes()
    ensures FromPrime(4, 0) && FromPrime(4, 1) && FromPrime(4, 2) && FromPrime(4, 3)
    ensures FromPrime(4, 4) && FromPrime(4, 5) && FromPrime(4, 6) && FromPrime(4, 7)
  {
  }

  lemma Row5FromPrimes()
    ensures FromPrime(5, 0) && FromPrime(5, 1) && FromPrime(5, 2) && FromPrime(5, 3)
    ensures FromPrime(5, 4) && FromPrime(5, 5) && FromPrime(5, 6) && FromPrime(5, 7)
  {
  }

  lemma Row6FromPrimes()
    ensures FromPrime(6, 0) && FromPrime(6, 1) && FromPrime(6, 2) && FromPrime(6, 3)
    ensures FromPrime(6, 4) && FromPrime(6, 5) && FromPrime(6, 6) && FromPrime(6, 7)
  {
  }

  lemma Row7FromPrimes()
    ensures FromPrime(7, 0) && FromPrime(7, 1) && FromPrime(7, 2) && FromPrime(7, 3)
    ensures FromPrime(7, 4) && FromPrime(7, 5) && FromPrime(7, 6) && FromPrime(7, 7)
  {
  }

  /** Section 4.2.2: every round constant comes from its prime. */
  lemma RoundConstantsFromPrimes(r: nat, c: nat)
    requires r < 8 && c < 8
    ensures FromPrime(r, c)
  {
    hide FromPrime;
    Row0FromPrimes();
    Row1FromPrimes();
    Row2FromPrimes();
    Row3FromPrimes();
    Row4FromPrimes();
    Row5FromPrimes();
    Row6FromPrimes();
    Row7FromPrimes();
  }

  /** The initial hash value is made of the square roots of the first eight primes (section 5.3.3). */
  lemma InitialFromPrimes()
    ensures IsSquareRootFraction(INITIAL.a, 2, 1) && IsSquareRootFraction(INITIAL.b, 3, 1)
    ensures IsSquareRootFraction(INITIAL.c, 5, 2) && IsSquareRootFraction(INITIAL.d, 7, 2)
    ensures IsSquareRootFraction(INITIAL.e, 11, 3) && IsSquareRootFraction(INITIAL.f, 13, 3)
    ensures IsSquareRootFraction(INITIAL.g, 17, 4) && IsSquareRootFraction(INITIAL.h, 19, 4)
  {
  }
}
