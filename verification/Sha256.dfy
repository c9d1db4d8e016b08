/**
 SHA-256 of section 6.2 of FIPS 180-4 as recursive functions, and the in-place block code proved against them.
 */
module Sha256 {
  import opened AxtpTypes
  import opened Sha256Constants
  import opened Sha256Padding
  import opened Sha256Words

  /** Word `t` of the message schedule of the block that starts at `offset`. */
  function Schedule(bytes: Bytes, offset: nat, t: nat): bv32
    requires offset + 64 <= |bytes|
  {
    if t < 16 then
      MessageWord(bytes, offset + 4 * t)
    else
      Add(Add(Add(SmallSigma1(Schedule(bytes, offset, t - 2)), Schedule(bytes, offset, t - 7)),
              SmallSigma0(Schedule(bytes, offset, t - 15))), Schedule(bytes, offset, t - 16))
  }

  function Round(r: Registers, constant: bv32, word: bv32): Registers {
    var t1 := Add(Add(Add(Add(r.h, BigSigma1(r.e)), Choose(r.e, r.f, r.g)), constant), word);
    var t2 := Add(BigSigma0(r.a), Majority(r.a, r.b, r.c));
    Registers(Add(t1, t2), r.a, r.b, r.c, Add(r.d, t1), r.e, r.f, r.g)
  }

  /** The registers after the first `n` rounds on a block. */
  function Rounds(start: Registers, bytes: Bytes, offset: nat, n: nat): Registers
    requires offset + 64 <= |bytes| && n <= 64
  {
    if n == 0 then start
    else Round(Rounds(start, bytes, offset, n - 1), RoundConstant(n - 1), Schedule(bytes, offset, n - 1))
  }

  function Compress(hash: Registers, bytes: Bytes, offset: nat): Registers
    requires offset + 64 <= |bytes|
  {
    hash.Plus(Rounds(hash, bytes, offset, 64))
  }

  /** The hash value after the first `blocks` blocks. */
  function HashBlocks(bytes: Bytes, blocks: nat): Registers
    requires 64 * blocks <= |bytes|
  {
    if blocks == 0 then INITIAL else Compress(HashBlocks(bytes, blocks - 1), bytes, 64 * (blocks - 1))
  }

  function WordsBytes(words: seq<bv32>): (bytes: Bytes)
    ensures |bytes| == 4 * |words|
  {
    if words == [] then [] else WordsBytes(words[..|words| - 1]) + WordBytes(words[|words| - 1])
  }

  function Digest(message: Bytes): (digest: Bytes)
    ensures |digest| == 32
  {
    PadMinimal(message, 0);
    WordsBytes(HashBlocks(Pad(message), |Pad(message)| / 64).Words())
  }

  /** The digest holds the whole final hash value: each word can be read back from its place. */
  lemma {:induction false} WordsBytesInvert(words: seq<bv32>, i: nat)
    requires i < |words|
    ensures MessageWord(WordsBytes(words), 4 * i) == words[i]
  {
    var last := |words| - 1;
    if i < last {
      WordsBytesInvert(words[..last], i);
    } else {
      WordBytesInvert(words[last]);
    }
  }

  /** The first sixteen words of a schedule are the block, big-endian and in order. */
  lemma ScheduleStartsWithBlock(bytes: Bytes, offset: nat, t: nat)
    requires offset + 64 <= |bytes| && t < 16
    ensures var word, at := Schedule(bytes, offset, t), offset + 4 * t;
            && ByteAt(word, 24) == bytes[at] as bv8 && ByteAt(word, 16) == bytes[at + 1] as bv8
            && ByteAt(word, 8) == bytes[at + 2] as bv8 && ByteAt(word, 0) == bytes[at + 3] as bv8
  {
    var at := offset + 4 * t;
    JoinedBytes(bytes[at] as bv8, bytes[at + 1] as bv8, bytes[at + 2] as bv8, bytes[at + 3] as bv8);
    hide Join, ByteAt;
  }

  lemma SameMessageWord(p: Bytes, m: nat, q: Bytes, n: nat, t: nat)
    requires m + 64 <= |p| && n + 64 <= |q| && p[m..m + 64] == q[n..n + 64] && t < 16
    ensures MessageWord(p, m + 4 * t) == MessageWord(q, n + 4 * t)
  {
    var b, c := p[m..m + 64], q[n..n + 64];
    assert b[4 * t] == c[4 * t] && b[4 * t + 1] == c[4 * t + 1];
    assert b[4 * t + 2] == c[4 * t + 2] && b[4 * t + 3] == c[4 * t + 3];
  }

  lemma {:induction false} ScheduleMoves(p: Bytes, m: nat, q: Bytes, n: nat, t: nat)
    requires m + 64 <= |p| && n + 64 <= |q| && p[m..m + 64] == q[n..n + 64]
    ensures Schedule(p, m, t) == Schedule(q, n, t)
  {
    hide SmallSigma0, SmallSigma1, MessageWord, Add;
    if t < 16 {
      SameMessageWord(p, m, q, n, t);
    } else {
      ScheduleMoves(p, m, q, n, t - 2);
      ScheduleMoves(p, m, q, n, t - 7);
      ScheduleMoves(p, m, q, n, t - 15);
      ScheduleMoves(p, m, q, n, t - 16);
    }
  }

  lemma {:induction false} RoundsMove(r: Registers, p: Bytes, m: nat, q: Bytes, n: nat, rounds: nat)
    requires m + 64 <= |p| && n + 64 <= |q| && p[m..m + 64] == q[n..n + 64] && rounds <= 64
    ensures Rounds(r, p, m, rounds) == Rounds(r, q, n, rounds)
  {
    hide Round, RoundConstant, Schedule;
    if rounds > 0 {
      RoundsMove(r, p, m, q, n, rounds - 1);
      ScheduleMoves(p, m, q, n, rounds - 1);
    }
  }

  lemma {:induction false} SamePrefix(p: Bytes, q: Bytes, blocks: nat)
    requires 64 * blocks <= |p| && 64 * blocks <= |q| && p[..64 * blocks] == q[..64 * blocks]
    ensures HashBlocks(p, blocks) == HashBlocks(q, blocks)
  {
    hide Rounds;
    if blocks > 0 {
      var at := 64 * (blocks - 1);
      assert p[..at] == p[..64 * blocks][..at] && q[..at] == q[..64 * blocks][..at];
      SamePrefix(p, q, blocks - 1);
      assert p[at..at + 64] == p[..64 * blocks][at..] && q[at..at + 64] == q[..64 * blocks][at..];
      RoundsMove(HashBlocks(p, blocks - 1), p, at, q, at, 64);
    }
  }

  /** Blocks are taken in order, each exactly once: one more block compresses the hash of those before it. */
  lemma OneMoreBlock(before: Bytes, block: Bytes, blocks: nat)
    requires |before| == 64 * blocks && |block| == 64
    ensures HashBlocks(before + block, blocks + 1) == Compress(HashBlocks(before, blocks), block, 0)
    ensures HashBlocks([], 0) == INITIAL
  {
    hide Rounds;
    var all := before + block;
    assert all[..64 * blocks] == before[..64 * blocks];
    SamePrefix(all, before, blocks);
    assert all[64 * blocks..64 * blocks + 64] == block[0..64];
    RoundsMove(HashBlocks(before, blocks), all, 64 * blocks, block, 0, 64);
  }

  /** The compression adds its input to all 64 rounds of it, word by word modulo 2^32. */
  lemma CompressFeedsForward(hash: Registers, block: Bytes, k: nat)
    requires |block| == 64 && k < 8
    ensures Subtract(Compress(hash, block, 0).Word(k), hash.Word(k)) == Rounds(hash, block, 0, 64).Word(k)
  {
    hide Add, Subtract, Rounds;
    AddSubtract(hash.Word(k), Rounds(hash, block, 0, 64).Word(k));
  }

  /** The digest is the hash of the whole padded message. */
  lemma DigestReads(message: Bytes, k: nat)
    requires k < 8
    ensures 64 * (|Pad(message)| / 64) == |Pad(message)|
    ensures MessageWord(Digest(message), 4 * k) == HashBlocks(Pad(message), |Pad(message)| / 64).Word(k)
  {
    PadMinimal(message, 0);
    hide Pad, HashBlocks, WordsBytes, MessageWord;
    WordsBytesInvert(HashBlocks(Pad(message), |Pad(message)| / 64).Words(), k);
  }

  // ---------- the block cipher inside the compression function is invertible ----------

  function Unround(r: Registers, constant: bv32, word: bv32): Registers {
    var t1 := Subtract(r.a, Add(BigSigma0(r.b), Majority(r.b, r.c, r.d)));
    var rest := Subtract(Subtract(t1, word), constant);
    Registers(r.b, r.c, r.d, Subtract(r.e, t1), r.f, r.g, r.h,
              Subtract(Subtract(rest, Choose(r.f, r.g, r.h)), BigSigma1(r.f)))
  }

  lemma RoundInverts(r: Registers, constant: bv32, word: bv32)
    ensures Unround(Round(r, constant, word), constant, word) == r
    ensures Round(Unround(r, constant, word), constant, word) == r
  {
    hide BigSigma0, BigSigma1, Choose, Majority, Add, Subtract;
    forall x, y
      ensures Subtract(Add(x, y), y) == x && Add(Subtract(x, y), y) == x
    {
      AddSubtract(x, y);
    }
  }

  /** Under one block, the rounds map different starts to different ends. */
  lemma {:induction false} RoundsInjective(r: Registers, s: Registers, bytes: Bytes, offset: nat, n: nat)
    requires offset + 64 <= |bytes| && n <= 64
    ensures Rounds(r, bytes, offset, n) == Rounds(s, bytes, offset, n) <==> r == s
  {
    hide Round, Unround, RoundConstant, Schedule;
    if n > 0 {
      RoundsInjective(r, s, bytes, offset, n - 1);
      var constant, word := RoundConstant(n - 1), Schedule(bytes, offset, n - 1);
      RoundInverts(Rounds(r, bytes, offset, n - 1), constant, word);
      RoundInverts(Rounds(s, bytes, offset, n - 1), constant, word);
    }
  }

  predicate SameWord(p: Bytes, q: Bytes, t: nat)
    requires 64 <= |p| && 64 <= |q|
  {
    Schedule(p, 0, t) == Schedule(q, 0, t)
  }

  /** The recurrence runs backwards too. */
  lemma ScheduleBackwards(bytes: Bytes, t: nat)
    requires 64 <= |bytes| && t >= 16
    ensures var later := Add(Add(SmallSigma1(Schedule(bytes, 0, t - 2)), Schedule(bytes, 0, t - 7)),
                             SmallSigma0(Schedule(bytes, 0, t - 15)));
            Schedule(bytes, 0, t - 16) == Subtract(Schedule(bytes, 0, t), later)
  {
    hide SmallSigma0, SmallSigma1, MessageWord, Add, Subtract;
    AddSubtract(Add(Add(SmallSigma1(Schedule(bytes, 0, t - 2)), Schedule(bytes, 0, t - 7)),
                    SmallSigma0(Schedule(bytes, 0, t - 15))), Schedule(bytes, 0, t - 16));
  }

  lemma {:induction false} WindowDeterminesLater(p: Bytes, q: Bytes, start: nat, t: nat)
    requires 64 <= |p| && 64 <= |q| && start <= t
    requires forall k | start <= k < start + 16 :: SameWord(p, q, k)
    ensures SameWord(p, q, t)
  {
    hide SmallSigma0, SmallSigma1, MessageWord, Add;
    if t >= start + 16 {
      WindowDeterminesLater(p, q, start, t - 2);
      WindowDeterminesLater(p, q, start, t - 7);
      WindowDeterminesLater(p, q, start, t - 15);
      WindowDeterminesLater(p, q, start, t - 16);
    }
  }

  lemma {:induction false} WindowDeterminesEarlier(p: Bytes, q: Bytes, start: nat, t: nat)
    requires 64 <= |p| && 64 <= |q| && t < start
    requires forall k | start <= k < start + 16 :: SameWord(p, q, k)
    ensures SameWord(p, q, t)
    decreases start, start - t
  {
    hide SmallSigma0, SmallSigma1, MessageWord, Schedule, Add, Subtract;
    if t + 1 < start {
      forall k | start - 1 <= k < start + 15
        ensures SameWord(p, q, k)
      {
        if k == start - 1 {
          WindowDeterminesEarlier(p, q, start, k);
        }
      }
      WindowDeterminesEarlier(p, q, start - 1, t);
    } else {
      assert SameWord(p, q, t + 16) && SameWord(p, q, t + 14) && SameWord(p, q, t + 9) && SameWord(p, q, t + 1);
      ScheduleBackwards(p, t + 16);
      ScheduleBackwards(q, t + 16);
    }
  }

  /** Any sixteen consecutive words of a schedule determine all the others. */
  lemma WindowDeterminesSchedule(p: Bytes, q: Bytes, start: nat, t: nat)
    requires 64 <= |p| && 64 <= |q|
    requires forall k | start <= k < start + 16 :: SameWord(p, q, k)
    ensures SameWord(p, q, t)
  {
    if t < start {
      WindowDeterminesEarlier(p, q, start, t);
    } else {
      WindowDeterminesLater(p, q, start, t);
    }
  }

  // ---------- the code ----------

  /** The message schedule of one block, filled in from the front. */
  method FillSchedule(bytes: Bytes, offset: nat) returns (words: array<bv32>)
    requires offset + 64 <= |bytes|
    ensures fresh(words) && words.Length == 64
    ensures forall t | 0 <= t < 64 :: words[t] == Schedule(bytes, offset, t)
  {
    hide MessageWord, Add, Xor3, SmallSigma0, SmallSigma1, RotateRight;
    words := new bv32[64];
    for index := 0 to 16
      invariant forall t | 0 <= t < index :: words[t] == Schedule(bytes, offset, t)
    {
      words[index] := MessageWord(bytes, offset + index * 4);
    }
    for index := 16 to 64
      invariant forall t | 0 <= t < index :: words[t] == Schedule(bytes, offset, t)
    {
      var w15, w2 := words[index - 15], words[index - 2];
      var s0 := Xor3(RotateRight(w15, 7), RotateRight(w15, 18), w15 >> 3);
      var s1 := Xor3(RotateRight(w2, 17), RotateRight(w2, 19), w2 >> 10);
      SigmasByShifts(w15);
      SigmasByShifts(w2);
      AddReversed(words[index - 16], s0, words[index - 7], s1);
      words[index] := Add(Add(Add(words[index - 16], s0), words[index - 7]), s1);
    }
  }

  function FromWords(words: seq<bv32>): (r: Registers)
    requires |words| == 8
    ensures r.Words() == words
  {
    Registers(words[0], words[1], words[2], words[3], words[4], words[5], words[6], words[7])
  }

  /** The rounds rotate eight variables that start as the state. */
  method RunRounds(words: array<bv32>, state: array<bv32>, ghost bytes: Bytes, ghost offset: nat)
      returns (a: bv32, b: bv32, c: bv32, d: bv32, e: bv32, f: bv32, g: bv32, h: bv32)
    requires offset + 64 <= |bytes| && words.Length == 64 && state.Length == 8
    requires forall t | 0 <= t < 64 :: words[t] == Schedule(bytes, offset, t)
    ensures Registers(a, b, c, d, e, f, g, h) == Rounds(FromWords(state[..]), bytes, offset, 64)
  {
    hide Add, Xor3, BigSigma0, BigSigma1, RotateRight, Choose, Majority, RoundConstant, Schedule;
    a, b, c, d := state[0], state[1], state[2], state[3];
    e, f, g, h := state[4], state[5], state[6], state[7];
    for index := 0 to 64
      invariant Registers(a, b, c, d, e, f, g, h) == Rounds(FromWords(state[..]), bytes, offset, index)
    {
      SigmasByShifts(e);
      SigmasByShifts(a);
      ghost var next := Round(Registers(a, b, c, d, e, f, g, h), RoundConstant(index), words[index]);
      var sum1 := Xor3(RotateRight(e, 6), RotateRight(e, 11), RotateRight(e, 25));
      var choose := Choose(e, f, g);
      var temporary1 := Add(Add(Add(Add(h, sum1), choose), RoundConstant(index)), words[index]);
      var sum0 := Xor3(RotateRight(a, 2), RotateRight(a, 13), RotateRight(a, 22));
      var majority := Majority(a, b, c);
      var temporary2 := Add(sum0, majority);

      h := g;
      g := f;
      f := e;
      e := Add(d, temporary1);
      d := c;
      c := b;
      b := a;
      a := Add(temporary1, temporary2);
      assert next == Registers(a, b, c, d, e, f, g, h);
    }
  }

  lemma PlusWords(words: seq<bv32>, r: Registers, k: nat)
    requires |words| == 8 && k < 8
    ensures FromWords(words).Plus(r).Words()[k] == Add(words[k], r.Words()[k])
  {
    hide Add;
  }

  /** The eight additions into the state, taken one index at a time. */
  method AddInto(state: array<bv32>, words: seq<bv32>)
    requires state.Length == 8 && |words| == 8
    modifies state
    ensures state[..] == FromWords(old(state[..])).Plus(FromWords(words)).Words()
  {
    hide Add, FromWords;
    for index := 0 to 8
      invariant forall k | 0 <= k < 8 :: state[k] == if k < index then Add(old(state[k]), words[k]) else old(state[k])
    {
      state[index] := Add(state[index], words[index]);
    }
    forall k | 0 <= k < 8
      ensures state[k] == FromWords(old(state[..])).Plus(FromWords(words)).Words()[k]
    {
      PlusWords(old(state[..]), FromWords(words), k);
    }
  }

  /** One block, added into the state in place. */
  method CompressBlock(bytes: Bytes, offset: nat, state: array<bv32>)
    requires offset + 64 <= |bytes| && state.Length == 8
    modifies state
    ensures state[..] == Compress(FromWords(old(state[..])), bytes, offset).Words()
  {
    hide Rounds, Schedule;
    var words := FillSchedule(bytes, offset);
    var a, b, c, d, e, f, g, h := RunRounds(words, state, bytes, offset);
    AddInto(state, [a, b, c, d, e, f, g, h]);
  }

  method InitialState() returns (state: array<bv32>)
    ensures fresh(state) && state.Length == 8 && state[..] == INITIAL.Words()
  {
    state := new bv32[] [0x6a09_e667, 0xbb67_ae85, 0x3c6e_f372, 0xa54f_f53a,
                         0x510e_527f, 0x9b05_688c, 0x1f83_d9ab, 0x5be0_cd19];
  }

  method WriteDigest(state: array<bv32>) returns (digest: Bytes)
    ensures digest == WordsBytes(state[..])
  {
    hide ByteOf;
    digest := [];
    for index := 0 to state.Length
      invariant digest == WordsBytes(state[..index])
    {
      digest := digest + [ByteOf(state[index], 24), ByteOf(state[index], 16),
                          ByteOf(state[index], 8), ByteOf(state[index], 0)];
      assert state[..index + 1][..index] == state[..index];
    }
    assert state[..state.Length] == state[..];
  }

  lemma FromWordsInverts(r: Registers)
    ensures FromWords(r.Words()) == r
  {
  }

  /** The code returns the digest of the standard for every input, the length field taken modulo 2^64. */
  method Sha256(input: Bytes) returns (digest: Bytes)
    ensures digest == Digest(input)
  {
    hide Compress, WordsBytes, Pad, FromWords;
    var bytes := PadBytes(input);
    PadMinimal(input, 0);
    var state := InitialState();
    var offset := 0;
    ghost var blocks := 0;
    while offset < |bytes|
      invariant offset == 64 * blocks <= |bytes|
      invariant state[..] == HashBlocks(bytes, blocks).Words()
    {
      FromWordsInverts(HashBlocks(bytes, blocks));
      CompressBlock(bytes, offset, state);
      offset, blocks := offset + 64, blocks + 1;
    }
    digest := WriteDigest(state);
  }
}
