/** The handshake response function, mf_scramble of common/network/NetConnection.h. */
module Scramble {
  import opened Bytes
  import opened Params

  function Mix(input: bv64): bv64 {
    var out := input ^ 0xDEADBEEFC0DECAFE;
    (((out & 0xF0F0F0F0F0F0F00F) >> 4) | ((out & 0xF0F0F0F0F0F0F000) << 4)) ^ 0xC0DEFACE12345678
  }

  /** Word w with the given nibbles at positions 2, 4, ..., 14 and zero elsewhere. */
  function Spread(n2: bv64, n4: bv64, n6: bv64, n8: bv64, n10: bv64, n12: bv64, n14: bv64): bv64 {
    (n2 << 8) | (n4 << 16) | (n6 << 24) | (n8 << 32) | (n10 << 40) | (n12 << 48) | (n14 << 56)
  }

  // The odd nibbles of a word, from the third on.

  function N3(w: bv64): bv64 { (w >> 12) & 0xF }

  function N5(w: bv64): bv64 { (w >> 20) & 0xF }

  function N7(w: bv64): bv64 { (w >> 28) & 0xF }

  function N9(w: bv64): bv64 { (w >> 36) & 0xF }

  function N11(w: bv64): bv64 { (w >> 44) & 0xF }

  function N13(w: bv64): bv64 { (w >> 52) & 0xF }

  function N15(w: bv64): bv64 { (w >> 60) & 0xF }

  /** The response nibble by nibble: n3, then the union of each pair of odd neighbours. */
  function Response(input: bv64): bv64 {
    var n := input ^ 0xDEADBEEFC0DECAFE;
    0xC0DEFACE12345678
    ^ Spread(N3(n), N3(n) | N5(n), N5(n) | N7(n), N7(n) | N9(n), N9(n) | N11(n), N11(n) | N13(n), N13(n) | N15(n))
  }

  lemma MixIsNibbleWise(input: bv64)
    ensures Mix(input) == Response(input)
  {
  }

  /** The seven nibbles the response depends on are the same for both words. */
  predicate SameKept(a: bv64, b: bv64) {
    && ((a >> 12) & 0xF) == ((b >> 12) & 0xF)
    && (((a >> 12) & 0xF) | ((a >> 20) & 0xF)) == (((b >> 12) & 0xF) | ((b >> 20) & 0xF))
    && (((a >> 20) & 0xF) | ((a >> 28) & 0xF)) == (((b >> 20) & 0xF) | ((b >> 28) & 0xF))
    && (((a >> 28) & 0xF) | ((a >> 36) & 0xF)) == (((b >> 28) & 0xF) | ((b >> 36) & 0xF))
    && (((a >> 36) & 0xF) | ((a >> 44) & 0xF)) == (((b >> 36) & 0xF) | ((b >> 44) & 0xF))
    && (((a >> 44) & 0xF) | ((a >> 52) & 0xF)) == (((b >> 44) & 0xF) | ((b >> 52) & 0xF))
    && (((a >> 52) & 0xF) | ((a >> 60) & 0xF)) == (((b >> 52) & 0xF) | ((b >> 60) & 0xF))
  }

  lemma SameKeptMix(a: bv64, b: bv64)
    requires SameKept(a ^ 0xDEADBEEFC0DECAFE, b ^ 0xDEADBEEFC0DECAFE)
    ensures Mix(a) == Mix(b)
  {
    MixIsNibbleWise(a);
    MixIsNibbleWise(b);
  }

  /** The mask-and-shift step on bare words: equal results force equal kept nibbles. */
  lemma KeptFromMix(a: bv64, b: bv64)
    requires (((a & 0xF0F0F0F0F0F0F00F) >> 4) | ((a & 0xF0F0F0F0F0F0F000) << 4))
          == (((b & 0xF0F0F0F0F0F0F00F) >> 4) | ((b & 0xF0F0F0F0F0F0F000) << 4))
    ensures ((a >> 12) & 0xF) == ((b >> 12) & 0xF)
    ensures (((a >> 12) & 0xF) | ((a >> 20) & 0xF)) == (((b >> 12) & 0xF) | ((b >> 20) & 0xF))
    ensures (((a >> 20) & 0xF) | ((a >> 28) & 0xF)) == (((b >> 20) & 0xF) | ((b >> 28) & 0xF))
    ensures (((a >> 28) & 0xF) | ((a >> 36) & 0xF)) == (((b >> 28) & 0xF) | ((b >> 36) & 0xF))
    ensures (((a >> 36) & 0xF) | ((a >> 44) & 0xF)) == (((b >> 36) & 0xF) | ((b >> 44) & 0xF))
    ensures (((a >> 44) & 0xF) | ((a >> 52) & 0xF)) == (((b >> 44) & 0xF) | ((b >> 52) & 0xF))
    ensures (((a >> 52) & 0xF) | ((a >> 60) & 0xF)) == (((b >> 52) & 0xF) | ((b >> 60) & 0xF))
  {
  }

  lemma SameMixKept(a: bv64, b: bv64)
    requires Mix(a) == Mix(b)
    ensures SameKept(a ^ 0xDEADBEEFC0DECAFE, b ^ 0xDEADBEEFC0DECAFE)
  {
    KeptFromMix(a ^ 0xDEADBEEFC0DECAFE, b ^ 0xDEADBEEFC0DECAFE);
  }

  /** Two words get the same response exactly when their seven kept nibbles agree. */
  lemma MixCollidesIff(a: bv64, b: bv64)
    ensures Mix(a) == Mix(b) <==> SameKept(a ^ 0xDEADBEEFC0DECAFE, b ^ 0xDEADBEEFC0DECAFE)
  {
    if SameKept(a ^ 0xDEADBEEFC0DECAFE, b ^ 0xDEADBEEFC0DECAFE) {
      SameKeptMix(a, b);
    } else if Mix(a) == Mix(b) {
      SameMixKept(a, b);
    }
  }

  // The same function on 64-bit words as numbers.

  /** The number whose binary digits the k low-order bits are. */
  function FromBits(x: bv64, k: nat): (n: nat)
    ensures n < Pow2(k)
  {
    if k == 0 then 0 else (if x & 1 == 1 then 1 else 0) + 2 * FromBits(x >> 1, k - 1)
  }

  function Pow2(k: nat): (p: nat)
    ensures p > 0
  {
    if k == 0 then 1 else 2 * Pow2(k - 1)
  }

  lemma EightTimes(k: nat)
    ensures Pow2(k + 8) == 256 * Pow2(k)
  {
    assert Pow2(k + 4) == 2 * Pow2(k + 3) == 4 * Pow2(k + 2) == 8 * Pow2(k + 1) == 16 * Pow2(k);
    assert Pow2(k + 8) == 2 * Pow2(k + 7) == 4 * Pow2(k + 6) == 8 * Pow2(k + 5) == 16 * Pow2(k + 4);
  }

  lemma WordRange()
    ensures Pow2(64) == 0x1_0000_0000_0000_0000
  {
    hide Pow2;
    assert Pow2(0) == 1 by { PowZero(); }
    EightTimes(0);
    EightTimes(8);
    EightTimes(16);
    EightTimes(24);
    EightTimes(32);
    EightTimes(40);
    EightTimes(48);
    EightTimes(56);
  }

  lemma PowZero()
    ensures Pow2(0) == 1
  {
  }

  function ScrambleWord(w: uint64): uint64 {
    WordRange();
    FromBits(Mix(w as bv64), 64)
  }

  function Parity(x: bv64): nat {
    if x & 1 == 1 then 1 else 0
  }

  lemma LowBit(x: bv64, high: nat)
    ensures (Parity(x) + 2 * high) / 2 == high && (Parity(x) + 2 * high) % 2 == Parity(x)
  {
  }

  lemma FromBitsStep(x: bv64, k: nat)
    requires k > 0
    ensures FromBits(x, k) / 2 == FromBits(x >> 1, k - 1) && FromBits(x, k) % 2 == Parity(x)
  {
    LowBit(x, FromBits(x >> 1, k - 1));
  }

  /** Whatever the input, the fourth nibble of the response is five; here its third bit. */
  lemma FourthNibble(input: bv64)
    ensures (Mix(input) >> 14) & 1 == 1
  {
  }

  function Shifted(x: bv64, k: nat): bv64 {
    if k == 0 then x else Shifted(x >> 1, k - 1)
  }

  lemma ShiftedByEight(x: bv64, k: nat)
    ensures Shifted(x, k + 8) == Shifted(x >> 8, k)
  {
    assert Shifted(x, k + 8) == Shifted(x >> 1, k + 7) == Shifted(x >> 2, k + 6);
    assert Shifted(x >> 2, k + 6) == Shifted(x >> 3, k + 5) == Shifted(x >> 4, k + 4);
    assert Shifted(x >> 4, k + 4) == Shifted(x >> 5, k + 3) == Shifted(x >> 6, k + 2);
    assert Shifted(x >> 6, k + 2) == Shifted(x >> 7, k + 1) == Shifted(x >> 8, k);
  }

  function BitAt(n: nat, i: nat): nat {
    if i == 0 then n % 2 else BitAt(n / 2, i - 1)
  }

  lemma {:induction false} BitOfNumber(x: bv64, k: nat, i: nat)
    requires i < k
    ensures BitAt(FromBits(x, k), i) == Parity(Shifted(x, i))
  {
    FromBitsStep(x, k);
    hide Parity, FromBits;
    if i > 0 {
      BitOfNumber(x >> 1, k - 1, i - 1);
    }
  }

  predicate SameBits(a: nat, b: nat, k: nat) {
    forall i :: 0 <= i < k ==> BitAt(a, i) == BitAt(b, i)
  }

  lemma {:induction false} BitsDetermine(a: nat, b: nat, k: nat)
    requires a < Pow2(k) && b < Pow2(k) && SameBits(a, b, k)
    ensures a == b
  {
    if k > 0 {
      FirstBit(a);
      FirstBit(b);
      hide BitAt;
      assert BitAt(a, 0) == BitAt(b, 0);
      forall i | 0 <= i < k - 1 ensures BitAt(a / 2, i) == BitAt(b / 2, i) {
        BitAtNext(a, i);
        BitAtNext(b, i);
        assert BitAt(a, i + 1) == BitAt(b, i + 1);
      }
      BitsDetermine(a / 2, b / 2, k - 1);
    }
  }

  /** The word is the response to the challenge, bit for bit as the nibbles say. */
  predicate Answers(word: uint64, challenge: uint64) {
    forall i :: 0 <= i < 64 ==> BitAt(word, i) == Parity(Shifted(Response(challenge as bv64), i))
  }

  /** The number computed from a challenge is the one that is the response to it, and no other is. */
  lemma AnswersIff(word: uint64, challenge: uint64)
    ensures word == ScrambleWord(challenge) <==> Answers(word, challenge)
  {
    hide Mix, Response, FromBits, BitAt, Pow2, Parity, Shifted, ScrambleWord;
    WordRange();
    var n := ScrambleWord(challenge);
    forall i | 0 <= i < 64 ensures BitAt(n, i) == Parity(Shifted(Response(challenge as bv64), i)) {
      ScrambleBit(challenge, i);
    }
    if word == n {
      assert Answers(word, challenge);
    }
    if Answers(word, challenge) {
      assert SameBits(word, n, 64);
      BitsDetermine(word, n, 64);
    }
  }

  lemma ScrambleBit(challenge: uint64, i: nat)
    requires i < 64
    ensures BitAt(ScrambleWord(challenge), i) == Parity(Shifted(Response(challenge as bv64), i))
  {
    var x := challenge as bv64;
    assert ScrambleWord(challenge) == FromBits(Mix(x), 64);
    hide *;
    MixIsNibbleWise(x);
    BitOfNumber(Mix(x), 64, i);
  }

  /** So no response has a zero in its second byte. */
  lemma SecondByte(w: uint64)
    ensures ToBytes(ScrambleWord(w), 8)[1] != 0
  {
    hide Mix;
    var x, n := Mix(w as bv64), ScrambleWord(w);
    FourthNibble(w as bv64);
    ShiftedByFourteen(x);
    BitOfNumber(x, 64, 14);
    BitInSecondByte(n);
    assert ToBytes(n, 8)[1] == ToBytes(n / 256, 7)[0] == n / 256 % 256;
  }

  lemma ShiftedByFourteen(x: bv64)
    ensures Shifted(x, 14) == x >> 14
  {
    ShiftedByEight(x, 6);
    assert Shifted(x >> 8, 6) == Shifted(x >> 9, 5) == Shifted(x >> 10, 4) == Shifted(x >> 11, 3);
    assert Shifted(x >> 11, 3) == Shifted(x >> 12, 2) == Shifted(x >> 13, 1) == Shifted(x >> 14, 0);
  }

  lemma BitAtNext(n: nat, i: nat)
    ensures BitAt(n, i + 1) == BitAt(n / 2, i)
  {
  }

  lemma BitInSecondByte(n: nat)
    requires BitAt(n, 14) == 1
    ensures n / 256 % 256 != 0
  {
    hide BitAt;
    BitAtNext(n, 13);
    BitAtNext(n / 2, 12);
    BitAtNext(n / 4, 11);
    BitAtNext(n / 8, 10);
    BitAtNext(n / 16, 9);
    BitAtNext(n / 32, 8);
    BitAtNext(n / 64, 7);
    BitAtNext(n / 128, 6);
    assert n / 2 / 2 == n / 4 && n / 4 / 2 == n / 8 && n / 8 / 2 == n / 16 && n / 16 / 2 == n / 32;
    assert n / 32 / 2 == n / 64 && n / 64 / 2 == n / 128 && n / 128 / 2 == n / 256;
    SixMoreBits(n / 256);
  }

  lemma SixMoreBits(m: nat)
    ensures BitAt(m, 6) == 1 ==> m % 256 != 0
  {
    hide BitAt;
    BitAtNext(m, 5);
    BitAtNext(m / 2, 4);
    BitAtNext(m / 4, 3);
    BitAtNext(m / 8, 2);
    BitAtNext(m / 16, 1);
    BitAtNext(m / 32, 0);
    assert m / 2 / 2 == m / 4 && m / 4 / 2 == m / 8 && m / 8 / 2 == m / 16 && m / 16 / 2 == m / 32;
    assert m / 32 / 2 == m / 64;
    FirstBit(m / 64);
    SeventhBit(m);
  }

  lemma SeventhBit(m: nat)
    ensures m / 64 % 2 == 1 ==> m % 256 != 0
  {
    if m % 256 == 0 {
      var q := m / 256;
      assert m == 64 * (4 * q);
      assert m / 64 == 4 * q;
    }
  }

  lemma FirstBit(n: nat)
    ensures BitAt(n, 0) == n % 2
  {
  }
}
