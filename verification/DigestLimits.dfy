/** What a CRC-32C cannot see: the registers that zero bytes leave as they are.  And what it can be
    made to be: every digest, by the choice of the last four bytes of a message. */
module DigestLimits {
  import opened Words
  import opened Crc32c

  // ----- registers that zero bytes leave alone -----

  /** The one register besides zero that a step over a zero bit does not change. */
  const FIXED: Word := Bits(0xfca42daf, 32)

  predicate Unmoved(r: Word) {
    r == ZERO || r == FIXED
  }

  lemma HighPolyBits()
    ensures
      var b := Bits(0x82f6, 16);
      !b[0] && b[1] && b[2] && !b[3] && b[4] && b[5] && b[6] && b[7] &&
      !b[8] && b[9] && !b[10] && !b[11] && !b[12] && !b[13] && !b[14] && b[15]
  {
    hide Bits;
    BitsOfDigit(0x82f6, 12);
    BitsOfDigit(0x82f, 8);
    BitsOfDigit(0x82, 4);
    BitsOfDigit(0x8, 0);
  }

  lemma PolyBits()
    ensures !POLY[0] && !POLY[1] && !POLY[2] && POLY[3] && POLY[4] && POLY[5] && POLY[6] && !POLY[7]
    ensures POLY[8] && POLY[9] && !POLY[10] && POLY[11] && POLY[12] && POLY[13] && !POLY[14] && !POLY[15]
    ensures !POLY[16] && POLY[17] && POLY[18] && !POLY[19] && POLY[20] && POLY[21] && POLY[22] && POLY[23]
    ensures !POLY[24] && POLY[25] && !POLY[26] && !POLY[27] && !POLY[28] && !POLY[29] && !POLY[30] && POLY[31]
  {
    hide Bits;
    BitsOfDigit(0x82f63b78, 28);
    BitsOfDigit(0x82f63b7, 24);
    BitsOfDigit(0x82f63b, 20);
    BitsOfDigit(0x82f63, 16);
    HighPolyBits();
  }

  lemma HighFixedBits()
    ensures
      var b := Bits(0xfca4, 16);
      !b[0] && !b[1] && b[2] && !b[3] && !b[4] && b[5] && !b[6] && b[7] &&
      !b[8] && !b[9] && b[10] && b[11] && b[12] && b[13] && b[14] && b[15]
  {
    hide Bits;
    BitsOfDigit(0xfca4, 12);
    BitsOfDigit(0xfca, 8);
    BitsOfDigit(0xfc, 4);
    BitsOfDigit(0xf, 0);
  }

  lemma FixedBits()
    ensures FIXED[0] && FIXED[1] && FIXED[2] && FIXED[3] && !FIXED[4] && FIXED[5] && !FIXED[6] && FIXED[7]
    ensures FIXED[8] && !FIXED[9] && FIXED[10] && FIXED[11] && !FIXED[12] && FIXED[13] && !FIXED[14] && !FIXED[15]
    ensures !FIXED[16] && !FIXED[17] && FIXED[18] && !FIXED[19] && !FIXED[20] && FIXED[21] && !FIXED[22] && FIXED[23]
    ensures !FIXED[24] && !FIXED[25] && FIXED[26] && FIXED[27] && FIXED[28] && FIXED[29] && FIXED[30] && FIXED[31]
  {
    hide Bits;
    BitsOfDigit(0xfca42daf, 28);
    BitsOfDigit(0xfca42da, 24);
    BitsOfDigit(0xfca42d, 20);
    BitsOfDigit(0xfca42, 16);
    HighFixedBits();
  }

  /** Whether a sequence of bits holds an odd number of ones. */
  function Odd(bs: seq<bool>): bool {
    if bs == [] then false else bs[0] != Odd(bs[1..])
  }

  lemma {:induction false} OddAppend(a: seq<bool>, b: seq<bool>)
    ensures Odd(a + b) == (Odd(a) != Odd(b))
    decreases |a|
  {
    if a == [] {
      assert a + b == b;
    } else {
      assert (a + b)[1..] == a[1..] + b;
      OddAppend(a[1..], b);
    }
  }

  lemma {:induction false} OddXor(a: seq<bool>, b: seq<bool>, r: seq<bool>)
    requires |a| == |b| == |r| && forall i :: 0 <= i < |r| ==> r[i] == (a[i] != b[i])
    ensures Odd(r) == (Odd(a) != Odd(b))
    decreases |a|
  {
    if a != [] {
      OddXor(a[1..], b[1..], r[1..]);
    }
  }

  lemma OddStep(n: nat, k: nat)
    ensures Odd(Bits(n, k + 1)) == ((n % 2 == 1) != Odd(Bits(n / 2, k)))
  {
    hide Bits;
    BitsStep(n, k);
    assert ([n % 2 == 1] + Bits(n / 2, k))[1..] == Bits(n / 2, k);
  }

  lemma OddDigit(n: nat, k: nat)
    ensures Odd(Bits(n, k + 4)) ==
      ((n % 2 == 1) != ((n / 2 % 2 == 1) != ((n / 4 % 2 == 1) != ((n / 8 % 2 == 1) != Odd(Bits(n / 16, k))))))
  {
    hide Bits, Odd;
    OddStep(n, k + 3);
    OddStep(n / 2, k + 2);
    OddStep(n / 4, k + 1);
    OddStep(n / 8, k);
  }

  lemma OddNothing()
    ensures !Odd(Bits(0, 0))
  {}

  lemma PolyIsOdd()
    ensures Odd(POLY)
  {
    hide Bits, Odd;
    OddDigit(0x82f63b78, 28);
    OddDigit(0x82f63b7, 24);
    OddDigit(0x82f63b, 20);
    OddDigit(0x82f63, 16);
    OddDigit(0x82f6, 12);
    OddDigit(0x82f, 8);
    OddDigit(0x82, 4);
    OddDigit(0x8, 0);
    OddNothing();
  }

  lemma FixedIsOdd()
    ensures Odd(FIXED)
  {
    hide Bits, Odd;
    OddDigit(0xfca42daf, 28);
    OddDigit(0xfca42da, 24);
    OddDigit(0xfca42d, 20);
    OddDigit(0xfca42, 16);
    OddDigit(0xfca4, 12);
    OddDigit(0xfca, 8);
    OddDigit(0xfc, 4);
    OddDigit(0xf, 0);
    OddNothing();
  }

  /** A step keeps the parity of the register, because POLY has an odd number of ones. */
  lemma StepKeepsParity(c: Word)
    ensures Odd(Step(c)) == Odd(c)
  {
    hide Bits;
    PolyIsOdd();
    OddAppend(c[1..], [false]);
    assert Odd([false]) == Odd([false][1..]);
    OddXor(ShiftRight(c), POLY, Xor(ShiftRight(c), POLY));
  }

  lemma {:induction false} StepsKeepParity(c: Word, n: nat)
    ensures Odd(Steps(c, n)) == Odd(c)
    decreases n
  {
    if n > 0 {
      StepKeepsParity(c);
      StepsKeepParity(Step(c), n - 1);
    }
  }

  /** Nothing but the two is left as it is by n steps. */
  ghost predicate OnlyThose(n: nat) {
    forall r: Word :: Steps(r, n) == r ==> Unmoved(r)
  }

  function Bit(w: Word, i: nat): bool {
    i < 32 && w[i]
  }

  function ThirdBit(r: Word, i: nat): bool
    requires i < 32
  {
    Bit(r, i + 3) != ((r[0] && Bit(POLY, i + 2)) != ((r[1] && Bit(POLY, i + 1)) != (r[2] && POLY[i])))
  }

  lemma StepsSucc(c: Word, n: nat)
    ensures Steps(c, 0) == c
    ensures Steps(c, n + 1) == Steps(Step(c), n)
  {}

  /** Bit i of a register after three steps; the two lowest bits of POLY are zero, so that the three
      bits shifted out are the lowest ones of the register. */
  lemma ThreeStepsAt(r: Word, i: nat)
    requires i < 32
    ensures Steps(r, 3)[i] == ThirdBit(r, i)
  {
    hide Bits, Step, Steps;
    PolyBits();
    var s := Step(r);
    var t := Step(s);
    StepsSucc(r, 2);
    StepsSucc(s, 1);
    StepsSucc(t, 0);
    StepsSucc(Step(t), 0);
    StepAt(t, i);
    StepAt(s, 0);
    StepAt(r, 0);
    StepAt(r, 1);
    if i + 1 < 32 {
      StepAt(s, i + 1);
    }
    if i + 2 < 32 {
      StepAt(r, i + 2);
    }
  }

  lemma ThreeStepsFix()
    ensures OnlyThose(3)
  {
    hide Bits, Steps;
    PolyBits();
    FixedBits();
    forall r: Word | Steps(r, 3) == r
      ensures Unmoved(r)
    {
      forall i {:trigger POLY[i]} | 0 <= i < 32
        ensures r[i] == ThirdBit(r, i)
      {
        ThreeStepsAt(r, i);
      }
      SameAsThose(r);
    }
  }

  lemma SameAsThose(r: Word)
    requires forall i {:trigger POLY[i]} | 0 <= i < 32 :: r[i] == ThirdBit(r, i)
    ensures Unmoved(r)
  {
    hide Bits;
    PolyBits();
    FixedBits();
  }

  /** A register left alone by one step is left alone by three. */
  lemma OneStepFixes()
    ensures OnlyThose(1)
  {
    hide Bits, Step, Steps, Unmoved;
    ThreeStepsFix();
    forall r: Word | Steps(r, 1) == r
      ensures Unmoved(r)
    {
      StepsSucc(r, 0);
      StepsSucc(Step(r), 0);
      StepsSucc(r, 1);
      StepsSucc(r, 2);
    }
  }

  lemma FixedStep()
    ensures Step(FIXED) == FIXED && Step(ZERO) == ZERO
  {
    hide Bits, Step;
    PolyBits();
    FixedBits();
    forall i | 0 <= i < 32
      ensures Step(FIXED)[i] == FIXED[i] && Step(ZERO)[i] == ZERO[i]
    {
      StepAt(FIXED, i);
      StepAt(ZERO, i);
    }
  }

  lemma {:induction false} UnmovedStays(r: Word, n: nat)
    requires Unmoved(r)
    ensures Steps(r, n) == r
    decreases n
  {
    hide Bits, Step;
    if n > 0 {
      FixedStep();
      UnmovedStays(r, n - 1);
    }
  }

  /** A register left alone by 2 * n steps differs from its own image under n steps by a register left
      alone by n steps; that difference has even parity, so that it is not FIXED. */
  lemma OnlyThoseDoubled(n: nat)
    requires OnlyThose(n)
    ensures OnlyThose(2 * n)
  {
    hide Bits, Steps, Odd;
    forall r: Word | Steps(r, 2 * n) == r
      ensures Unmoved(r)
    {
      var s := Steps(r, n);
      var u := Xor(s, r);
      StepsAdd(r, n, n);
      StepsXor(s, r, n);
      XorComm(r, s);
      assert Steps(u, n) == u;
      StepsKeepParity(r, n);
      OddXor(s, r, u);
      FixedIsOdd();
      assert u == ZERO;
      XorZeroMeansEqual(s, r);
    }
  }

  lemma XorZeroMeansEqual(a: Word, b: Word)
    requires Xor(a, b) == ZERO
    ensures a == b
  {
    forall i | 0 <= i < 32
      ensures a[i] == b[i]
    {
      assert !Xor(a, b)[i];
    }
  }

  /** Eight, sixteen and twenty-four steps leave alone the two registers that one step leaves alone,
      and no others. */
  lemma UnmovedByBytes(r: Word, n: nat)
    requires n == 1 || n == 2 || n == 3
    ensures Steps(r, 8 * n) == r <==> Unmoved(r)
  {
    hide Bits, Steps, Unmoved;
    if n == 3 {
      ThreeStepsFix();
      OnlyThoseDoubled(3);
      OnlyThoseDoubled(6);
      OnlyThoseDoubled(12);
    } else {
      OneStepFixes();
      OnlyThoseDoubled(1);
      OnlyThoseDoubled(2);
      OnlyThoseDoubled(4);
      OnlyThoseDoubled(8);
    }
    if Unmoved(r) {
      UnmovedStays(r, 8 * n);
    }
  }

  // ----- zero bytes at the end of a message -----

  lemma {:induction false} SerialZeros(c: Word, n: nat)
    ensures SerialBits(c, Zeros(n)) == Steps(c, n)
    decreases n
  {
    if n == 0 {
      assert Zeros(0) == [];
    } else {
      assert Zeros(n)[1..] == Zeros(n - 1);
      SerialZeros(Step(c), n - 1);
    }
  }

  lemma {:induction false} BitsOfZero(k: nat)
    ensures Bits(0, k) == Zeros(k)
    decreases k
  {
    if k > 0 {
      BitsOfZero(k - 1);
      assert Zeros(k) == [false] + Zeros(k - 1);
    }
  }

  lemma {:induction false} MessageZeros(s: seq<byte>)
    requires forall i :: 0 <= i < |s| ==> s[i] == 0
    ensures MessageBits(s) == Zeros(8 * |s|)
    decreases |s|
  {
    if s != [] {
      MessageZeros(s[1..]);
      BitsOfZero(8);
      assert Zeros(8 * |s|) == Zeros(8) + Zeros(8 * |s[1..]|);
    }
  }

  /** Zero bytes at the end step the register and do nothing else. */
  lemma FeedZeros(c: Word, s: seq<byte>, zeros: seq<byte>)
    requires forall i :: 0 <= i < |zeros| ==> zeros[i] == 0
    ensures Feed(c, s + zeros) == Steps(Feed(c, s), 8 * |zeros|)
  {
    FeedAppend(c, s, zeros);
    MessageZeros(zeros);
    SerialZeros(Feed(c, s), 8 * |zeros|);
  }

  /** Up to three zero bytes behind a message leave its digest as it is exactly when there are none, or
      the digest is the complement of one of the two registers. */
  lemma DigestOfZeros(crc: Word, s: seq<byte>, zeros: seq<byte>)
    requires |zeros| < 4 && forall i :: 0 <= i < |zeros| ==> zeros[i] == 0
    ensures Digest(crc, s + zeros) == Digest(crc, s) <==> zeros == [] || Unmoved(Complement(Digest(crc, s)))
  {
    hide Bits, Steps, Unmoved, Feed;
    var r := Feed(Complement(crc), s);
    FeedZeros(Complement(crc), s, zeros);
    ComplementTwice(r);
    ComplementTwice(Steps(r, 8 * |zeros|));
    if zeros == [] {
      assert s + zeros == s;
    } else {
      UnmovedByBytes(r, |zeros|);
    }
  }

  // ----- every digest can be had -----

  /** The register from which a step leads to c. */
  function StepBack(c: Word): Word {
    hide Bits;
    if c[31] then [true] + Xor(c, POLY)[..31] else [false] + c[..31]
  }

  lemma StepOfStepBack(c: Word)
    ensures Step(StepBack(c)) == c
  {
    hide Bits;
    PolyTop();
    var b := StepBack(c);
    if c[31] {
      assert Xor(ShiftRight(b), POLY) == c;
    } else {
      assert ShiftRight(b) == c;
    }
  }

  function StepsBack(c: Word, n: nat): Word
    decreases n, c
  {
    if n == 0 then c else StepBack(StepsBack(c, n - 1))
  }

  lemma {:induction false} StepsOfStepsBack(c: Word, n: nat)
    ensures Steps(StepsBack(c, n), n) == c
    decreases n
  {
    hide Bits, Step, StepBack;
    if n > 0 {
      StepOfStepBack(StepsBack(c, n - 1));
      StepsOfStepsBack(c, n - 1);
    }
  }

  /** The 32 bits that take register c to register r. */
  function Filler(c: Word, r: Word): Word {
    Xor(c, StepsBack(r, 32))
  }

  lemma FillerWorks(c: Word, r: Word)
    ensures SerialBits(c, Filler(c, r)) == r
  {
    hide Bits, Steps, StepsBack;
    var b := StepsBack(r, 32);
    SerialBitsAtOnce(c, Filler(c, r));
    assert Pad(Filler(c, r)) == Filler(c, r);
    assert Xor(c, Filler(c, r)) == b;
    StepsOfStepsBack(r, 32);
  }
}
