/** Bytes and 32-bit words.  A word is the sequence of its bits, least significant first, so that
    `^`, `>> 1` and `<< 1` of the C code are statements about single bits. */
module Words {

  type byte = x: int | 0 <= x < 256

  type Word = w: seq<bool> | |w| == 32 witness Zeros(32)

  function Zeros(k: nat): seq<bool> {
    seq(k, _ => false)
  }

  const ZERO: Word := Zeros(32)

  function Xor(a: Word, b: Word): (r: Word)
    ensures forall i :: 0 <= i < 32 ==> r[i] == (a[i] != b[i])
  {
    seq(32, i requires 0 <= i < 32 => a[i] != b[i])
  }

  function Complement(a: Word): (r: Word)
    ensures forall i :: 0 <= i < 32 ==> r[i] == !a[i]
  {
    seq(32, i requires 0 <= i < 32 => !a[i])
  }

  function ShiftRight(a: Word): (r: Word) {
    a[1..] + [false]
  }

  function ShiftLeft(a: Word): (r: Word) {
    [false] + a[..31]
  }

  /** The word whose only set bit is bit i. */
  function Unit(i: nat): (r: Word)
    ensures forall j :: 0 <= j < 32 ==> r[j] == (j == i)
  {
    seq(32, j => j == i)
  }

  /** The bits bs, followed by zeros up to the width of a word. */
  function Pad(bs: seq<bool>): (r: Word)
    requires |bs| <= 32
    ensures forall i :: 0 <= i < 32 ==> r[i] == (i < |bs| && bs[i])
  {
    seq(32, i requires 0 <= i < 32 => i < |bs| && bs[i])
  }

  lemma XorComm(a: Word, b: Word)
    ensures Xor(a, b) == Xor(b, a)
  {}

  lemma XorZero(a: Word)
    ensures Xor(a, ZERO) == a && Xor(ZERO, a) == a
  {}

  lemma XorCancel(a: Word, b: Word, c: Word)
    requires Xor(a, b) == Xor(a, c)
    ensures b == c
  {
    forall i | 0 <= i < 32
      ensures b[i] == c[i]
    {
      assert Xor(a, b)[i] == Xor(a, c)[i];
    }
  }

  lemma ComplementTwice(a: Word)
    ensures Complement(Complement(a)) == a
  {}

  // ----- numbers as bits -----

  /** The k lowest bits of n, least significant first. */
  function Bits(n: nat, k: nat): (bs: seq<bool>)
    ensures |bs| == k
    decreases k, n
  {
    if k == 0 then [] else [n % 2 == 1] + Bits(n / 2, k - 1)
  }

  function Number(bs: seq<bool>): (n: nat) {
    if bs == [] then 0 else (if bs[0] then 1 else 0) + 2 * Number(bs[1..])
  }

  function Pow2(k: nat): (p: nat)
    ensures p > 0
  {
    if k == 0 then 1 else 2 * Pow2(k - 1)
  }

  lemma DoubledProduct(a: nat, b: nat)
    ensures (2 * a) * b == 2 * (a * b)
  {}

  lemma {:induction false} Pow2Add(m: nat, n: nat)
    ensures Pow2(m + n) == Pow2(m) * Pow2(n)
    decreases m
  {
    if m > 0 {
      hide *;
      Pow2Step(m);
      Pow2Step(m + n);
      Pow2Add(m - 1, n);
      DoubledProduct(Pow2(m - 1), Pow2(n));
    } else {
      assert Pow2(0) == 1;
    }
  }

  lemma Pow2Step(k: nat)
    requires k > 0
    ensures Pow2(k) == 2 * Pow2(k - 1)
  {}

  lemma Pow2Values()
    ensures Pow2(8) == 0x100
    ensures Pow2(31) == 0x8000_0000
    ensures Pow2(32) == 0x1_0000_0000
  {
    assert Pow2(4) == 16;
    Pow2Add(4, 4);
    Pow2Add(8, 8);
    Pow2Add(16, 8);
    Pow2Add(24, 4);
    Pow2Add(28, 3);
    assert Pow2(32) == 2 * Pow2(31);
  }

  lemma {:induction false} BitsOfNumber(bs: seq<bool>)
    ensures Number(bs) < Pow2(|bs|)
    ensures Bits(Number(bs), |bs|) == bs
    decreases |bs|
  {
    if bs != [] {
      BitsOfNumber(bs[1..]);
      var n := Number(bs[1..]);
      var b := if bs[0] then 1 else 0;
      assert (b + 2 * n) % 2 == b && (b + 2 * n) / 2 == n;
    }
  }

  lemma {:induction false} NumberOfBits(n: nat, k: nat)
    requires n < Pow2(k)
    ensures Number(Bits(n, k)) == n
    decreases k
  {
    if k > 0 {
      NumberOfBits(n / 2, k - 1);
    }
  }

  /** n halved i times. */
  function Halved(n: nat, i: nat): nat
    decreases i
  {
    if i == 0 then n else Halved(n / 2, i - 1)
  }

  lemma {:induction false} HalvedTop(n: nat, i: nat)
    requires Pow2(i) <= n < Pow2(i + 1)
    ensures Halved(n, i) == 1
    decreases i
  {
    if i > 0 {
      HalvedTop(n / 2, i - 1);
    }
  }

  lemma {:induction false} BitAt(n: nat, k: nat, i: nat)
    requires i < k
    ensures Bits(n, k)[i] == (Halved(n, i) % 2 == 1)
    decreases i
  {
    if i > 0 {
      BitAt(n / 2, k - 1, i - 1);
    }
  }

  lemma BitsStep(n: nat, k: nat)
    ensures Bits(n, k + 1) == [n % 2 == 1] + Bits(n / 2, k)
  {}

  /** The bits of a number are those of its last hexadecimal digit followed by those of the others. */
  lemma BitsOfDigit(n: nat, k: nat)
    ensures Bits(n, k + 4) == [n % 2 == 1, n / 2 % 2 == 1, n / 4 % 2 == 1, n / 8 % 2 == 1] + Bits(n / 16, k)
  {
    hide Bits;
    BitsStep(n, k + 3);
    BitsStep(n / 2, k + 2);
    BitsStep(n / 4, k + 1);
    BitsStep(n / 8, k);
    FourFirst(n % 2 == 1, n / 2 % 2 == 1, n / 4 % 2 == 1, n / 8 % 2 == 1, Bits(n / 16, k));
  }

  lemma FourFirst(a: bool, b: bool, c: bool, d: bool, rest: seq<bool>)
    ensures [a] + ([b] + ([c] + ([d] + rest))) == [a, b, c, d] + rest
  {}
}
