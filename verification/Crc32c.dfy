/** crc32c.c: the three-way interleaved CRC-32C with GF(2) shift tables, proved equal to the
    bit-serial CRC-32C of section 12.1 of RFC 3720. */
module Crc32c {
  import opened Words

  /** The CRC-32C polynomial in reversed bit order. */
  const POLY: Word := Bits(0x82f63b78, 32)

  // ----- the bit-serial reference -----

  /** One message bit enters the register. */
  function SerialBit(c: Word, x: bool): Word {
    if c[0] != x then Xor(ShiftRight(c), POLY) else ShiftRight(c)
  }

  function SerialBits(c: Word, bs: seq<bool>): Word
    decreases |bs|
  {
    if bs == [] then c else SerialBits(SerialBit(c, bs[0]), bs[1..])
  }

  /** The bits of a message in the order in which they enter the register. */
  function MessageBits(s: seq<byte>): (bs: seq<bool>)
    ensures |bs| == 8 * |s|
  {
    if s == [] then [] else Bits(s[0], 8) + MessageBits(s[1..])
  }

  /** The register c after the bytes s. */
  function Feed(c: Word, s: seq<byte>): Word {
    SerialBits(c, MessageBits(s))
  }

  /** The digest of s, continuing from the digest crc of earlier data. */
  function Digest(crc: Word, s: seq<byte>): Word {
    Complement(Feed(Complement(crc), s))
  }

  // ----- stepping a register over zero bits -----

  function Step(c: Word): Word {
    SerialBit(c, false)
  }

  function Steps(c: Word, n: nat): Word
    decreases n, c
  {
    if n == 0 then c else Steps(Step(c), n - 1)
  }

  lemma StepXor(a: Word, b: Word)
    ensures Step(Xor(a, b)) == Xor(Step(a), Step(b))
  {}

  lemma StepInjective(a: Word, b: Word)
    requires Step(a) == Step(b)
    ensures a == b
  {
    hide Bits, Step;
    StepAt(a, 31);
    StepAt(b, 31);
    PolyTop();
    forall i | 0 < i < 32
      ensures a[i] == b[i]
    {
      StepAt(a, i - 1);
      StepAt(b, i - 1);
    }
  }

  /** Bit i of a register after a step. */
  lemma StepAt(c: Word, i: nat)
    requires i < 32
    ensures Step(c)[i] == ((if i < 31 then c[i + 1] else false) != (c[0] && POLY[i]))
  {
    hide Bits;
  }

  lemma PolyTop()
    ensures POLY[31]
  {
    hide Bits, Halved, Pow2;
    BitAt(0x82f63b78, 32, 31);
    Pow2Values();
    HalvedTop(0x82f63b78, 31);
  }

  // ----- the polynomial as the standard writes it -----

  function Reversed(bs: seq<bool>): (r: seq<bool>)
    ensures |r| == |bs|
  {
    if bs == [] then [] else Reversed(bs[1..]) + [bs[0]]
  }

  /** The k lowest bits of n in the opposite order, below the bits of above. */
  function Mirrored(n: nat, k: nat, above: nat): nat
    decreases k
  {
    if k == 0 then above else Mirrored(n / 2, k - 1, 2 * above + n % 2)
  }

  lemma {:induction false} BitsOfMirrored(n: nat, k: nat, above: nat, j: nat)
    ensures Bits(Mirrored(n, k, above), k + j) == Reversed(Bits(n, k)) + Bits(above, j)
    decreases k
  {
    if k == 0 {
      assert Reversed(Bits(n, 0)) == [];
    } else {
      var m := 2 * above + n % 2;
      assert m % 2 == n % 2 && m / 2 == above;
      assert Bits(m, j + 1) == [n % 2 == 1] + Bits(above, j);
      assert Bits(n, k)[1..] == Bits(n / 2, k - 1);
      BitsOfMirrored(n / 2, k - 1, m, j + 1);
    }
  }

  lemma MirroredNibble(n: nat, k: nat, above: nat)
    ensures
      var digit := 8 * (n % 2) + 4 * (n / 2 % 2) + 2 * (n / 4 % 2) + n / 8 % 2;
      Mirrored(n, k + 4, above) == Mirrored(n / 16, k, 16 * above + digit)
  {
    hide Mirrored;
    var n1, n2, n3 := n / 2, n / 4, n / 8;
    var a1 := 2 * above + n % 2;
    var a2 := 2 * a1 + n1 % 2;
    var a3 := 2 * a2 + n2 % 2;
    MirroredStep(n, k + 3, above);
    MirroredStep(n1, k + 2, a1);
    MirroredStep(n2, k + 1, a2);
    MirroredStep(n3, k, a3);
  }

  lemma MirroredStep(n: nat, k: nat, above: nat)
    ensures Mirrored(n, k + 1, above) == Mirrored(n / 2, k, 2 * above + n % 2)
  {}

  lemma MirroredPoly()
    ensures Mirrored(0x1edc6f41, 32, 0) == 0x82f63b78
  {
    hide Mirrored;
    MirroredNibble(0x1edc6f41, 28, 0);
    MirroredNibble(0x1edc6f4, 24, 0x8);
    MirroredNibble(0x1edc6f, 20, 0x82);
    MirroredNibble(0x1edc6, 16, 0x82f);
    MirroredNibble(0x1edc, 12, 0x82f6);
    MirroredNibble(0x1ed, 8, 0x82f63);
    MirroredNibble(0x1e, 4, 0x82f63b);
    MirroredNibble(0x1, 0, 0x82f63b7);
    MirroredNothing(0, 0x82f63b78);
  }

  lemma MirroredNothing(n: nat, above: nat)
    ensures Mirrored(n, 0, above) == above
  {}

  /** POLY is the generator polynomial 0x11edc6f41 without its leading term, bits reversed. */
  lemma PolyIsReversed()
    ensures POLY == Reversed(Bits(0x1edc6f41, 32))
  {
    hide Bits, Reversed, Mirrored;
    MirroredPoly();
    BitsOfMirrored(0x1edc6f41, 32, 0, 0);
    assert Bits(0, 0) == [];
  }

  lemma {:induction false} StepsXor(a: Word, b: Word, n: nat)
    ensures Steps(Xor(a, b), n) == Xor(Steps(a, n), Steps(b, n))
    decreases n
  {
    if n > 0 {
      StepXor(a, b);
      StepsXor(Step(a), Step(b), n - 1);
    }
  }

  lemma {:induction false} StepsAdd(c: Word, m: nat, n: nat)
    ensures Steps(c, m + n) == Steps(Steps(c, m), n)
    decreases m
  {
    if m > 0 {
      StepsAdd(Step(c), m - 1, n);
    }
  }

  lemma {:induction false} StepsInjective(a: Word, b: Word, n: nat)
    requires Steps(a, n) == Steps(b, n)
    ensures a == b
    decreases n
  {
    if n > 0 {
      StepsInjective(Step(a), Step(b), n - 1);
      StepInjective(a, b);
    }
  }

  // ----- the reference is linear, and splits where a message splits -----

  lemma {:induction false} SerialBitsAppend(c: Word, a: seq<bool>, b: seq<bool>)
    ensures SerialBits(c, a + b) == SerialBits(SerialBits(c, a), b)
    decreases |a|
  {
    if a == [] {
      assert a + b == b;
    } else {
      assert (a + b)[1..] == a[1..] + b;
      SerialBitsAppend(SerialBit(c, a[0]), a[1..], b);
    }
  }

  lemma SerialBitXor(x: Word, y: Word, bit: bool)
    ensures SerialBit(Xor(x, y), bit) == Xor(Step(x), SerialBit(y, bit))
  {}

  /** A difference in the register evolves on its own, whatever message is fed. */
  lemma {:induction false} SerialBitsXor(x: Word, y: Word, bs: seq<bool>)
    ensures SerialBits(Xor(x, y), bs) == Xor(Steps(x, |bs|), SerialBits(y, bs))
    decreases |bs|
  {
    if bs != [] {
      SerialBitXor(x, y, bs[0]);
      SerialBitsXor(Step(x), SerialBit(y, bs[0]), bs[1..]);
    }
  }

  /** Up to 32 message bits may be added to the register at once and stepped over afterwards. */
  lemma {:induction false} SerialBitsAtOnce(c: Word, bs: seq<bool>)
    requires |bs| <= 32
    ensures SerialBits(c, bs) == Steps(Xor(c, Pad(bs)), |bs|)
    decreases |bs|
  {
    hide Bits, Step, SerialBit;
    if bs == [] {
      assert Pad(bs) == ZERO;
      XorZero(c);
    } else {
      AtOnceStep(c, bs);
      SerialBitsAtOnce(SerialBit(c, bs[0]), bs[1..]);
    }
  }

  lemma AtOnceStep(c: Word, bs: seq<bool>)
    requires 0 < |bs| <= 32
    ensures Xor(SerialBit(c, bs[0]), Pad(bs[1..])) == Step(Xor(c, Pad(bs)))
  {
    hide Bits;
    var x := Xor(c, Pad(bs));
    assert SerialBit(c, bs[0]) == if x[0] then Xor(ShiftRight(c), POLY) else ShiftRight(c);
    forall i | 0 <= i < 32
      ensures Xor(SerialBit(c, bs[0]), Pad(bs[1..]))[i] == Step(x)[i]
    {}
  }

  lemma {:induction false} MessageBitsAppend(a: seq<byte>, b: seq<byte>)
    ensures MessageBits(a + b) == MessageBits(a) + MessageBits(b)
    decreases |a|
  {
    if a == [] {
      assert a + b == b;
    } else {
      assert (a + b)[1..] == a[1..] + b;
      MessageBitsAppend(a[1..], b);
    }
  }

  lemma FeedAppend(c: Word, a: seq<byte>, b: seq<byte>)
    ensures Feed(c, a + b) == Feed(Feed(c, a), b)
  {
    MessageBitsAppend(a, b);
    SerialBitsAppend(c, MessageBits(a), MessageBits(b));
  }

  /** A digest can be continued: the digest of a + b is the digest of b started from that of a. */
  lemma DigestAppend(crc: Word, a: seq<byte>, b: seq<byte>)
    ensures Digest(Digest(crc, a), b) == Digest(crc, a + b)
  {
    ComplementTwice(Feed(Complement(crc), a));
    FeedAppend(Complement(crc), a, b);
  }

  /** Joining two partial registers: step the first over the length of the second block. */
  lemma FeedJoin(c: Word, a: seq<byte>, b: seq<byte>)
    ensures Feed(c, a + b) == Xor(Steps(Feed(c, a), 8 * |b|), Feed(ZERO, b))
  {
    FeedAppend(c, a, b);
    XorZero(Feed(c, a));
    SerialBitsXor(Feed(c, a), ZERO, MessageBits(b));
  }

  // ----- error detection -----

  lemma {:induction false} MessageBitsInjective(s: seq<byte>, t: seq<byte>)
    requires |s| == |t| && MessageBits(s) == MessageBits(t)
    ensures s == t
    decreases |s|
  {
    if s != [] {
      FirstByte(s);
      FirstByte(t);
      MessageBitsInjective(s[1..], t[1..]);
      assert s == [s[0]] + s[1..] && t == [t[0]] + t[1..];
    }
  }

  lemma FirstByte(s: seq<byte>)
    requires s != []
    ensures Number(MessageBits(s)[..8]) == s[0] && MessageBits(s)[8..] == MessageBits(s[1..])
  {
    hide Bits, Pow2, Number;
    assert MessageBits(s)[..8] == Bits(s[0], 8);
    Pow2Values();
    NumberOfBits(s[0], 8);
  }

  /** Two registers that agree after up to 32 message bits each have seen the same bits. */
  lemma SerialBitsInjective(c: Word, v: seq<bool>, w: seq<bool>)
    requires |v| == |w| <= 32 && SerialBits(c, v) == SerialBits(c, w)
    ensures v == w
  {
    SerialBitsAtOnce(c, v);
    SerialBitsAtOnce(c, w);
    StepsInjective(Xor(c, Pad(v)), Xor(c, Pad(w)), |v|);
    XorCancel(c, Pad(v), Pad(w));
    forall i | 0 <= i < |v|
      ensures v[i] == w[i]
    {
      assert Pad(v)[i] == v[i] && Pad(w)[i] == w[i];
    }
  }

  /** Feeding the same bits to different registers leaves them different. */
  lemma {:induction false} SerialBitsKeepsDifference(x: Word, y: Word, bs: seq<bool>)
    requires SerialBits(x, bs) == SerialBits(y, bs)
    ensures x == y
    decreases |bs|
  {
    if bs != [] {
      SerialBitsKeepsDifference(SerialBit(x, bs[0]), SerialBit(y, bs[0]), bs[1..]);
      SerialBitInjective(x, y, bs[0]);
    }
  }

  lemma SerialBitInjective(x: Word, y: Word, bit: bool)
    requires SerialBit(x, bit) == SerialBit(y, bit)
    ensures x == y
  {
    SerialBitXor(x, ZERO, bit);
    SerialBitXor(y, ZERO, bit);
    XorZero(x);
    XorZero(y);
    XorComm(Step(x), SerialBit(ZERO, bit));
    XorComm(Step(y), SerialBit(ZERO, bit));
    XorCancel(SerialBit(ZERO, bit), Step(x), Step(y));
    StepInjective(x, y);
  }

  /** A burst of at most 32 bits, with p before it and q after it, changes the register. */
  lemma BurstChangesRegister(c: Word, p: seq<bool>, v: seq<bool>, w: seq<bool>, q: seq<bool>)
    requires |v| == |w| <= 32
    requires SerialBits(c, p + (v + q)) == SerialBits(c, p + (w + q))
    ensures v == w
  {
    var r := SerialBits(c, p);
    SerialBitsAppend(c, p, v + q);
    SerialBitsAppend(c, p, w + q);
    SerialBitsAppend(r, v, q);
    SerialBitsAppend(r, w, q);
    SerialBitsKeepsDifference(SerialBits(r, v), SerialBits(r, w), q);
    SerialBitsInjective(r, v, w);
  }

  /** Outside the bits k .. k+31 the two sequences agree. */
  ghost predicate DifferWithin(a: seq<bool>, b: seq<bool>, k: nat) {
    |a| == |b| && forall i :: 0 <= i < |a| && !(k <= i < k + 32) ==> a[i] == b[i]
  }

  lemma SplitAt(a: seq<bool>, b: seq<bool>, k: nat) returns (lo: nat, hi: nat)
    requires DifferWithin(a, b, k)
    ensures lo <= hi <= |a| && hi - lo <= 32
    ensures a[..lo] == b[..lo] && a[hi..] == b[hi..]
    ensures a == a[..lo] + (a[lo..hi] + a[hi..]) && b == b[..lo] + (b[lo..hi] + b[hi..])
  {
    lo := if k < |a| then k else |a|;
    hi := if lo + 32 < |a| then lo + 32 else |a|;
  }

  /** The digest detects every error burst of at most 32 bits, wherever it lies and however long
      the message is. */
  lemma BurstDetected(crc: Word, s: seq<byte>, t: seq<byte>, k: nat)
    requires |s| == |t| && s != t
    requires DifferWithin(MessageBits(s), MessageBits(t), k)
    ensures Digest(crc, s) != Digest(crc, t)
  {
    if Digest(crc, s) == Digest(crc, t) {
      var a, b, c := MessageBits(s), MessageBits(t), Complement(crc);
      ComplementTwice(SerialBits(c, a));
      ComplementTwice(SerialBits(c, b));
      var lo, hi := SplitAt(a, b, k);
      BurstChangesRegister(c, a[..lo], a[lo..hi], b[lo..hi], a[hi..]);
      MessageBitsInjective(s, t);
    }
  }

  // ----- matrices over GF(2) -----

  /** The product of a matrix, given by its rows, and the k lowest coordinates of v: the xor of the
      rows that v selects. */
  function RowSum(m: seq<Word>, v: Word, k: nat): Word
    requires |m| == 32 && k <= 32
    decreases k
  {
    if k == 0 then ZERO
    else if v[k - 1] then Xor(RowSum(m, v, k - 1), m[k - 1])
    else RowSum(m, v, k - 1)
  }

  function Times(m: seq<Word>, v: Word): Word
    requires |m| == 32
  {
    RowSum(m, v, 32)
  }

  /** The matrix of n steps: row i is what becomes of bit i. */
  function StepMatrix(n: nat): (m: seq<Word>)
    ensures |m| == 32
  {
    seq(32, i requires 0 <= i < 32 => Steps(Unit(i), n))
  }

  function Low(v: Word, k: nat): Word
    requires k <= 32
  {
    Pad(v[..k])
  }

  lemma {:induction false} StepsZero(n: nat)
    ensures Steps(ZERO, n) == ZERO
    decreases n
  {
    if n > 0 {
      assert Step(ZERO) == ZERO;
      StepsZero(n - 1);
    }
  }

  lemma LowSucc(v: Word, k: nat)
    requires k < 32
    ensures Low(v, k + 1) == if v[k] then Xor(Low(v, k), Unit(k)) else Low(v, k)
  {}

  lemma {:induction false} RowSumIsSteps(n: nat, v: Word, k: nat)
    requires k <= 32
    ensures RowSum(StepMatrix(n), v, k) == Steps(Low(v, k), n)
    decreases k
  {
    if k == 0 {
      assert Low(v, 0) == ZERO;
      StepsZero(n);
    } else {
      RowSumIsSteps(n, v, k - 1);
      LowSucc(v, k - 1);
      StepsXor(Low(v, k - 1), Unit(k - 1), n);
    }
  }

  /** A matrix whose rows are right for the 32 unit vectors is right for every register. */
  lemma TimesIsSteps(n: nat, v: Word)
    ensures Times(StepMatrix(n), v) == Steps(v, n)
  {
    RowSumIsSteps(n, v, 32);
    assert Low(v, 32) == v;
  }

  function Square(m: seq<Word>): (r: seq<Word>)
    requires |m| == 32
    ensures |r| == 32
  {
    seq(32, i requires 0 <= i < 32 => Times(m, m[i]))
  }

  /** The square of the matrix for n steps is the matrix for 2 * n steps. */
  lemma SquareOfSteps(n: nat)
    ensures Square(StepMatrix(n)) == StepMatrix(2 * n)
  {
    forall i | 0 <= i < 32
      ensures Square(StepMatrix(n))[i] == StepMatrix(2 * n)[i]
    {
      TimesIsSteps(n, StepMatrix(n)[i]);
      StepsAdd(Unit(i), n, n);
    }
  }

  lemma {:induction false} RowSumStops(m: seq<Word>, v: Word, k: nat)
    requires |m| == 32 && k <= 32
    requires forall i :: k <= i < 32 ==> !v[i]
    ensures RowSum(m, v, k) == Times(m, v)
    decreases 32 - k
  {
    if k < 32 {
      RowSumStops(m, v, k + 1);
    }
  }

  /** v after n shifts to the right. */
  function Shifted(v: Word, n: nat): Word
    requires n <= 32
  {
    v[n..] + Zeros(n)
  }

  lemma ShiftedSucc(v: Word, n: nat)
    requires n < 32
    ensures Shifted(v, n)[0] == v[n]
    ensures ShiftRight(Shifted(v, n)) == Shifted(v, n + 1)
  {}

  lemma ShiftedOut(v: Word, n: nat)
    requires n <= 32
    ensures n == 32 ==> Shifted(v, n) == ZERO
    ensures Shifted(v, n) == ZERO ==> forall i :: n <= i < 32 ==> !v[i]
  {
    if Shifted(v, n) == ZERO {
      forall i | n <= i < 32
        ensures !v[i]
      {
        assert Shifted(v, n)[i - n] == v[i];
      }
    }
  }

  /** gf2_matrix_times: walks the rows of mat as long as bits of vec remain. */
  method MatrixTimes(mat: array<Word>, vec: Word) returns (sum: Word)
    requires mat.Length == 32
    ensures sum == Times(mat[..], vec)
  {
    sum := ZERO;
    var v, row := vec, 0;
    assert v == Shifted(vec, 0);
    while v != ZERO
      invariant row <= 32
      invariant v == Shifted(vec, row)
      invariant sum == RowSum(mat[..], vec, row)
      decreases 32 - row
    {
      ShiftedOut(vec, row);
      ShiftedSucc(vec, row);
      if v[0] {
        sum := Xor(sum, mat[row]);
      }
      v := ShiftRight(v);
      row := row + 1;
    }
    ShiftedOut(vec, row);
    RowSumStops(mat[..], vec, row);
  }

  /** gf2_matrix_square: every row of mat goes through mat once more. */
  method MatrixSquare(square: array<Word>, mat: array<Word>)
    requires square != mat && square.Length == mat.Length == 32
    modifies square
    ensures square[..] == Square(mat[..])
  {
    for n := 0 to 32
      invariant forall i :: 0 <= i < n ==> square[i] == Times(mat[..], mat[i])
    {
      square[n] := MatrixTimes(mat, mat[n]);
    }
  }

  // ----- the operator for a run of zero bytes -----

  /** The largest power of two that is at most len, and 1 for len == 0. */
  function PowerBelow(len: nat): (p: nat)
    ensures 0 < p && (len > 0 ==> p <= len < 2 * p)
  {
    if len < 2 then 1 else 2 * PowerBelow(len / 2)
  }

  lemma {:induction false} PowerBelowPower(k: nat)
    ensures PowerBelow(Pow2(k)) == Pow2(k)
    decreases k
  {
    if k > 0 {
      Pow2Step(k);
      PowerBelowPower(k - 1);
    }
  }

  lemma BlocksArePowers()
    ensures PowerBelow(LONG) == LONG && PowerBelow(SHORT) == SHORT
  {
    hide PowerBelow, Pow2;
    Pow2Values();
    Pow2Step(9);
    Pow2Step(10);
    Pow2Step(11);
    Pow2Step(12);
    Pow2Step(13);
    PowerBelowPower(13);
    PowerBelowPower(8);
  }

  /** The operator for one zero bit, as crc32c_zeros_op starts with it. */
  method OneBitOp(odd: array<Word>)
    requires odd.Length == 32
    modifies odd
    ensures odd[..] == StepMatrix(1)
  {
    hide Bits, Steps, StepMatrix;
    odd[0] := POLY;
    var row := Unit(0);
    for n := 1 to 32
      invariant row == Unit(n - 1)
      invariant odd[0] == POLY
      invariant forall i :: 1 <= i < n ==> odd[i] == Unit(i - 1)
    {
      odd[n] := row;
      UnitSucc(n - 1);
      row := ShiftLeft(row);
    }
    OneStepOperator(odd[..]);
  }

  method DoubledOp(square: array<Word>, mat: array<Word>, ghost bits: nat)
    requires square != mat && square.Length == mat.Length == 32
    requires mat[..] == StepMatrix(bits)
    modifies square
    ensures square[..] == StepMatrix(2 * bits)
  {
    SquareOfSteps(bits);
    MatrixSquare(square, mat);
  }

  /** What is left of len asks for a further factor of PowerBelow(left) on bits zero bits. */
  ghost predicate Owed(bits: nat, left: nat, total: nat) {
    bits * PowerBelow(left) == total
  }

  lemma OwedHalved(bits: nat, left: nat, total: nat)
    requires Owed(bits, left, total)
    ensures left / 2 == 0 ==> bits == total
    ensures left / 2 > 0 ==> Owed(2 * bits, left / 2, total)
  {
    if left / 2 > 0 {
      assert bits * (2 * PowerBelow(left / 2)) == (2 * bits) * PowerBelow(left / 2);
    }
  }

  /** crc32c_zeros_op: squares the operator for one zero bit until len is used up. */
  method ZerosOp(even: array<Word>, len: nat)
    requires even.Length == 32
    modifies even
    ensures even[..] == StepMatrix(8 * PowerBelow(len))
  {
    var odd := new Word[32];
    OneBitOp(odd);
    DoubledOp(even, odd, 1);
    DoubledOp(odd, even, 2);

    ghost var total := 8 * PowerBelow(len);
    var left := len;
    ghost var bits: nat := 4;
    while true
      invariant odd[..] == StepMatrix(bits)
      invariant Owed(2 * bits, left, total)
      decreases left
    {
      DoubledOp(even, odd, bits);
      OwedHalved(2 * bits, left, total);
      left := left / 2;
      if left == 0 {
        return;
      }
      DoubledOp(odd, even, 2 * bits);
      OwedHalved(4 * bits, left, total);
      left := left / 2;
      bits := 4 * bits;
      if left == 0 {
        break;
      }
    }
    CopyRows(even, odd);
  }

  method CopyRows(even: array<Word>, odd: array<Word>)
    requires even != odd && even.Length == odd.Length == 32
    modifies even
    ensures even[..] == odd[..]
  {
    for n := 0 to 32
      invariant even[..n] == odd[..n]
    {
      even[n] := odd[n];
    }
  }

  lemma UnitSucc(n: nat)
    ensures ShiftLeft(Unit(n)) == Unit(n + 1)
  {}

  lemma StepOfUnit(i: nat)
    requires i < 32
    ensures Step(Unit(i)) == if i == 0 then POLY else Unit(i - 1)
  {
    hide Bits;
    var s := ShiftRight(Unit(i));
    if i == 0 {
      assert s == ZERO;
      XorZero(POLY);
    } else {
      assert s == Unit(i - 1);
    }
  }

  /** The matrix with row 0 the polynomial and row n + 1 the n-th unit vector makes one step. */
  lemma OneStepOperator(m: seq<Word>)
    requires |m| == 32 && m[0] == POLY
    requires forall i :: 1 <= i < 32 ==> m[i] == Unit(i - 1)
    ensures m == StepMatrix(1)
  {
    forall i | 0 <= i < 32
      ensures m[i] == StepMatrix(1)[i]
    {
      StepOfUnit(i);
      assert Steps(Unit(i), 1) == Step(Unit(i));
    }
  }

  // ----- the byte-wise shift tables -----

  /** The byte n at byte position k of a word: n << 8 * k. */
  function ByteAt(n: byte, k: nat): Word
    requires k < 4
  {
    Pad(Zeros(8 * k) + Bits(n, 8))
  }

  /** Byte k of a word: (w >> 8 * k) & 0xff. */
  function ByteOf(w: Word, k: nat): byte
    requires k < 4
  {
    BitsOfNumber(w[8 * k..8 * k + 8]);
    Pow2Values();
    Number(w[8 * k..8 * k + 8])
  }

  /** The four tables of zeros step a register over n zero bits, one byte of it each. */
  ghost predicate ShiftTable(zeros: array2<Word>, n: nat)
    reads zeros
  {
    zeros.Length0 == 4 && zeros.Length1 == 256 &&
    forall k: nat, b: byte :: k < 4 ==> zeros[k, b] == Steps(ByteAt(b, k), n)
  }

  /** crc32c_zeros */
  method FillZeros(zeros: array2<Word>, len: nat)
    requires zeros.Length0 == 4 && zeros.Length1 == 256
    modifies zeros
    ensures ShiftTable(zeros, 8 * PowerBelow(len))
  {
    hide Steps, StepMatrix, ByteAt, PowerBelow;
    var op := new Word[32];
    ZerosOp(op, len);
    ghost var rows, bits := op[..], 8 * PowerBelow(len);
    for n := 0 to 256
      invariant op[..] == rows
      invariant forall k: nat, b: byte :: k < 4 && b < n ==> zeros[k, b] == Steps(ByteAt(b, k), bits)
    {
      var e0 := Entry(op, n, 0, bits);
      var e1 := Entry(op, n, 1, bits);
      var e2 := Entry(op, n, 2, bits);
      var e3 := Entry(op, n, 3, bits);
      zeros[0, n], zeros[1, n], zeros[2, n], zeros[3, n] := e0, e1, e2, e3;
    }
  }

  method Entry(op: array<Word>, n: byte, k: nat, ghost bits: nat) returns (w: Word)
    requires op.Length == 32 && k < 4 && op[..] == StepMatrix(bits)
    ensures w == Steps(ByteAt(n, k), bits)
  {
    w := MatrixTimes(op, ByteAt(n, k));
    TimesIsSteps(bits, ByteAt(n, k));
  }

  /** crc32c_shift */
  function Shift(zeros: array2<Word>, crc: Word): Word
    requires zeros.Length0 == 4 && zeros.Length1 == 256
    reads zeros
  {
    Xor(
      Xor(Xor(zeros[0, ByteOf(crc, 0)], zeros[1, ByteOf(crc, 1)]), zeros[2, ByteOf(crc, 2)]),
      zeros[3, ByteOf(crc, 3)])
  }

  lemma ByteAtOfByte(w: Word, k: nat)
    requires k < 4
    ensures forall i :: 0 <= i < 32 ==> ByteAt(ByteOf(w, k), k)[i] == (8 * k <= i < 8 * k + 8 && w[i])
  {
    hide Bits, Number;
    var bs := w[8 * k..8 * k + 8];
    BitsOfNumber(bs);
    hide ByteOf;
    PaddedAt(bs, 8 * k);
  }

  lemma PaddedAt(bs: seq<bool>, at: nat)
    requires at + |bs| <= 32
    ensures forall i :: 0 <= i < 32 ==> Pad(Zeros(at) + bs)[i] == (at <= i < at + |bs| && bs[i - at])
  {}

  lemma WordOfBytes(w: Word)
    ensures
      var b0, b1 := ByteAt(ByteOf(w, 0), 0), ByteAt(ByteOf(w, 1), 1);
      var b2, b3 := ByteAt(ByteOf(w, 2), 2), ByteAt(ByteOf(w, 3), 3);
      w == Xor(Xor(Xor(b0, b1), b2), b3)
  {
    ByteAtOfByte(w, 0);
    ByteAtOfByte(w, 1);
    ByteAtOfByte(w, 2);
    ByteAtOfByte(w, 3);
  }

  /** The four table lookups together step the whole register. */
  lemma ShiftIsSteps(zeros: array2<Word>, n: nat, crc: Word)
    requires ShiftTable(zeros, n)
    ensures Shift(zeros, crc) == Steps(crc, n)
  {
    var b0, b1 := ByteAt(ByteOf(crc, 0), 0), ByteAt(ByteOf(crc, 1), 1);
    var b2, b3 := ByteAt(ByteOf(crc, 2), 2), ByteAt(ByteOf(crc, 3), 3);
    WordOfBytes(crc);
    StepsXor(Xor(Xor(b0, b1), b2), b3, n);
    StepsXor(Xor(b0, b1), b2, n);
    StepsXor(b0, b1, n);
  }

  // ----- the instructions -----

  /** crc32b: a byte is added to the low bits of the register, which then makes eight steps. */
  function Crc32b(reg: Word, b: byte): Word {
    Steps(Xor(reg, Pad(Bits(b, 8))), 8)
  }

  /** crc32b for one byte after the other. */
  function Crc32bs(reg: Word, s: seq<byte>): Word
    decreases |s|
  {
    if s == [] then reg else Crc32bs(Crc32b(reg, s[0]), s[1..])
  }

  /** crc32q: eight bytes, in memory order. */
  function Crc32q(reg: Word, s: seq<byte>): Word
    requires |s| == 8
  {
    Crc32bs(reg, s)
  }

  lemma Crc32bIsFeed(reg: Word, b: byte)
    ensures Crc32b(reg, b) == Feed(reg, [b])
  {
    assert MessageBits([b]) == Bits(b, 8);
    SerialBitsAtOnce(reg, Bits(b, 8));
  }

  lemma {:induction false} Crc32bsIsFeed(reg: Word, s: seq<byte>)
    ensures Crc32bs(reg, s) == Feed(reg, s)
    decreases |s|
  {
    if s != [] {
      Crc32bIsFeed(reg, s[0]);
      Crc32bsIsFeed(Crc32b(reg, s[0]), s[1..]);
      assert s == [s[0]] + s[1..];
      FeedAppend(reg, [s[0]], s[1..]);
    }
  }

  // ----- the fast digest -----

  const LONG: nat := 8192
  const SHORT: nat := 256

  lemma FeedNothing(c: Word, s: seq<byte>, lo: nat)
    requires lo <= |s|
    ensures Feed(c, s[lo..lo]) == c
  {
    assert s[lo..lo] == [];
  }

  lemma DigestNothing(crc: Word)
    ensures Digest(crc, []) == crc
  {
    ComplementTwice(crc);
  }

  lemma FeedSlice(c: Word, s: seq<byte>, lo: nat, mid: nat, hi: nat)
    requires lo <= mid <= hi <= |s|
    ensures Feed(Feed(c, s[lo..mid]), s[mid..hi]) == Feed(c, s[lo..hi])
  {
    hide Feed;
    assert s[lo..mid] + s[mid..hi] == s[lo..hi];
    FeedAppend(c, s[lo..mid], s[mid..hi]);
  }

  /** crc32q on the eight bytes at next; the register has taken s[lo..next] since it was c. */
  method Take8(s: seq<byte>, next: nat, reg: Word, ghost c: Word, ghost lo: nat) returns (r: Word)
    requires lo <= next && next + 8 <= |s|
    requires reg == Feed(c, s[lo..next])
    ensures r == Feed(c, s[lo..next + 8])
  {
    r := Crc32q(reg, s[next..next + 8]);
    Crc32bsIsFeed(reg, s[next..next + 8]);
    FeedSlice(c, s, lo, next, next + 8);
  }

  /** crc32b on the byte at next. */
  method Take1(s: seq<byte>, next: nat, reg: Word, ghost c: Word) returns (r: Word)
    requires next < |s|
    requires reg == Feed(c, s[..next])
    ensures r == Feed(c, s[..next + 1])
  {
    r := Crc32b(reg, s[next]);
    Crc32bIsFeed(reg, s[next]);
    assert s[next..next + 1] == [s[next]];
    FeedSlice(c, s, 0, next, next + 1);
  }

  /** Two registers over adjacent blocks, the second started from zero, make one. */
  lemma JoinSlices(c: Word, s: seq<byte>, lo: nat, mid: nat, hi: nat)
    requires lo <= mid <= hi <= |s|
    ensures Xor(Steps(Feed(c, s[lo..mid]), 8 * (hi - mid)), Feed(ZERO, s[mid..hi])) == Feed(c, s[lo..hi])
  {
    hide Feed, Steps;
    assert s[lo..mid] + s[mid..hi] == s[lo..hi];
    FeedJoin(c, s[lo..mid], s[mid..hi]);
  }

  /** The tables are static arrays of crc32c.c. */
  class Engine {
    const longTable: array2<Word>
    const shortTable: array2<Word>

    ghost predicate Ready()
      reads longTable, shortTable
    {
      ShiftTable(longTable, 8 * LONG) && ShiftTable(shortTable, 8 * SHORT)
    }

    constructor ()
      ensures fresh(longTable) && fresh(shortTable) && longTable != shortTable
      ensures longTable.Length0 == shortTable.Length0 == 4 && longTable.Length1 == shortTable.Length1 == 256
    {
      longTable := new Word[4, 256];
      shortTable := new Word[4, 256];
    }

    /** crc32c_init */
    method Init()
      requires longTable != shortTable
      requires longTable.Length0 == shortTable.Length0 == 4 && longTable.Length1 == shortTable.Length1 == 256
      modifies longTable, shortTable
      ensures Ready()
    {
      hide PowerBelow, ShiftTable;
      BlocksArePowers();
      FillZeros(longTable, LONG);
      FillZeros(shortTable, SHORT);
    }

    /** The inner loop: three interleaved registers over three adjacent blocks. */
    method ThreeRegisters(block: nat, crc: Word, s: seq<byte>, start: nat) returns (crc0: Word, crc1: Word, crc2: Word)
      requires block > 0 && block % 8 == 0 && start + 3 * block <= |s|
      ensures crc0 == Feed(crc, s[start..start + block])
      ensures crc1 == Feed(ZERO, s[start + block..start + 2 * block])
      ensures crc2 == Feed(ZERO, s[start + 2 * block..start + 3 * block])
    {
      hide Feed;
      crc0, crc1, crc2 := crc, ZERO, ZERO;
      var next, end := start, start + block;
      FeedNothing(crc, s, start);
      FeedNothing(ZERO, s, end);
      FeedNothing(ZERO, s, end + block);
      while next < end
        invariant start <= next <= end && (end - next) % 8 == 0
        invariant crc0 == Feed(crc, s[start..next])
        invariant crc1 == Feed(ZERO, s[end..next + block])
        invariant crc2 == Feed(ZERO, s[end + block..next + 2 * block])
      {
        crc0 := Take8(s, next, crc0, crc, start);
        crc1 := Take8(s, next + block, crc1, ZERO, end);
        crc2 := Take8(s, next + 2 * block, crc2, ZERO, end + block);
        next := next + 8;
      }
    }

    /** One round of a block loop: three registers, joined through the shift table. */
    method ThreeBlocks(table: array2<Word>, block: nat, crc: Word, s: seq<byte>, start: nat) returns (r: Word)
      requires table.Length0 == 4 && table.Length1 == 256 && ShiftTable(table, 8 * block)
      requires block > 0 && block % 8 == 0 && start + 3 * block <= |s|
      ensures r == Feed(crc, s[start..start + 3 * block])
    {
      hide Feed, ShiftTable, Shift;
      var crc0, crc1, crc2 := ThreeRegisters(block, crc, s, start);
      ShiftIsSteps(table, 8 * block, crc0);
      JoinSlices(crc, s, start, start + block, start + 2 * block);
      crc0 := Xor(Shift(table, crc0), crc1);
      ShiftIsSteps(table, 8 * block, crc0);
      JoinSlices(crc, s, start, start + 2 * block, start + 3 * block);
      r := Xor(Shift(table, crc0), crc2);
    }

    /** crc32c: addr is the address of the buffer, whose distance to an eight-byte boundary decides
        how many bytes the first loop takes. */
    method Compute(crc: Word, buf: array?<byte>, length: nat, addr: nat) returns (digest: Word)
      requires Ready()
      requires buf != null ==> length <= buf.Length
      ensures digest == Digest(crc, if buf == null then [] else buf[..length])
    {
      hide Feed;
      if length == 0 || buf == null {
        DigestNothing(crc);
        assert buf != null ==> buf[..length] == [];
        return crc;
      }
      var crc0 := Complement(crc);
      var next, len := 0, length;
      var s := buf[..length];
      ghost var c := crc0;
      FeedNothing(c, s, 0);
      while len != 0 && (addr + next) % 8 != 0
        invariant 0 <= next <= length && next + len == length
        invariant crc0 == Feed(c, s[..next])
        decreases len
      {
        crc0 := Take1(s, next, crc0, c);
        next := next + 1;
        len := len - 1;
      }
      while len >= 3 * LONG
        invariant 0 <= next <= length && next + len == length
        invariant crc0 == Feed(c, s[..next])
        decreases len
      {
        FeedSlice(c, s, 0, next, next + 3 * LONG);
        crc0 := ThreeBlocks(longTable, LONG, crc0, s, next);
        next := next + 3 * LONG;
        len := len - 3 * LONG;
      }
      while len >= 3 * SHORT
        invariant 0 <= next <= length && next + len == length
        invariant crc0 == Feed(c, s[..next])
        decreases len
      {
        FeedSlice(c, s, 0, next, next + 3 * SHORT);
        crc0 := ThreeBlocks(shortTable, SHORT, crc0, s, next);
        next := next + 3 * SHORT;
        len := len - 3 * SHORT;
      }
      var end := next + (len - len % 8);
      while next < end
        invariant 0 <= next <= end <= length && (end - next) % 8 == 0
        invariant crc0 == Feed(c, s[..next])
      {
        crc0 := Take8(s, next, crc0, c, 0);
        next := next + 8;
      }
      len := len % 8;
      while len != 0
        invariant 0 <= next <= length && next + len == length
        invariant crc0 == Feed(c, s[..next])
        decreases len
      {
        crc0 := Take1(s, next, crc0, c);
        next := next + 1;
        len := len - 1;
      }
      digest := Complement(crc0);
      assert s[..next] == s;
    }
  }
}
