/** What the header and data digests of PDUs detect, and what they do not. */
module PduDigests {
  import opened Words
  import opened Hba
  import opened PduFraming
  import Crc32c
  import DigestLimits

  // ----- corrupted headers and segments -----

  /** With data digests, every error burst of at most 32 bits in a data segment of any length is
      rejected, whatever the padding holds. */
  lemma CorruptDataRejected(d: Digests, data: seq<byte>, got: seq<byte>, k: nat, padding: seq<byte>,
      tail: seq<byte>, before: seq<byte>)
    requires d.data && |got| == |data| == |before| && got != data
    requires Crc32c.DifferWithin(Crc32c.MessageBits(data), Crc32c.MessageBits(got), k)
    requires |padding| == |Padding(|data|)|
    ensures TakeData(d, |got|, got + padding + WordBytes(Checksum(data)) + tail, before).error == EIO
  {
    hide WordOf, WordBytes, Padding, Crc32c.Digest, Crc32c.DifferWithin, Crc32c.MessageBits;
    var w := WordBytes(Checksum(data));
    var stream := got + padding + w + tail;
    var size := SegmentSize(d, |got|);
    assert stream[size - 4..size] == w && stream[..|got|] + before[|got|..] == got;
    WordRoundTrip(Checksum(data));
    Crc32c.BurstDetected(ZERO, data, got, k);
  }

  /** A header is accepted exactly when its digest is right or is zero: zero is taken to mean that
      there is no digest. */
  lemma HeaderAcceptedIff(d: Digests, header: seq<byte>, digest: Word, tail: seq<byte>)
    requires d.header && |header| == HEADER_SIZE
    ensures
      TakeHeader(d, header + WordBytes(digest) + tail).error == Ok <==>
      digest == Checksum(header) || digest == ZERO
  {
    hide WordOf, WordBytes, Checksum;
    var w := WordBytes(digest);
    var stream := header + w + tail;
    assert stream[..HEADER_SIZE] == header && stream[HEADER_SIZE..HEADER_SIZE + 4] == w;
    WordRoundTrip(digest);
  }

  /** With header digests, a header with such a burst is rejected exactly when the digest that came
      with it is not zero: a zero digest switches the comparison off. */
  lemma CorruptHeaderRejected(d: Digests, header: seq<byte>, got: seq<byte>, k: nat, tail: seq<byte>)
    requires d.header && |got| == |header| == HEADER_SIZE && got != header
    requires Crc32c.DifferWithin(Crc32c.MessageBits(header), Crc32c.MessageBits(got), k)
    ensures TakeHeader(d, got + WordBytes(Checksum(header)) + tail).error == EIO <==> Checksum(header) != ZERO
  {
    hide Crc32c.Digest, Crc32c.DifferWithin, Crc32c.MessageBits, TakeHeader, WordBytes;
    HeaderAcceptedIff(d, got, Checksum(header), tail);
    HeaderErrors(d, got + WordBytes(Checksum(header)) + tail);
    Crc32c.BurstDetected(ZERO, header, got, k);
  }

  lemma HeaderErrors(d: Digests, stream: seq<byte>)
    ensures TakeHeader(d, stream).error == Ok || TakeHeader(d, stream).error == EIO
  {}

  /** Whatever a message begins with, four more bytes can be chosen that make its digest any word w. */
  lemma MessageWithDigest(start: seq<byte>, w: Word) returns (message: seq<byte>)
    ensures |message| == |start| + 4 && message[..|start|] == start && Checksum(message) == w
  {
    hide Crc32c.Feed, Bits, DigestLimits.StepsBack, WordOf, WordBytes;
    var c := Crc32c.Feed(Complement(ZERO), start);
    var filler := DigestLimits.Filler(c, Complement(w));
    DigestLimits.FillerWorks(c, Complement(w));
    var last := WordBytes(filler);
    MessageBitsOfWord(filler);
    message := start + last;
    Crc32c.FeedAppend(Complement(ZERO), start, last);
    FeedBits(c, last);
    ComplementTwice(w);
  }

  lemma FeedBits(c: Word, s: seq<byte>)
    ensures Crc32c.Feed(c, s) == Crc32c.SerialBits(c, Crc32c.MessageBits(s))
  {}

  lemma MessageBitsOfWord(w: Word)
    ensures Crc32c.MessageBits(WordBytes(w)) == w
  {
    hide Crc32c.MessageBits, WordBytes;
    WordRoundTrip(w);
    var bits := Crc32c.MessageBits(WordBytes(w));
    assert |bits| == 32 && Pad(bits) == bits;
  }

  /** Among the headers that start in any given way there is one with digest zero: with header digests,
      every corrupted copy of it is accepted. */
  lemma UnprotectedHeader(start: seq<byte>) returns (header: seq<byte>)
    requires |start| == HEADER_SIZE - 4
    ensures |header| == HEADER_SIZE && header[..HEADER_SIZE - 4] == start && Checksum(header) == ZERO
    ensures forall got: seq<byte>, d: Digests, tail: seq<byte> :: d.header && |got| == HEADER_SIZE ==>
      TakeHeader(d, got + WordBytes(Checksum(header)) + tail).error == Ok
  {
    hide Crc32c.Digest, WordBytes, TakeHeader;
    header := MessageWithDigest(start, ZERO);
    forall got: seq<byte>, d: Digests, tail: seq<byte> | d.header && |got| == HEADER_SIZE
      ensures TakeHeader(d, got + WordBytes(Checksum(header)) + tail).error == Ok
    {
      HeaderAcceptedIff(d, got, ZERO, tail);
    }
  }

  // ----- digests of particular messages -----

  /** A message followed by its own digest has one and the same digest, whatever the message is: the
      property by which receivers check a digest without computing it separately. */
  lemma DigestChecksItself(s: seq<byte>)
    ensures Checksum(s + WordBytes(Checksum(s))) == Checksum([0, 0, 0, 0])
  {
    hide WordBytes, Crc32c.MessageBits, Crc32c.Steps, Crc32c.SerialBits, Bits;
    var d := Checksum(s);
    Crc32c.DigestAppend(ZERO, s, WordBytes(d));
    MessageBitsOfWord(d);
    FeedWord(Complement(d), WordBytes(d), d);
    assert Xor(Complement(d), d) == Complement(ZERO);
    DigestOfZeroBytes([0, 0, 0, 0]);
    ComplementTwice(Checksum([0, 0, 0, 0]));
  }

  lemma FeedWord(c: Word, s: seq<byte>, w: Word)
    requires Crc32c.MessageBits(s) == w
    ensures Crc32c.Feed(c, s) == Crc32c.Steps(Xor(c, w), 32)
  {
    hide Crc32c.MessageBits, Crc32c.Steps, Crc32c.SerialBits, Bits;
    Crc32c.SerialBitsAtOnce(c, w);
    assert Pad(w) == w;
  }

  /** The digest of nothing is zero, and the digest of a message is that of its second part started
      from that of its first. */
  lemma ChecksumInParts(a: seq<byte>, b: seq<byte>)
    ensures Checksum([]) == Bits(0, 32)
    ensures Checksum(a + b) == Crc32c.Digest(Checksum(a), b)
  {
    hide Crc32c.Digest, Bits;
    Crc32c.DigestAppend(ZERO, a, b);
    DigestOfNothing(ZERO);
    DigestLimits.BitsOfZero(32);
  }

  lemma DigestOfNothing(crc: Word)
    ensures Crc32c.Digest(crc, []) == crc
  {
    FeedOfNothing(Complement(crc));
    ComplementTwice(crc);
  }

  /** The digest of the bytes ff ff ff 7f is 0x7d09c487. */
  lemma KnownDigest()
    ensures Checksum([0xff, 0xff, 0xff, 0x7f]) == Bits(0x7d09_c487, 32)
  {
    hide Bits, Crc32c.MessageBits, Crc32c.Steps, Crc32c.SerialBits, Pow2;
    var s, w := [0xff, 0xff, 0xff, 0x7f], Complement(Unit(31));
    BitsOfSevenOnes();
    FourBytes(0xff, 0xff, 0xff, 0x7f);
    assert Crc32c.MessageBits(s) == w;
    FeedWord(Complement(ZERO), s, w);
    assert Xor(Complement(ZERO), w) == Unit(31);
    Crc32c.StepsAdd(Unit(31), 31, 1);
    StepsOfUnit(31);
    Crc32c.StepOfUnit(0);
    OneStep(Unit(0));
    Pow2Values();
    ComplementOfBits(0x82f6_3b78, 32);
  }

  lemma BitsOfSevenOnes()
    ensures Bits(0xff, 8) == [true, true, true, true, true, true, true, true]
    ensures Bits(0x7f, 8) == [true, true, true, true, true, true, true, false]
  {
    hide Bits;
    BitsOfDigit(0xff, 4);
    BitsOfDigit(0xf, 0);
    BitsOfDigit(0x7f, 4);
    BitsOfDigit(0x7, 0);
    NoBits();
  }

  lemma NoBits()
    ensures Bits(0, 0) == []
  {}

  lemma OneStep(c: Word)
    ensures Crc32c.Steps(c, 1) == Crc32c.Step(c)
  {
    assert Crc32c.Steps(Crc32c.Step(c), 0) == Crc32c.Step(c);
  }

  lemma {:induction false} StepsOfUnit(k: nat)
    requires k < 32
    ensures Crc32c.Steps(Unit(k), k) == Unit(0)
  {
    hide Bits, Crc32c.Step;
    if k > 0 {
      Crc32c.StepOfUnit(k);
      StepsOfUnit(k - 1);
    }
  }

  // ----- the reader that follows the standard -----

  /** It takes a header exactly when its digest is right and no additional segments are announced. */
  lemma StandardHeaderIff(d: Digests, header: seq<byte>, digest: Word, tail: seq<byte>)
    requires |header| == HEADER_SIZE
    ensures
      var h := HeaderBy(Standard, d, header + (if d.header then WordBytes(digest) else []) + tail);
      (h.error == Ok <==> (d.header ==> digest == Checksum(header)) && header[4] == 0) &&
      h.bytes == header && h.rest == tail
  {
    hide WordOf, WordBytes, Checksum;
    var w := if d.header then WordBytes(digest) else [];
    var stream := header + w + tail;
    assert stream[..HEADER_SIZE] == header && stream[HEADER_SIZE..HEADER_SIZE + |w|] == w;
    assert stream[HEADER_SIZE + |w|..] == tail;
    WordRoundTrip(digest);
  }

  /** It takes data exactly when the digest over data and padding is right. */
  lemma StandardDataIff(d: Digests, data: seq<byte>, digest: Word, tail: seq<byte>)
    ensures
      var stream := data + Padding(|data|) + (if d.data then WordBytes(digest) else []) + tail;
      SegmentSize(d, |data|) <= |stream| &&
      var t := DataBy(Standard, d, |data|, stream);
      (t.error == Ok <==> (d.data ==> digest == PaddedChecksum(data))) && t.bytes == data && t.rest == tail
  {
    hide WordOf, WordBytes, Checksum;
    var w := if d.data then WordBytes(digest) else [];
    var stream := data + Padding(|data|) + w + tail;
    ThreeParts(data, Padding(|data|), w, tail);
    WordRoundTrip(digest);
  }

  // ----- headers and segments that have only partly arrived -----

  /** A digest of which only the bytes part have arrived is right when the others are zero. */
  lemma WordOfPart(part: seq<byte>, w: Word)
    requires |part| <= 4
    ensures WordOf(part) == w <==> WordBytes(w) == part + NoBytes(4 - |part|)
  {
    hide Bits, WordBytes, Crc32c.MessageBits;
    var zeros := NoBytes(4 - |part|);
    var full := part + zeros;
    Crc32c.MessageBitsAppend(part, zeros);
    DigestLimits.MessageZeros(zeros);
    var bits, low := Crc32c.MessageBits(full), Crc32c.MessageBits(part);
    assert bits == low + Zeros(8 * |zeros|);
    assert Pad(bits) == bits && Pad(low) == bits;
    MessageBitsOfWord(w);
    if WordOf(part) == w {
      Crc32c.MessageBitsInjective(full, WordBytes(w));
    }
  }

  lemma NoWord()
    ensures WordBytes(ZERO) == NoBytes(4) && WordOf([]) == ZERO
  {
    hide WordBytes;
    assert Pad(Crc32c.MessageBits([])) == ZERO;
    assert [] + NoBytes(4) == NoBytes(4);
    WordOfPart([], ZERO);
  }

  /** With header digests, a header whose digest has not arrived as a whole is accepted exactly when the
      part of it that has arrived is zero, or when it is right and the rest of the right digest is zero.
      In particular it is accepted when nothing of the digest has arrived; what arrives of it later is
      taken for data or for the next header. */
  lemma ShortHeaderAcceptedIff(d: Digests, header: seq<byte>, part: seq<byte>)
    requires d.header && |header| == HEADER_SIZE && |part| < 4
    ensures
      var t := TakeHeader(d, header + part);
      t.bytes == header && t.rest == [] &&
      (t.error == Ok <==>
        part == NoBytes(|part|) || WordBytes(Checksum(header)) == part + NoBytes(4 - |part|))
  {
    hide WordOf, WordBytes, Checksum;
    var stream := header + part;
    assert stream[..HEADER_SIZE] == header && stream[HEADER_SIZE..|stream|] == part;
    assert part == [] ==> part == NoBytes(|part|);
    WordOfPart(part, ZERO);
    WordOfPart(part, Checksum(header));
    NoWord();
    ZeroParts(part);
  }

  lemma ZeroParts(part: seq<byte>)
    requires |part| <= 4
    ensures NoBytes(4) == part + NoBytes(4 - |part|) <==> part == NoBytes(|part|)
  {
    if NoBytes(4) == part + NoBytes(4 - |part|) {
      forall i | 0 <= i < |part|
        ensures part[i] == 0
      {
        assert (part + NoBytes(4 - |part|))[i] == part[i];
      }
    }
  }

  /** What lies in the caller's buffer after a segment that has only partly arrived, and the part of the
      digest that has arrived. */
  function Buffered(length: nat, stream: seq<byte>, before: seq<byte>): seq<byte>
    requires |before| == length
  {
    stream[..Min(|stream|, length)] + before[Min(|stream|, length)..]
  }

  function DigestPart(length: nat, stream: seq<byte>): seq<byte> {
    stream[Min(|stream|, length + |Padding(length)|)..]
  }

  /** A segment that has only partly arrived is accepted exactly when data digests are off, or the digest
      of what lies in the buffer starts with what has arrived of a digest and is zero from there on.  So if
      nothing of the digest has arrived, it is refused exactly when the digest of the buffer is not zero. */
  lemma ShortSegmentAcceptedIff(d: Digests, length: nat, stream: seq<byte>, before: seq<byte>)
    requires |before| == length && |stream| < SegmentSize(d, length)
    ensures
      var t, part := TakeData(d, length, stream, before), DigestPart(length, stream);
      t.bytes == Buffered(length, stream, before) && t.rest == [] && |part| < 4 &&
      (t.error == Ok <==> !d.data || WordBytes(Checksum(t.bytes)) == part + NoBytes(4 - |part|)) &&
      (part == [] ==> (t.error == EIO <==> d.data && Checksum(t.bytes) != ZERO))
  {
    hide WordOf, WordBytes, Checksum;
    var part := DigestPart(length, stream);
    var size := Min(|stream|, SegmentSize(d, length));
    assert stream[Min(size, length + |Padding(length)|)..size] == part;
    assert Min(size, length) == Min(|stream|, length);
    var bytes := Buffered(length, stream, before);
    WordOfPart(part, Checksum(bytes));
    NoWord();
  }

  /** Among the segments that start in any given way there is one that is accepted although nothing of its
      digest has arrived. */
  lemma UnprotectedSegment(start: seq<byte>) returns (data: seq<byte>)
    ensures |data| == |start| + 4 && data[..|start|] == start
    ensures forall d: Digests, before: seq<byte> :: |before| == |data| && |data| < SegmentSize(d, |data|) ==>
      TakeData(d, |data|, data, before).error == Ok
  {
    hide Crc32c.Digest, TakeData, SegmentSize, WordBytes;
    data := MessageWithDigest(start, ZERO);
    assert data[..|data|] == data;
    forall d: Digests, before: seq<byte> | |before| == |data| && |data| < SegmentSize(d, |data|)
      ensures TakeData(d, |data|, data, before).error == Ok
    {
      ShortSegmentAcceptedIff(d, |data|, data, before);
      assert Buffered(|data|, data, before) == data;
      DataErrors(d, |data|, data, before);
    }
  }

  lemma DataErrors(d: Digests, length: nat, stream: seq<byte>, before: seq<byte>)
    requires |before| == length
    ensures TakeData(d, length, stream, before).error == Ok || TakeData(d, length, stream, before).error == EIO
  {}

  // ----- the padding -----

  /** The two digests that up to three zero bytes behind the data do not change: 0xffffffff and
      0x035bd250, the complements of the registers that zero bytes leave alone. */
  predicate Indifferent(digest: Word) {
    DigestLimits.Unmoved(Complement(digest))
  }

  /** The digest that SendPDU sends, over the data alone, is the one that the standard asks for exactly
      when the data needs no padding or has one of two digests. */
  lemma PaddingCoveredIff(data: seq<byte>)
    ensures PaddedChecksum(data) == Checksum(data) <==> |data| % 4 == 0 || Indifferent(Checksum(data))
  {
    hide Crc32c.Digest, DigestLimits.Unmoved;
    DigestLimits.DigestOfZeros(ZERO, data, Padding(|data|));
  }

  /** A data segment whose digest is the same with and without the padding. */
  predicate Agrees(d: Digests, data: seq<byte>) {
    !d.data || |data| % 4 == 0 || Indifferent(Checksum(data))
  }

  /** A peer that follows the standard reads what was sent exactly when it fits, the digests agree and no
      header announces additional segments. */
  lemma ReadByStandardIff(d: Digests, pdus: seq<Pdu>)
    ensures
      AllRead(Standard, d, pdus) <==>
      AllFit(pdus) && forall k :: 0 <= k < |pdus| ==> Agrees(d, pdus[k].data) && pdus[k].bhs.totalAHSLength == 0
  {
    hide PaddedChecksum, Crc32c.Digest, Indifferent, Encode;
    forall k | 0 <= k < |pdus|
      ensures
        Reads(Standard, d, pdus[k]) <==>
        Fits(pdus[k]) && Agrees(d, pdus[k].data) && pdus[k].bhs.totalAHSLength == 0
    {
      PaddingCoveredIff(pdus[k].data);
      HeaderRoundTrip(pdus[k].bhs);
    }
  }

  lemma IndifferentDigests()
    ensures Complement(ZERO) == Bits(0xffff_ffff, 32)
    ensures Complement(DigestLimits.FIXED) == Bits(0x035b_d250, 32)
  {
    hide Bits, Pow2;
    Pow2Values();
    ComplementOfBits(0, 32);
    ComplementOfBits(0xfca42daf, 32);
    DigestLimits.BitsOfZero(32);
  }

  lemma {:induction false} ComplementOfBits(n: nat, k: nat)
    requires n < Pow2(k)
    ensures forall i :: 0 <= i < k ==> Bits(Pow2(k) - 1 - n, k)[i] == !Bits(n, k)[i]
    decreases k
  {
    if k > 0 {
      Pow2Step(k);
      ComplementOfBits(n / 2, k - 1);
      var m := Pow2(k) - 1 - n;
      assert m % 2 == 1 - n % 2 && m / 2 == Pow2(k - 1) - 1 - n / 2;
    }
  }

  /** A data segment as a target that follows the standard sends it. */
  function ConformingSegment(d: Digests, data: seq<byte>): seq<byte> {
    if data == [] then []
    else data + Padding(|data|) + (if d.data then WordBytes(PaddedChecksum(data)) else [])
  }

  /** RecvPDUData accepts a conforming segment exactly when data digests are off, or the segment needs no
      padding, or has one of the two digests; any other one it refuses with EIO. */
  lemma ConformingSegmentAcceptedIff(d: Digests, data: seq<byte>, tail: seq<byte>, before: seq<byte>)
    requires data != [] && |before| == |data|
    ensures
      var t := TakeData(d, |data|, ConformingSegment(d, data) + tail, before);
      t.bytes == data && t.rest == tail && t.error == if Agrees(d, data) then Ok else EIO
  {
    hide Crc32c.Digest, WordBytes, WordOf, Indifferent;
    var stream := ConformingSegment(d, data) + tail;
    var size := SegmentSize(d, |data|);
    assert stream[..|data|] + before[|data|..] == data;
    assert stream[size..] == tail;
    if d.data {
      assert stream[size - 4..size] == WordBytes(PaddedChecksum(data));
      WordRoundTrip(PaddedChecksum(data));
      PaddingCoveredIff(data);
    }
  }

  /** Data of nothing but zeros that needs padding never has one of the two digests. */
  lemma ZerosDisagree(d: Digests, data: seq<byte>)
    requires d.data && |data| % 4 != 0 && forall i :: 0 <= i < |data| ==> data[i] == 0
    ensures !Agrees(d, data) && PaddedChecksum(data) != Checksum(data)
  {
    hide Crc32c.Digest, Crc32c.Steps, PaddedChecksum, DigestLimits.Unmoved;
    var ones, n := Complement(ZERO), 8 * |data|;
    OnesMove();
    DigestOfZeroBytes(data);
    var r := Complement(Checksum(data));
    if Indifferent(Checksum(data)) {
      DigestLimits.UnmovedStays(r, n);
      Crc32c.StepsInjective(ones, r, n);
      assert false;
    }
    PaddingCoveredIff(data);
  }

  /** One zero byte is such a segment: its conforming form is refused. */
  lemma UnalignedSegmentRefused(d: Digests, tail: seq<byte>, before: seq<byte>)
    requires d.data && |before| == 1
    ensures PaddedChecksum([0]) != Checksum([0])
    ensures TakeData(d, 1, ConformingSegment(d, [0]) + tail, before).error == EIO
  {
    hide Crc32c.Digest, TakeData, ConformingSegment, PaddedChecksum, Indifferent;
    ZerosDisagree(d, [0]);
    ConformingSegmentAcceptedIff(d, [0], tail, before);
  }

  lemma OnesMove()
    ensures !DigestLimits.Unmoved(Complement(ZERO))
  {
    hide Bits;
    DigestLimits.FixedBits();
    assert Complement(ZERO)[4];
  }

  lemma DigestOfZeroBytes(data: seq<byte>)
    requires forall i :: 0 <= i < |data| ==> data[i] == 0
    ensures Complement(Checksum(data)) == Crc32c.Steps(Complement(ZERO), 8 * |data|)
  {
    hide Crc32c.Steps, Crc32c.Feed;
    var ones := Complement(ZERO);
    assert [] + data == data;
    DigestLimits.FeedZeros(ones, [], data);
    ComplementTwice(Crc32c.Feed(ones, data));
    FeedOfNothing(ones);
  }

  lemma FeedOfNothing(c: Word)
    ensures Crc32c.Feed(c, []) == c
  {}
}
