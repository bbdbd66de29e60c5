/** PDU framing: SendPDU, RecvPDUHeader and RecvPDUData of iSCSIVirtualHBA.cpp, over byte streams. */
module PduFraming {
  import opened Words
  import opened Hba
  import Crc32c

  const HEADER_SIZE: nat := 48

  /** Where a header says how many words of additional header segments follow it. */
  const AHS_LENGTH: nat := 4

  const DATA_OUT: byte := 0x05
  const DATA_IN: byte := 0x25
  const R2T: byte := 0x31

  // ----- numbers in bytes -----

  /** Byte k of x, counted from the least significant one. */
  function ByteOfNumber(x: u32, k: nat): byte
    requires k < 4
  {
    match k
    case 0 => x % 0x100
    case 1 => x / 0x100 % 0x100
    case 2 => x / 0x100 / 0x100 % 0x100
    case _ => x / 0x100 / 0x100 / 0x100
  }

  function FromBytes(b0: byte, b1: byte, b2: byte, b3: byte): u32 {
    b0 + 0x100 * b1 + 0x1_0000 * b2 + 0x100_0000 * b3
  }

  /** OSSwapHostToBigInt32 and OSSwapBigToHostInt32 on a little-endian host. */
  function Swap32(x: u32): u32 {
    FromBytes(ByteOfNumber(x, 3), ByteOfNumber(x, 2), ByteOfNumber(x, 1), ByteOfNumber(x, 0))
  }

  function BigEndian(x: u32): (s: seq<byte>)
    ensures |s| == 4
  {
    [ByteOfNumber(x, 3), ByteOfNumber(x, 2), ByteOfNumber(x, 1), ByteOfNumber(x, 0)]
  }

  function FromBigEndian(s: seq<byte>): u32
    requires |s| == 4
  {
    FromBytes(s[3], s[2], s[1], s[0])
  }

  lemma BytesOfNumber(b0: byte, b1: byte, b2: byte, b3: byte)
    ensures
      var x := FromBytes(b0, b1, b2, b3);
      ByteOfNumber(x, 0) == b0 && ByteOfNumber(x, 1) == b1 && ByteOfNumber(x, 2) == b2 && ByteOfNumber(x, 3) == b3
  {
    var x2 := b2 + 0x100 * b3;
    var x1 := b1 + 0x100 * x2;
    LowByte(b2, b3);
    LowByte(b1, x2);
    LowByte(b0, x1);
    assert FromBytes(b0, b1, b2, b3) == b0 + 0x100 * x1;
  }

  lemma LowByte(b: byte, rest: nat)
    ensures (b + 0x100 * rest) % 0x100 == b && (b + 0x100 * rest) / 0x100 == rest
  {}

  lemma NumberOfBytes(x: u32)
    ensures FromBytes(ByteOfNumber(x, 0), ByteOfNumber(x, 1), ByteOfNumber(x, 2), ByteOfNumber(x, 3)) == x
  {}

  lemma BigEndianRoundTrip(x: u32)
    ensures FromBigEndian(BigEndian(x)) == x
  {
    NumberOfBytes(x);
  }

  // ----- the data segment length field -----

  /** SetDataSegmentLength: the swapped length is shifted down one byte and its three low bytes are
      copied into the header. */
  function DataSegmentLengthField(length: u32): (f: seq<byte>)
    ensures |f| == 3
  {
    var dataSegLength := Swap32(length) / 0x100;
    [ByteOfNumber(dataSegLength, 0), ByteOfNumber(dataSegLength, 1), ByteOfNumber(dataSegLength, 2)]
  }

  /** GetDataSegmentLength */
  function GetDataSegmentLength(field: seq<byte>): u32
    requires |field| == 3
  {
    var length := FromBytes(field[0], field[1], field[2], 0);
    Swap32(length * 0x100 % 0x1_0000_0000)
  }

  lemma LengthFieldBytes(length: u32)
    ensures DataSegmentLengthField(length) ==
      [ByteOfNumber(length, 2), ByteOfNumber(length, 1), ByteOfNumber(length, 0)]
  {
    var b0, b1 := ByteOfNumber(length, 0), ByteOfNumber(length, 1);
    var b2, b3 := ByteOfNumber(length, 2), ByteOfNumber(length, 3);
    assert FromBytes(b3, b2, b1, b0) / 0x100 == FromBytes(b2, b1, b0, 0);
    BytesOfNumber(b2, b1, b0, 0);
  }

  lemma LengthOfBytes(b2: byte, b1: byte, b0: byte)
    ensures GetDataSegmentLength([b2, b1, b0]) == FromBytes(b0, b1, b2, 0)
  {
    hide ByteOfNumber;
    var y := FromBytes(b2, b1, b0, 0);
    assert y * 0x100 == FromBytes(0, b2, b1, b0);
    assert y * 0x100 % 0x1_0000_0000 == y * 0x100;
    BytesOfNumber(0, b2, b1, b0);
  }

  lemma LowThreeBytes(x: u32)
    ensures FromBytes(ByteOfNumber(x, 0), ByteOfNumber(x, 1), ByteOfNumber(x, 2), 0) == x % 0x100_0000
  {
    hide ByteOfNumber;
    NumberOfBytes(x);
    var low := FromBytes(ByteOfNumber(x, 0), ByteOfNumber(x, 1), ByteOfNumber(x, 2), 0);
    LowPart(low, ByteOfNumber(x, 3));
    assert x == low + 0x100_0000 * ByteOfNumber(x, 3);
  }

  lemma LowPart(low: nat, high: nat)
    requires low < 0x100_0000
    ensures (low + 0x100_0000 * high) % 0x100_0000 == low
  {}

  /** The field carries the length modulo 2^24: it is right exactly for lengths below that. */
  lemma LengthFieldRoundTrip(length: u32)
    ensures GetDataSegmentLength(DataSegmentLengthField(length)) == length % 0x100_0000
  {
    LengthFieldBytes(length);
    LengthOfBytes(ByteOfNumber(length, 2), ByteOfNumber(length, 1), ByteOfNumber(length, 0));
    LowThreeBytes(length);
  }

  // ----- digests in bytes -----

  /** The four bytes of a digest in the memory of a little-endian host. */
  function WordBytes(w: Word): (s: seq<byte>)
    ensures |s| == 4
  {
    [Crc32c.ByteOf(w, 0), Crc32c.ByteOf(w, 1), Crc32c.ByteOf(w, 2), Crc32c.ByteOf(w, 3)]
  }

  /** A digest variable that was zero and has received the bytes s. */
  function WordOf(s: seq<byte>): Word
    requires |s| <= 4
  {
    Pad(Crc32c.MessageBits(s))
  }

  lemma BitsOfByteOf(w: Word, k: nat)
    requires k < 4
    ensures Bits(Crc32c.ByteOf(w, k), 8) == w[8 * k..8 * k + 8]
  {
    BitsOfNumber(w[8 * k..8 * k + 8]);
  }

  lemma WordRoundTrip(w: Word)
    ensures WordOf(WordBytes(w)) == w
  {
    hide Bits, Crc32c.ByteOf, Crc32c.MessageBits;
    var b0, b1, b2, b3 := Crc32c.ByteOf(w, 0), Crc32c.ByteOf(w, 1), Crc32c.ByteOf(w, 2), Crc32c.ByteOf(w, 3);
    FourBytes(b0, b1, b2, b3);
    BitsOfByteOf(w, 0);
    BitsOfByteOf(w, 1);
    BitsOfByteOf(w, 2);
    BitsOfByteOf(w, 3);
    assert w == w[0..8] + w[8..16] + w[16..24] + w[24..32];
    assert Pad(w) == w;
  }

  lemma FourBytes(b0: byte, b1: byte, b2: byte, b3: byte)
    ensures Crc32c.MessageBits([b0, b1, b2, b3]) == Bits(b0, 8) + Bits(b1, 8) + Bits(b2, 8) + Bits(b3, 8)
  {
    hide Bits, Crc32c.MessageBits;
    OneMoreByte([b0, b1, b2], b3);
    OneMoreByte([b0, b1], b2);
    OneMoreByte([b0], b1);
    OneMoreByte([], b0);
    assert [] + [b0] == [b0] && [b0] + [b1] == [b0, b1] && [b0, b1] + [b2] == [b0, b1, b2];
    assert [b0, b1, b2] + [b3] == [b0, b1, b2, b3];
    assert Crc32c.MessageBits([]) == [];
  }

  lemma OneMoreByte(s: seq<byte>, b: byte)
    ensures Crc32c.MessageBits(s + [b]) == Crc32c.MessageBits(s) + Bits(b, 8)
  {
    hide Bits;
    Crc32c.MessageBitsAppend(s, [b]);
    assert Crc32c.MessageBits([b]) == Bits(b, 8) + Crc32c.MessageBits([b][1..]);
  }

  // ----- one PDU as bytes -----

  /** The digests in use on a connection. */
  datatype Digests = Digests(header: bool, data: bool)

  function Encode(b: Bhs): (h: seq<byte>)
    ensures |h| == HEADER_SIZE
    ensures h[5..8] == b.dataSegmentLength
  {
    [b.opCode] + b.opCodeFields + [b.totalAHSLength] + b.dataSegmentLength + b.LUN + b.initiatorTaskTag +
    b.reserved + BigEndian(b.cmdSN) + BigEndian(b.expStatSN) + b.rest
  }

  /** The header read field by field, at the byte offsets of section 10.2.1 of RFC 3720. */
  function Decode(h: seq<byte>): Bhs
    requires |h| == HEADER_SIZE
  {
    BhsFields(h[0], h[1..4], h[4], h[5..8], h[8..16], h[16..20], h[20..24], Field(h, 24), Field(h, 28), h[32..])
  }

  lemma HeaderRoundTrip(b: Bhs)
    ensures Decode(Encode(b)) == b
  {
    hide BigEndian, FromBigEndian;
    BigEndianRoundTrip(b.cmdSN);
    BigEndianRoundTrip(b.expStatSN);
    var h := Encode(b);
    assert h[24..28] == BigEndian(b.cmdSN) && h[28..32] == BigEndian(b.expStatSN);
    assert h[1..4] == b.opCodeFields && h[8..16] == b.LUN && h[16..20] == b.initiatorTaskTag;
    assert h[20..24] == b.reserved && h[32..] == b.rest;
  }

  function Checksum(s: seq<byte>): Word {
    Crc32c.Digest(ZERO, s)
  }

  function Padding(length: nat): (s: seq<byte>)
    ensures (length + |s|) % 4 == 0 && |s| < 4
  {
    var paddingLen := 4 - length % 4;
    if paddingLen != 4 then seq(paddingLen, _ => 0) else []
  }

  /** The bytes of a PDU: header, optional digest, data, padding, optional digest. */
  function Frame(d: Digests, header: seq<byte>, data: seq<byte>): seq<byte> {
    header + (if d.header then WordBytes(Checksum(header)) else []) + Segment(d, data)
  }

  function Segment(d: Digests, data: seq<byte>): seq<byte> {
    if data == [] then []
    else data + Padding(|data|) + (if d.data then WordBytes(Checksum(data)) else [])
  }

  function Min(a: nat, b: nat): nat {
    if a < b then a else b
  }

  datatype Received = Received(error: Errno, bytes: seq<byte>, rest: seq<byte>)

  /** What RecvPDUHeader makes of the stream: a digest is compared only when it is not zero. */
  function TakeHeader(d: Digests, stream: seq<byte>): Received {
    var size := Min(|stream|, if d.header then HEADER_SIZE + 4 else HEADER_SIZE);
    var header := stream[..Min(size, HEADER_SIZE)];
    var digest := if size > HEADER_SIZE then WordOf(stream[HEADER_SIZE..size]) else ZERO;
    var error :=
      if size < HEADER_SIZE then EIO
      else if digest != ZERO && digest != Checksum(header) then EIO
      else Ok;
    Received(error, header, stream[size..])
  }

  /** The number of bytes RecvPDUData asks for. */
  function SegmentSize(d: Digests, length: nat): nat {
    length + |Padding(length)| + (if d.data then 4 else 0)
  }

  /** What RecvPDUData makes of the stream, for a buffer that held before: a segment that has only
      partly arrived is taken as it is, the rest of the buffer and of the digest keeping what they
      held. */
  function TakeData(d: Digests, length: nat, stream: seq<byte>, before: seq<byte>): (r: Received)
    requires |before| == length
    ensures |r.bytes| == length
  {
    var size := Min(|stream|, SegmentSize(d, length));
    var got := Min(size, length);
    var data := stream[..got] + before[got..];
    var digest := stream[Min(size, length + |Padding(length)|)..size];
    var error := if d.data && WordOf(digest) != Checksum(data) then EIO else Ok;
    Received(error, data, stream[size..])
  }

  /** A PDU read off the stream: the header, then the data its length field announces. */
  datatype ReadPdu = ReadPdu(header: seq<byte>, data: seq<byte>)

  /** PDUs read and what is left of the stream, or a PDU that is damaged or incomplete. */
  datatype Reading = Reading(pdus: seq<ReadPdu>, rest: seq<byte>) | Failed

  /** Who reads a stream: the functions of the driver, which take no notice of the number of additional
      header segments; or a peer that follows the standard and expects none of these, which compares every
      header digest, and whose data digests cover the padding (section 12.1 of RFC 3720). */
  datatype Reader = Driver | Standard

  function StandardHeader(d: Digests, stream: seq<byte>): Received {
    var size := if d.header then HEADER_SIZE + 4 else HEADER_SIZE;
    if |stream| < size then Received(EIO, [], [])
    else
      var header := stream[..HEADER_SIZE];
      var wrong := d.header && WordOf(stream[HEADER_SIZE..size]) != Checksum(header);
      Received(if wrong || header[AHS_LENGTH] != 0 then EIO else Ok, header, stream[size..])
  }

  function StandardData(d: Digests, length: nat, stream: seq<byte>): Received
    requires SegmentSize(d, length) <= |stream|
  {
    var size := SegmentSize(d, length);
    var covered := stream[..length + |Padding(length)|];
    var wrong := d.data && WordOf(stream[size - 4..size]) != Checksum(covered);
    Received(if wrong then EIO else Ok, stream[..length], stream[size..])
  }

  function HeaderBy(reader: Reader, d: Digests, stream: seq<byte>): (r: Received)
    ensures r.error == Ok ==> |r.bytes| == HEADER_SIZE && |r.rest| + HEADER_SIZE <= |stream|
  {
    match reader
    case Driver => TakeHeader(d, stream)
    case Standard => StandardHeader(d, stream)
  }

  function DataBy(reader: Reader, d: Digests, length: nat, stream: seq<byte>): (r: Received)
    requires SegmentSize(d, length) <= |stream|
    ensures |r.bytes| == length && r.rest == stream[SegmentSize(d, length)..]
  {
    match reader
    case Driver => TakeData(d, length, stream, NoBytes(length))
    case Standard => StandardData(d, length, stream)
  }

  /** Reads one PDU: a header, then as much data as it announces. */
  function ReadOne(reader: Reader, d: Digests, stream: seq<byte>): (r: Reading)
    ensures r.Reading? ==> |r.pdus| == 1 && |r.pdus[0].header| == HEADER_SIZE
    ensures r.Reading? ==> |r.rest| + HEADER_SIZE <= |stream|
  {
    var h := HeaderBy(reader, d, stream);
    if h.error != Ok then Failed
    else
      var length := GetDataSegmentLength(h.bytes[5..8]);
      if length == 0 then Reading([ReadPdu(h.bytes, [])], h.rest)
      else if SegmentSize(d, length) > |h.rest| then Failed
      else
        var t := DataBy(reader, d, length, h.rest);
        if t.error != Ok then Failed else Reading([ReadPdu(h.bytes, t.bytes)], t.rest)
  }

  function Prepend(pdus: seq<ReadPdu>, r: Reading): Reading {
    if r.Failed? then Failed else Reading(pdus + r.pdus, r.rest)
  }

  /** Reads PDU after PDU to the end of the stream. */
  function ReadAll(reader: Reader, d: Digests, stream: seq<byte>): Reading
    decreases |stream|
  {
    if stream == [] then Reading([], [])
    else
      var first := ReadOne(reader, d, stream);
      if first.Failed? then Failed else Prepend(first.pdus, ReadAll(reader, d, first.rest))
  }

  /** The data digest of section 12.1 of RFC 3720: it covers the padding as well. */
  function PaddedChecksum(data: seq<byte>): Word {
    Checksum(data + Padding(|data|))
  }

  /** The reader finds the data digest that SendPDU sends right. */
  predicate DigestPasses(reader: Reader, d: Digests, data: seq<byte>) {
    reader == Standard && d.data ==> PaddedChecksum(data) == Checksum(data)
  }

  lemma TakeHeaderOfFrame(d: Digests, header: seq<byte>, tail: seq<byte>)
    requires |header| == HEADER_SIZE
    ensures
      var digest := if d.header then WordBytes(Checksum(header)) else [];
      TakeHeader(d, header + digest + tail) == Received(Ok, header, tail)
  {
    hide Checksum, WordBytes, WordOf;
    if d.header {
      var w := WordBytes(Checksum(header));
      var stream := header + w + tail;
      WordRoundTrip(Checksum(header));
      assert stream[..HEADER_SIZE] == header;
      assert stream[HEADER_SIZE..HEADER_SIZE + 4] == w;
      assert stream[HEADER_SIZE + 4..] == tail;
    } else {
      var stream := header + [] + tail;
      assert stream[..HEADER_SIZE] == header && stream[HEADER_SIZE..] == tail;
    }
  }

  lemma TakeDataOfSegment(d: Digests, data: seq<byte>, tail: seq<byte>, before: seq<byte>)
    requires data != [] && |before| == |data|
    ensures SegmentSize(d, |data|) == |Segment(d, data)|
    ensures TakeData(d, |data|, Segment(d, data) + tail, before) == Received(Ok, data, tail)
  {
    hide Checksum, WordBytes, WordOf;
    var stream := Segment(d, data) + tail;
    var size := SegmentSize(d, |data|);
    assert stream[..|data|] + before[|data|..] == data;
    assert stream[size..] == tail;
    if d.data {
      WordRoundTrip(Checksum(data));
      assert stream[size - 4..size] == WordBytes(Checksum(data));
    }
  }

  /** The header announces the data that follows it. */
  ghost predicate Announces(header: seq<byte>, data: seq<byte>) {
    |header| == HEADER_SIZE && GetDataSegmentLength(header[5..8]) == |data|
  }

  /** The reader takes a header for what it is. */
  predicate HeaderPasses(reader: Reader, header: seq<byte>)
    requires |header| == HEADER_SIZE
  {
    reader == Standard ==> header[AHS_LENGTH] == 0
  }

  lemma HeaderOfFrame(reader: Reader, d: Digests, header: seq<byte>, tail: seq<byte>)
    requires |header| == HEADER_SIZE
    ensures
      var digest := if d.header then WordBytes(Checksum(header)) else [];
      HeaderBy(reader, d, header + digest + tail) ==
      Received(if HeaderPasses(reader, header) then Ok else EIO, header, tail)
  {
    hide Checksum, WordBytes, WordOf;
    TakeHeaderOfFrame(d, header, tail);
    WordRoundTrip(Checksum(header));
    var digest := if d.header then WordBytes(Checksum(header)) else [];
    var stream := header + digest + tail;
    assert stream[..HEADER_SIZE] == header && stream[HEADER_SIZE..HEADER_SIZE + |digest|] == digest;
    assert stream[HEADER_SIZE + |digest|..] == tail;
  }

  lemma StandardDataOfSegment(d: Digests, data: seq<byte>, tail: seq<byte>)
    requires data != [] && SegmentSize(d, |data|) == |Segment(d, data)|
    ensures
      StandardData(d, |data|, Segment(d, data) + tail) ==
      Received(if DigestPasses(Standard, d, data) then Ok else EIO, data, tail)
  {
    hide Checksum, WordBytes, WordOf, Padding;
    var stream := Segment(d, data) + tail;
    var size := SegmentSize(d, |data|);
    var digest := if d.data then WordBytes(Checksum(data)) else [];
    ThreeParts(data, Padding(|data|), digest, tail);
    WordRoundTrip(Checksum(data));
    assert stream == data + Padding(|data|) + digest + tail;
  }

  lemma ThreeParts(a: seq<byte>, b: seq<byte>, c: seq<byte>, t: seq<byte>)
    ensures
      var s := a + b + c + t;
      s[..|a|] == a && s[..|a| + |b|] == a + b &&
      s[|a| + |b|..|a| + |b| + |c|] == c && s[|a| + |b| + |c|..] == t
  {}

  lemma NoDataPasses(reader: Reader, d: Digests)
    ensures DigestPasses(reader, d, [])
  {
    hide Checksum;
    assert [] + Padding(0) == [];
  }

  lemma ReadOneFrame(reader: Reader, d: Digests, header: seq<byte>, data: seq<byte>, tail: seq<byte>)
    requires Announces(header, data)
    ensures
      ReadOne(reader, d, Frame(d, header, data) + tail) ==
      if HeaderPasses(reader, header) && DigestPasses(reader, d, data)
      then Reading([ReadPdu(header, data)], tail) else Failed
  {
    hide GetDataSegmentLength, Checksum, WordBytes, HeaderBy, TakeData, StandardData, SegmentSize;
    hide DigestPasses, HeaderPasses;
    var digest := if d.header then WordBytes(Checksum(header)) else [];
    assert Frame(d, header, data) + tail == header + digest + (Segment(d, data) + tail);
    HeaderOfFrame(reader, d, header, Segment(d, data) + tail);
    if data == [] {
      NoDataPasses(reader, d);
      assert Segment(d, data) + tail == tail;
    } else {
      TakeDataOfSegment(d, data, tail, NoBytes(|data|));
      StandardDataOfSegment(d, data, tail);
      DriverPasses(d, data);
    }
  }

  lemma DriverPasses(d: Digests, data: seq<byte>)
    ensures DigestPasses(Driver, d, data)
  {}

  // ----- sending -----

  /** The header as SendPDU completes it; a Data-Out PDU keeps what its cmdSN bytes held. */
  function Stamp(bhs: Bhs, cmdSN: u32, expStatSN: u32, length: nat): Bhs {
    bhs.(cmdSN := if bhs.opCode != DATA_OUT then cmdSN else bhs.cmdSN,
         expStatSN := expStatSN,
         dataSegmentLength := DataSegmentLengthField(length % 0x1_0000_0000))
  }

  /** A PDU that uses up a command number: neither Data-Out nor marked for immediate delivery. */
  predicate Numbered(opCode: byte) {
    opCode != DATA_OUT && opCode / 0x40 % 2 == 0
  }

  function NextCmdSN(opCode: byte, cmdSN: u32): u32 {
    if Numbered(opCode) then (cmdSN + 1) % 0x1_0000_0000 else cmdSN
  }

  /** SendPDU.  A refused send has used its command number but puts nothing on the wire. */
  method SendPDU(session: Session, connection: Connection, bhs: Bhs, data: seq<byte>) returns (error: Errno)
    modifies session`cmdSN, connection`sends, connection`outbound, connection`sent
    ensures
      var uses := bhs.opCode != 0x05 && bhs.opCode / 0x40 % 2 == 0;
      session.cmdSN == if uses then (old(session.cmdSN) + 1) % 0x1_0000_0000 else old(session.cmdSN)
    ensures session.cmdSN == NextCmdSN(bhs.opCode, old(session.cmdSN))
    ensures connection.sends == old(connection.sends) + 1
    ensures error == if connection.sendFails(old(connection.sends)) then EPIPE else Ok
    ensures error != Ok ==> connection.sent == old(connection.sent) && connection.outbound == old(connection.outbound)
    ensures error == Ok ==>
      var pdu := Pdu(Stamp(bhs, old(session.cmdSN), connection.expStatSN, |data|), data);
      var d := Digests(connection.useHeaderDigest, connection.useDataDigest);
      connection.sent == old(connection.sent) + [pdu] &&
      connection.outbound == old(connection.outbound) + Frame(d, Encode(pdu.bhs), data)
    ensures
      Grown(DigestsOf(connection), old(connection.outbound), old(connection.sent), connection.outbound, connection.sent)
  {
    hide Frame, Segment, Encode, Checksum, WordBytes, DataSegmentLengthField, Grown, Stamped;
    ghost var out, sent := connection.outbound, connection.sent;
    var b := bhs;
    if b.opCode != DATA_OUT {
      b := b.(cmdSN := session.cmdSN);
      if b.opCode / 0x40 % 2 == 0 {
        session.cmdSN := (session.cmdSN + 1) % 0x1_0000_0000;
      }
    }
    b := b.(expStatSN := connection.expStatSN);
    b := b.(dataSegmentLength := DataSegmentLengthField(|data| % 0x1_0000_0000));

    var header := Encode(b);
    var message := header;
    if connection.useHeaderDigest {
      message := message + WordBytes(Checksum(header));
    }
    if |data| > 0 {
      message := message + data;
      message := message + Padding(|data|);
      if connection.useDataDigest {
        message := message + WordBytes(Checksum(data));
      }
    }
    FrameInPieces(Digests(connection.useHeaderDigest, connection.useDataDigest), header, data, message);
    if connection.sendFails(connection.sends) {
      connection.sends := connection.sends + 1;
      GrownByNothing(DigestsOf(connection), out, sent);
      return EPIPE;
    }
    connection.sends := connection.sends + 1;
    connection.outbound := connection.outbound + message;
    connection.sent := connection.sent + [Pdu(b, data)];
    StampIsStamped(bhs, old(session.cmdSN), connection.expStatSN, data);
    GrownByOne(DigestsOf(connection), out, sent, Pdu(b, data));
    error := Ok;
  }

  lemma StampIsStamped(bhs: Bhs, cmdSN: u32, expStatSN: u32, data: seq<byte>)
    ensures Stamped(Pdu(Stamp(bhs, cmdSN, expStatSN, |data|), data))
  {
    hide DataSegmentLengthField;
  }

  lemma FrameInPieces(d: Digests, header: seq<byte>, data: seq<byte>, message: seq<byte>)
    requires
      var h := if d.header then header + WordBytes(Checksum(header)) else header;
      var body := h + data + Padding(|data|);
      message == if |data| == 0 then h else if d.data then body + WordBytes(Checksum(data)) else body
    ensures message == Frame(d, header, data)
  {
    hide Checksum, WordBytes, Padding;
  }

  /** SetDataSegmentLength has been called with the length of the data. */
  ghost predicate Stamped(p: Pdu) {
    p.bhs.dataSegmentLength == DataSegmentLengthField(|p.data| % 0x1_0000_0000)
  }

  /** The data fits the 24-bit length field. */
  predicate Fits(p: Pdu) {
    |p.data| < 0x100_0000
  }

  /** A completed header announces its data exactly when the data fits the length field. */
  lemma StampAnnounces(p: Pdu)
    requires Stamped(p)
    ensures Announces(Encode(p.bhs), p.data) <==> Fits(p)
  {
    hide GetDataSegmentLength, DataSegmentLengthField;
    LengthFieldRoundTrip(|p.data| % 0x1_0000_0000);
    assert |p.data| % 0x1_0000_0000 % 0x100_0000 == |p.data| % 0x100_0000;
  }

  /** The PDU is read as it was sent. */
  predicate Reads(reader: Reader, d: Digests, p: Pdu) {
    Fits(p) && HeaderPasses(reader, Encode(p.bhs)) && DigestPasses(reader, d, p.data)
  }

  /** One PDU survives the wire exactly when its data segment is shorter than 2^24 bytes, and the reader
      takes its header and finds its digest right. */
  lemma FrameRoundTrip(reader: Reader, d: Digests, p: Pdu, tail: seq<byte>)
    requires Stamped(p)
    ensures
      ReadOne(reader, d, Frame(d, Encode(p.bhs), p.data) + tail) == Reading([PduRead(p)], tail) <==>
      Reads(reader, d, p)
    ensures Fits(p) && !Reads(reader, d, p) ==> ReadOne(reader, d, Frame(d, Encode(p.bhs), p.data) + tail) == Failed
  {
    hide Frame, Stamped, Encode, GetDataSegmentLength, ReadOne, DigestPasses, HeaderPasses;
    StampAnnounces(p);
    if Fits(p) {
      ReadOneFrame(reader, d, Encode(p.bhs), p.data, tail);
    } else {
      ReadOneLength(reader, d, Frame(d, Encode(p.bhs), p.data) + tail);
    }
  }

  /** Whatever is read has the length its header announces. */
  lemma ReadOneLength(reader: Reader, d: Digests, stream: seq<byte>)
    ensures ReadOne(reader, d, stream).Reading? ==>
      var p := ReadOne(reader, d, stream).pdus[0];
      Announces(p.header, p.data)
  {
    hide GetDataSegmentLength, HeaderBy, DataBy;
  }

  // ----- sequences of PDUs -----

  /** The bytes of a sequence of PDUs. */
  function Wire(d: Digests, pdus: seq<Pdu>): seq<byte> {
    if pdus == [] then [] else Frame(d, Encode(pdus[0].bhs), pdus[0].data) + Wire(d, pdus[1..])
  }

  function PduRead(p: Pdu): ReadPdu {
    ReadPdu(Encode(p.bhs), p.data)
  }

  function AsRead(pdus: seq<Pdu>): seq<ReadPdu> {
    if pdus == [] then [] else [PduRead(pdus[0])] + AsRead(pdus[1..])
  }

  lemma {:induction false} WireAppend(d: Digests, a: seq<Pdu>, b: seq<Pdu>)
    ensures Wire(d, a + b) == Wire(d, a) + Wire(d, b)
    decreases |a|
  {
    hide Frame, Encode;
    if a == [] {
      assert a + b == b;
    } else {
      assert (a + b)[1..] == a[1..] + b;
      WireAppend(d, a[1..], b);
      var first := Frame(d, Encode(a[0].bhs), a[0].data);
      assert Wire(d, a + b) == first + (Wire(d, a[1..]) + Wire(d, b));
    }
  }

  lemma WireOne(d: Digests, p: Pdu)
    ensures Wire(d, [p]) == Frame(d, Encode(p.bhs), p.data)
  {
    hide Frame, Encode;
    assert Wire(d, [p]) == Frame(d, Encode(p.bhs), p.data) + Wire(d, [p][1..]);
  }

  ghost predicate AllStamped(pdus: seq<Pdu>) {
    forall i :: 0 <= i < |pdus| ==> Stamped(pdus[i])
  }

  ghost predicate AllFit(pdus: seq<Pdu>) {
    forall i :: 0 <= i < |pdus| ==> Fits(pdus[i])
  }

  lemma FirstOfMany(pdus: seq<Pdu>)
    requires pdus != []
    ensures AllStamped(pdus) <==> Stamped(pdus[0]) && AllStamped(pdus[1..])
    ensures AllFit(pdus) <==> Fits(pdus[0]) && AllFit(pdus[1..])
  {
    hide Stamped, Fits;
    assert forall i :: 0 < i < |pdus| ==> pdus[i] == pdus[1..][i - 1];
    assert forall i :: 0 <= i < |pdus[1..]| ==> pdus[1..][i] == pdus[i + 1];
  }

  lemma WireNotEmpty(d: Digests, p: Pdu, tail: seq<byte>)
    ensures Frame(d, Encode(p.bhs), p.data) + tail != []
  {}

  lemma PrependIff(p: ReadPdu, r: Reading, ps: seq<ReadPdu>)
    ensures Prepend([p], r) == Reading([p] + ps, []) <==> r == Reading(ps, [])
  {
    if Prepend([p], r) == Reading([p] + ps, []) {
      assert r.pdus == ([p] + r.pdus)[1..] && ps == ([p] + ps)[1..];
    }
  }

  ghost predicate AllRead(reader: Reader, d: Digests, pdus: seq<Pdu>) {
    forall i :: 0 <= i < |pdus| ==> Reads(reader, d, pdus[i])
  }

  lemma AllReadStep(reader: Reader, d: Digests, pdus: seq<Pdu>)
    ensures pdus == [] ==> AllRead(reader, d, pdus)
    ensures pdus != [] ==>
      (AllRead(reader, d, pdus) <==> Reads(reader, d, pdus[0]) && AllRead(reader, d, pdus[1..]))
  {
    hide Reads;
    assert forall i :: 0 < i < |pdus| ==> pdus[i] == pdus[1..][i - 1];
    assert forall i :: 0 <= i < |pdus| - 1 ==> pdus[1..][i] == pdus[i + 1];
  }

  /** The functions of the driver read whatever fits. */
  lemma AllReadByDriver(d: Digests, pdus: seq<Pdu>)
    ensures AllRead(Driver, d, pdus) <==> AllFit(pdus)
  {
    hide Encode;
    assert forall i :: 0 <= i < |pdus| ==> (Reads(Driver, d, pdus[i]) <==> Fits(pdus[i]));
  }

  /** PDUs whose data fits and whose digests are found right are read back one by one, and the stream is
      left where the last one ends, whatever follows. */
  lemma {:induction false} WireRoundTrip(reader: Reader, d: Digests, pdus: seq<Pdu>, tail: seq<byte>)
    requires AllStamped(pdus) && AllRead(reader, d, pdus)
    ensures ReadAll(reader, d, Wire(d, pdus) + tail) == Prepend(AsRead(pdus), ReadAll(reader, d, tail))
    decreases |pdus|
  {
    hide Frame, Encode, Stamped, Reads, ReadOne, AllStamped, AllFit, AllRead;
    if pdus == [] {
      assert Wire(d, pdus) + tail == tail;
    } else {
      FirstOfMany(pdus);
      AllReadStep(reader, d, pdus);
      var behind := Wire(d, pdus[1..]) + tail;
      WireNotEmpty(d, pdus[0], behind);
      FrameRoundTrip(reader, d, pdus[0], behind);
      WireRoundTrip(reader, d, pdus[1..], tail);
      assert Wire(d, pdus) + tail == Frame(d, Encode(pdus[0].bhs), pdus[0].data) + behind;
    }
  }

  /** What is on the wire is read back as it was sent exactly when every data segment fits and every
      digest is found right; where only digests are wrong, nothing is read. */
  lemma {:induction false} WireRoundTripIff(reader: Reader, d: Digests, pdus: seq<Pdu>)
    requires AllStamped(pdus)
    ensures ReadAll(reader, d, Wire(d, pdus)) == Reading(AsRead(pdus), []) <==> AllRead(reader, d, pdus)
    ensures AllFit(pdus) && !AllRead(reader, d, pdus) ==> ReadAll(reader, d, Wire(d, pdus)) == Failed
    decreases |pdus|
  {
    hide Frame, Encode, Stamped, Reads, Fits, ReadOne, AllStamped, AllFit, AllRead;
    AllReadStep(reader, d, pdus);
    if pdus != [] {
      FirstOfMany(pdus);
      var behind := Wire(d, pdus[1..]);
      WireNotEmpty(d, pdus[0], behind);
      FrameRoundTrip(reader, d, pdus[0], behind);
      WireRoundTripIff(reader, d, pdus[1..]);
      if Reads(reader, d, pdus[0]) {
        PrependIff(PduRead(pdus[0]), ReadAll(reader, d, behind), AsRead(pdus[1..]));
      } else {
        UnreadIsNotRead(reader, d, pdus[0], behind);
        var r := ReadAll(reader, d, Wire(d, pdus));
        assert r.Reading? ==> r.pdus[0] == ReadOne(reader, d, Wire(d, pdus)).pdus[0];
        assert AsRead(pdus)[0] == PduRead(pdus[0]);
      }
    }
  }

  /** A PDU that does not survive is either not read at all, or read with less data. */
  lemma UnreadIsNotRead(reader: Reader, d: Digests, p: Pdu, behind: seq<byte>)
    requires Stamped(p) && !Reads(reader, d, p)
    ensures
      var r := ReadOne(reader, d, Frame(d, Encode(p.bhs), p.data) + behind);
      r.Reading? ==> r.pdus[0] != PduRead(p)
  {
    hide Frame, Stamped, Encode, ReadOne, GetDataSegmentLength, DigestPasses, HeaderPasses;
    StampAnnounces(p);
    FrameRoundTrip(reader, d, p, behind);
    ReadOneLength(reader, d, Frame(d, Encode(p.bhs), p.data) + behind);
  }

  ghost function DigestsOf(connection: Connection): Digests
    reads connection`useHeaderDigest, connection`useDataDigest
  {
    Digests(connection.useHeaderDigest, connection.useDataDigest)
  }

  /** What was added to the list of PDUs is what was added to the bytes on the wire. */
  ghost predicate Grown(d: Digests, out0: seq<byte>, sent0: seq<Pdu>, out1: seq<byte>, sent1: seq<Pdu>) {
    |sent0| <= |sent1| && sent1[..|sent0|] == sent0 &&
    AllStamped(sent1[|sent0|..]) && out1 == out0 + Wire(d, sent1[|sent0|..])
  }

  lemma GrownByNothing(d: Digests, out: seq<byte>, sent: seq<Pdu>)
    ensures Grown(d, out, sent, out, sent)
  {
    assert sent[|sent|..] == [];
  }

  lemma GrownByOne(d: Digests, out: seq<byte>, sent: seq<Pdu>, p: Pdu)
    requires Stamped(p)
    ensures Grown(d, out, sent, out + Frame(d, Encode(p.bhs), p.data), sent + [p])
  {
    hide Frame, Encode, Wire, Stamped;
    assert (sent + [p])[|sent|..] == [p];
    WireOne(d, p);
  }

  lemma GrownTwice(d: Digests, out0: seq<byte>, sent0: seq<Pdu>, out1: seq<byte>, sent1: seq<Pdu>,
      out2: seq<byte>, sent2: seq<Pdu>)
    requires Grown(d, out0, sent0, out1, sent1) && Grown(d, out1, sent1, out2, sent2)
    ensures Grown(d, out0, sent0, out2, sent2)
  {
    hide Wire, AllStamped;
    var a, b := sent1[|sent0|..], sent2[|sent1|..];
    assert sent2[|sent0|..] == a + b;
    assert sent2[..|sent0|] == sent1[..|sent0|];
    WireAppend(d, a, b);
    AllStampedAppend(a, b);
  }

  lemma AllStampedAppend(a: seq<Pdu>, b: seq<Pdu>)
    requires AllStamped(a) && AllStamped(b)
    ensures AllStamped(a + b)
  {
    hide Stamped;
  }

  lemma AllFitAppend(a: seq<Pdu>, b: seq<Pdu>)
    ensures AllFit(a + b) <==> AllFit(a) && AllFit(b)
  {
    hide Fits;
    assert forall i :: 0 <= i < |a| ==> a[i] == (a + b)[i];
    assert forall i :: 0 <= i < |b| ==> b[i] == (a + b)[|a| + i];
  }

  /** Numbers on the wire have their most significant byte first. */
  lemma BytesOfFields(h: seq<byte>, at: nat, b2: byte, b1: byte, b0: byte)
    requires at + 4 <= |h|
    ensures
      var x3: int, x2: int, x1: int, x0: int := h[at], h[at + 1], h[at + 2], h[at + 3];
      Field(h, at) == 0x100_0000 * x3 + 0x1_0000 * x2 + 0x100 * x1 + x0
    ensures GetDataSegmentLength([b2, b1, b0]) == 0x1_0000 * b2 + 0x100 * b1 + b0
  {
    hide GetDataSegmentLength;
    LengthOfBytes(b2, b1, b0);
  }

  // ----- receiving -----

  /** A stretch of a header, read as the number it carries. */
  function Field(header: seq<byte>, at: nat): u32
    requires at + 4 <= |header|
  {
    FromBigEndian(header[at..at + 4])
  }

  /** The header after statSN, expCmdSN and maxCmdSN have been swapped in place. */
  function HostOrder(h: seq<byte>): (r: seq<byte>)
    requires |h| == HEADER_SIZE
    ensures |r| == HEADER_SIZE
  {
    h[..24] + [h[27], h[26], h[25], h[24], h[31], h[30], h[29], h[28], h[35], h[34], h[33], h[32]] + h[36..]
  }

  /** A Data-In PDU without status says nothing about command numbers. */
  predicate Silent(h: seq<byte>)
    requires |h| == HEADER_SIZE
  {
    h[0] == DATA_IN && h[1] % 2 == 0
  }

  function MaxOf(a: u32, b: u32): u32 {
    if a < b then b else a
  }

  /** A response that uses up a status number: not an R2T, and neither number reserved. */
  predicate Counts(h: seq<byte>)
    requires |h| == HEADER_SIZE
  {
    h[0] != R2T && Field(h, 24) != 0xffff_ffff && Field(h, 16) != 0xffff_ffff
  }

  /** RecvPDUHeader */
  method RecvPDUHeader(session: Session, connection: Connection) returns (error: Errno, bhs: seq<byte>)
    modifies session`expCmdSN, session`maxCmdSN, connection`expStatSN, connection`inbound
    ensures
      var d := Digests(connection.useHeaderDigest, connection.useDataDigest);
      var t := TakeHeader(d, old(connection.inbound));
      error == t.error && connection.inbound == t.rest &&
      (error != Ok ==> bhs == t.bytes) &&
      (error == Ok ==> bhs == if Silent(t.bytes) then t.bytes else HostOrder(t.bytes)) &&
      (if error != Ok || Silent(t.bytes) then
        session.maxCmdSN == old(session.maxCmdSN) && session.expCmdSN == old(session.expCmdSN) &&
        connection.expStatSN == old(connection.expStatSN)
      else
        session.expCmdSN == MaxOf(old(session.expCmdSN), Field(t.bytes, 28)) &&
        session.maxCmdSN == MaxOf(old(session.maxCmdSN), Field(t.bytes, 32)) &&
        connection.expStatSN == (old(connection.expStatSN) + (if Counts(t.bytes) then 1 else 0)) % 0x1_0000_0000)
  {
    hide WordOf, Checksum, Field, HostOrder, Silent, Counts;
    var wanted := if connection.useHeaderDigest then HEADER_SIZE + 4 else HEADER_SIZE;
    var received := Min(|connection.inbound|, wanted);
    var stream := connection.inbound;
    connection.inbound := stream[received..];
    bhs := stream[..Min(received, HEADER_SIZE)];
    if received < HEADER_SIZE {
      return EIO, bhs;
    }
    var headerDigest := ZERO;
    if received > HEADER_SIZE {
      headerDigest := WordOf(stream[HEADER_SIZE..received]);
    }
    if headerDigest != ZERO {
      if headerDigest != Checksum(bhs) {
        return EIO, bhs;
      }
    }
    error := Ok;
    if Silent(bhs) {
      return;
    }
    var expCmdSN, maxCmdSN, counts := Field(bhs, 28), Field(bhs, 32), Counts(bhs);
    bhs := HostOrder(bhs);
    if maxCmdSN > session.maxCmdSN {
      session.maxCmdSN := maxCmdSN;
    }
    if expCmdSN > session.expCmdSN {
      session.expCmdSN := expCmdSN;
    }
    if counts {
      connection.expStatSN := (connection.expStatSN + 1) % 0x1_0000_0000;
    }
  }

  /** The swapped numbers are read off the memory of a little-endian host; nothing else has moved. */
  lemma HostOrderReads(h: seq<byte>)
    requires |h| == HEADER_SIZE
    ensures
      var r := HostOrder(h);
      FromBytes(r[24], r[25], r[26], r[27]) == Field(h, 24) &&
      FromBytes(r[28], r[29], r[30], r[31]) == Field(h, 28) &&
      FromBytes(r[32], r[33], r[34], r[35]) == Field(h, 32) &&
      r[..24] == h[..24] && r[36..] == h[36..]
  {}

  /** Which headers move expStatSN on, in their bytes: those that carry status, which a Data-In PDU (0x25)
      does when its S bit is set, are no R2T (0x31), and hold neither number reserved. */
  lemma StatusCountsIff(h: seq<byte>)
    requires |h| == HEADER_SIZE
    ensures
      var reserved := [0xff, 0xff, 0xff, 0xff];
      !Silent(h) && Counts(h) <==>
      (h[0] == 0x25 ==> h[1] % 2 == 1) && h[0] != 0x31 && h[24..28] != reserved && h[16..20] != reserved
    ensures Silent(h) <==> h[0] == 0x25 && h[1] % 2 == 0
  {
    hide FromBigEndian;
    AllOnesReserved(h[24..28]);
    AllOnesReserved(h[16..20]);
  }

  lemma AllOnesReserved(s: seq<byte>)
    requires |s| == 4
    ensures FromBigEndian(s) == 0xffff_ffff <==> s == [0xff, 0xff, 0xff, 0xff]
  {}

  /** A header of which fewer than 48 bytes have arrived is refused, and takes with it what has arrived. */
  lemma IncompleteHeaderRefused(d: Digests, stream: seq<byte>)
    requires |stream| < 48
    ensures TakeHeader(d, stream) == Received(EIO, stream, [])
  {}

  /** RecvPDUData, into the caller's buffer.  When less has arrived than is wanted, the receive ends
      early without an error. */
  method RecvPDUData(connection: Connection, data: array<byte>) returns (error: Errno)
    modifies connection`inbound, data
    ensures
      var d := Digests(connection.useHeaderDigest, connection.useDataDigest);
      Received(error, data[..], connection.inbound) ==
        TakeData(d, data.Length, old(connection.inbound), old(data[..]))
  {
    hide WordOf, Checksum;
    var stream := connection.inbound;
    var wanted := data.Length + |Padding(data.Length)| + (if connection.useDataDigest then 4 else 0);
    var size := Min(|stream|, wanted);
    var got := Min(size, data.Length);
    for i := 0 to got
      invariant connection.inbound == stream
      invariant data[..i] == stream[..i] && data[i..] == old(data[i..])
    {
      data[i] := stream[i];
    }
    assert data[..] == stream[..got] + old(data[..])[got..];
    connection.inbound := stream[size..];
    error := Ok;
    if connection.useDataDigest {
      var dataDigest := WordOf(stream[Min(size, data.Length + |Padding(data.Length)|)..size]);
      if dataDigest != Checksum(data[..]) {
        error := EIO;
      }
    }
  }
}
