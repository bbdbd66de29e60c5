/** A whole WRITE, from the command to the answer to the last R2T, and what a target makes of the bytes
    that it finds on the wire. */
module WritePath {
  import opened Words
  import opened Wrappers
  import opened Hba
  import opened PduFraming
  import opened DataPath
  import opened Reassembly
  import opened PduDigests

  // ----- the target -----

  /** The PDUs that a target expects during a WRITE; any other is a protocol error. */
  predicate Expected(opCode: byte) {
    opCode == SCSI_CMD || opCode == DATA_OUT
  }

  /** The data of a PDU as a target places it, going by the bytes of its header: at the buffer offset of
      a Data-Out PDU, at the start for a command PDU. */
  function PieceRead(p: ReadPdu): Piece
    requires |p.header| == HEADER_SIZE
  {
    if p.header[0] == DATA_OUT then Piece(Field(p.header, BUFFER_OFFSET), p.data) else Piece(0, p.data)
  }

  function PiecesRead(ps: seq<ReadPdu>): Option<seq<Piece>> {
    if ps == [] then Some([])
    else if |ps[0].header| != HEADER_SIZE || !Expected(ps[0].header[0]) then None
    else
      match PiecesRead(ps[1..])
      case None => None
      case Some(pieces) => Some([PieceRead(ps[0])] + pieces)
  }

  /** A target that follows the standard reads PDU after PDU off the stream and places their data in its
      memory. */
  function Target(d: Digests, stream: seq<byte>, memory: seq<byte>): Option<seq<byte>> {
    match ReadAll(Standard, d, stream)
    case Failed => None
    case Reading(ps, _) =>
      match PiecesRead(ps)
      case None => None
      case Some(pieces) => Some(Reassemble(memory, pieces))
  }

  // ----- what is sent, as the target sees it -----

  function PieceOf(p: Pdu): Piece {
    PieceRead(PduRead(p))
  }

  function Pieces(pdus: seq<Pdu>): (ps: seq<Piece>)
    ensures |ps| == |pdus|
  {
    if pdus == [] then [] else [PieceOf(pdus[0])] + Pieces(pdus[1..])
  }

  lemma {:induction false} PiecesAppend(a: seq<Pdu>, b: seq<Pdu>)
    ensures Pieces(a + b) == Pieces(a) + Pieces(b)
    decreases |a|
  {
    hide PieceOf;
    if a == [] {
      assert a + b == b;
    } else {
      assert (a + b)[1..] == a[1..] + b;
      PiecesAppend(a[1..], b);
    }
  }

  lemma {:induction false} PiecesAt(pdus: seq<Pdu>, k: nat)
    requires k < |pdus|
    ensures Pieces(pdus)[k] == PieceOf(pdus[k])
    decreases k
  {
    hide PieceOf;
    if k > 0 {
      PiecesAt(pdus[1..], k - 1);
    }
  }

  /** Commands and Data-Out PDUs without additional header segments. */
  ghost predicate AllExpected(pdus: seq<Pdu>) {
    forall k :: 0 <= k < |pdus| ==> Expected(pdus[k].bhs.opCode) && pdus[k].bhs.totalAHSLength == 0
  }

  lemma {:induction false} PiecesOfRead(pdus: seq<Pdu>)
    requires AllExpected(pdus)
    ensures PiecesRead(AsRead(pdus)) == Some(Pieces(pdus))
    decreases |pdus|
  {
    hide PieceRead, Expected;
    if pdus != [] {
      var first, rest := PduRead(pdus[0]), AsRead(pdus[1..]);
      PiecesOfRead(pdus[1..]);
      assert AsRead(pdus) == [first] + rest;
      assert ([first] + rest)[1..] == rest;
      HeaderOpCode(pdus[0].bhs);
    }
  }

  lemma HeaderOpCode(b: Bhs)
    ensures Encode(b)[0] == b.opCode
  {
    hide BigEndian;
  }

  /** PDUs that the target can read reach it as they were sent. */
  lemma TargetOfWire(d: Digests, pdus: seq<Pdu>, memory: seq<byte>)
    requires AllStamped(pdus) && AllRead(Standard, d, pdus) && AllExpected(pdus)
    ensures Target(d, Wire(d, pdus), memory) == Some(Reassemble(memory, Pieces(pdus)))
  {
    hide ReadAll, Wire, AsRead, PiecesRead, Pieces, Reassemble, AllRead, AllStamped, AllExpected;
    WireRoundTripIff(Standard, d, pdus);
    PiecesOfRead(pdus);
  }

  // ----- PDUs that do not fit -----

  predicate AllOnes(s: seq<byte>) {
    forall i :: 0 <= i < |s| ==> s[i] == 0xff
  }

  /** The stream is not one that a target takes during a WRITE. */
  predicate Unusable(r: Reading) {
    r.Failed? || PiecesRead(r.pdus) == None
  }

  lemma ReadOneStarts(d: Digests, stream: seq<byte>)
    ensures ReadOne(Standard, d, stream).Reading? ==>
      stream != [] && ReadOne(Standard, d, stream).pdus[0].header[0] == stream[0]
  {
    hide GetDataSegmentLength, StandardData, WordOf, Checksum, SegmentSize;
  }

  /** Bytes 0xff do not start a PDU that is expected. */
  lemma OnesAreUnusable(d: Digests, stream: seq<byte>)
    requires stream != [] && stream[0] == 0xff
    ensures Unusable(ReadAll(Standard, d, stream))
  {
    hide ReadOne;
    ReadOneStarts(d, stream);
    var first := ReadOne(Standard, d, stream);
    if first.Reading? {
      var r := ReadAll(Standard, d, stream);
      assert r.Reading? ==> r.pdus[0] == first.pdus[0];
    }
  }

  /** When data that does not fit is read with the length its header announces, the next header is
      looked for inside the data. */
  lemma UnfitLeavesData(d: Digests, p: Pdu, tail: seq<byte>)
    requires Stamped(p) && !Fits(p) && AllOnes(p.data)
    ensures
      var r := ReadOne(Standard, d, Frame(d, Encode(p.bhs), p.data) + tail);
      r.Reading? ==> r.rest != [] && r.rest[0] == 0xff
  {
    hide GetDataSegmentLength, DataSegmentLengthField, Checksum, WordBytes, HeaderBy, StandardData, Encode;
    var header := Encode(p.bhs);
    var digest := if d.header then WordBytes(Checksum(header)) else [];
    var behind := Segment(d, p.data) + tail;
    assert Frame(d, header, p.data) + tail == header + digest + behind;
    HeaderOfFrame(Standard, d, header, behind);
    LengthFieldRoundTrip(|p.data| % 0x1_0000_0000);
    var length := GetDataSegmentLength(header[5..8]);
    Remainder(|p.data|);
    hide Segment, Frame;
    InsideOfData(d, p.data, tail, length);
  }

  lemma Remainder(n: nat)
    requires n >= 0x100_0000
    ensures n % 0x1_0000_0000 % 0x100_0000 + 0x100_0000 <= n
  {}

  lemma InsideOfData(d: Digests, data: seq<byte>, tail: seq<byte>, length: nat)
    requires AllOnes(data) && length + 0x100_0000 <= |data|
    ensures
      var behind := Segment(d, data) + tail;
      SegmentSize(d, length) < |behind| && behind[0] == 0xff &&
      var rest := DataBy(Standard, d, length, behind).rest;
      rest != [] && rest[0] == 0xff
  {
    hide WordOf, WordBytes, Checksum, StandardData;
    var behind, size := Segment(d, data) + tail, SegmentSize(d, length);
    assert behind[..|data|] == data;
    assert behind[0] == data[0] && behind[size] == data[size];
  }

  lemma UnusableBehind(p: ReadPdu, r: Reading)
    requires Unusable(r)
    ensures Unusable(Prepend([p], r))
  {
    if r.Reading? {
      assert ([p] + r.pdus)[1..] == r.pdus;
    }
  }

  /** If any data segment does not fit, data of nothing but ones never reaches the target. */
  lemma {:induction false} UnfitOnes(d: Digests, pdus: seq<Pdu>)
    requires AllStamped(pdus) && !AllFit(pdus)
    requires forall k :: 0 <= k < |pdus| ==> AllOnes(pdus[k].data)
    ensures Unusable(ReadAll(Standard, d, Wire(d, pdus)))
    decreases |pdus|
  {
    hide ReadOne, Frame, Encode, Stamped, Fits, Reads, AllOnes, AllStamped, AllFit, PiecesRead, Unusable;
    assert pdus != [] by {
      assert |pdus| == 0 ==> AllFit(pdus) by { AllFitNothing(); }
    }
    FirstOfMany(pdus);
    var behind := Wire(d, pdus[1..]);
    WireNotEmpty(d, pdus[0], behind);
    var first := ReadOne(Standard, d, Wire(d, pdus));
    if Fits(pdus[0]) {
      FrameRoundTrip(Standard, d, pdus[0], behind);
      FailedIsUnusable();
      if Reads(Standard, d, pdus[0]) {
        UnfitOnes(d, pdus[1..]);
        UnusableBehind(PduRead(pdus[0]), ReadAll(Standard, d, behind));
      }
    } else {
      UnfitLeavesData(d, pdus[0], behind);
      FailedIsUnusable();
      if first.Reading? {
        OnesAreUnusable(d, first.rest);
        UnusableBehind(first.pdus[0], ReadAll(Standard, d, first.rest));
        assert first.pdus == [first.pdus[0]];
      }
    }
  }

  lemma AllFitNothing()
    ensures AllFit([])
  {}

  lemma FailedIsUnusable()
    ensures Unusable(Failed)
  {}

  // ----- the PDUs of a request -----

  lemma DataOutPiece(p: Pdu, c: Chunk, tags: Tags, expStatSN: u32, buffer: seq<byte>)
    requires IsDataOut(p, c, tags, expStatSN, buffer)
    requires c.offset + c.length <= |buffer|
    ensures PieceOf(p) == Piece(c.offset, buffer[c.offset..c.offset + c.length])
  {
    hide DataSegmentLengthField, GetDataSegmentLength, BigEndian, Field, Encode;
    DataOutHeader(p, c, tags, expStatSN, buffer);
    assert p.data == buffer[c.offset..c.offset + c.length];
  }

  lemma DataOutsBehind(pdus: seq<Pdu>, plan: seq<Chunk>, tags: Tags, expStatSN: u32, buffer: seq<byte>)
    requires AreDataOuts(pdus, plan, tags, expStatSN, buffer) && pdus != []
    ensures IsDataOut(pdus[0], plan[0], tags, expStatSN, buffer)
    ensures AreDataOuts(pdus[1..], plan[1..], tags, expStatSN, buffer)
  {
    hide IsDataOut;
    forall k | 0 <= k < |pdus[1..]|
      ensures IsDataOut(pdus[1..][k], plan[1..][k], tags, expStatSN, buffer)
    {
      assert pdus[1..][k] == pdus[k + 1] && plan[1..][k] == plan[k + 1];
    }
  }

  /** All Data-Out PDUs of a request within the buffer: each is a slice of the buffer, and together
      they carry the requested bytes once and no others. */
  lemma {:induction false} DataOutPieces(pdus: seq<Pdu>, offset: u32, length: u32, M: u32, dataSN: u32,
      tags: Tags, expStatSN: u32, buffer: seq<byte>)
    requires M > 0 && offset + length <= |buffer| < TWO32
    requires |pdus| == |Plan(offset, length, M, dataSN)|
    requires AreDataOuts(pdus, Plan(offset, length, M, dataSN), tags, expStatSN, buffer)
    ensures forall p :: p in Pieces(pdus) ==> SliceOf(p, buffer)
    ensures forall i: nat :: Copies(Pieces(pdus), i) == if offset <= i < offset + length then 1 else 0
    decreases length
  {
    hide Plan, IsDataOut, AreDataOuts, PieceOf;
    if length == 0 {
      PlanEmpty(offset, M, dataSN);
    } else {
      var n := if length <= M then length else M;
      var plan := Plan(offset, length, M, dataSN);
      PlanStep(offset, length, M, dataSN);
      DataOutsBehind(pdus, plan, tags, expStatSN, buffer);
      DataOutPiece(pdus[0], plan[0], tags, expStatSN, buffer);
      var first := PieceOf(pdus[0]);
      assert SliceOf(first, buffer);
      DataOutPieces(pdus[1..], offset + n, length - n, M, (dataSN + 1) % TWO32, tags, expStatSN, buffer);
      assert Pieces(pdus) == [first] + Pieces(pdus[1..]);
      forall i: nat
        ensures Copies(Pieces(pdus), i) == if offset <= i < offset + length then 1 else 0
      {
        assert Copies(Pieces(pdus), i) == Holds(first, i) + Copies(Pieces(pdus[1..]), i);
      }
    }
  }

  lemma DataOutSize(p: Pdu, c: Chunk, tags: Tags, expStatSN: u32, buffer: seq<byte>)
    requires IsDataOut(p, c, tags, expStatSN, buffer)
    ensures p.bhs.opCode == DATA_OUT && p.bhs.totalAHSLength == 0 && |p.data| == c.length
  {
    hide DataSegmentLengthField, GetDataSegmentLength, BigEndian, Field, Encode;
    DataOutHeader(p, c, tags, expStatSN, buffer);
    HeaderRoundTrip(p.bhs);
  }

  /** What the sizes of data segments have in common: all of them fit the length field, and none of them
      needs padding. */
  datatype Shape = Shape(fit: bool, aligned: bool)

  function Both(a: Shape, b: Shape): Shape {
    Shape(a.fit && b.fit, a.aligned && b.aligned)
  }

  function ShapeOfSize(size: nat): Shape {
    Shape(size < 0x100_0000, size % 4 == 0)
  }

  /** The shape of length bytes cut into segments of at most M bytes. */
  function ShapeOfRequest(M: u32, length: nat): Shape {
    Shape(M < 0x100_0000 || length < 0x100_0000, length % 4 == 0 && (length <= M || M % 4 == 0))
  }

  ghost function ShapeOfPlan(plan: seq<Chunk>): Shape {
    if plan == [] then Shape(true, true) else Both(ShapeOfSize(plan[0].length), ShapeOfPlan(plan[1..]))
  }

  ghost function ShapeOf(pdus: seq<Pdu>): Shape {
    if pdus == [] then Shape(true, true) else Both(ShapeOfSize(|pdus[0].data|), ShapeOf(pdus[1..]))
  }

  lemma {:induction false} ShapeMeans(pdus: seq<Pdu>)
    ensures ShapeOf(pdus).fit <==> AllFit(pdus)
    ensures ShapeOf(pdus).aligned <==> forall k :: 0 <= k < |pdus| ==> |pdus[k].data| % 4 == 0
    decreases |pdus|
  {
    hide AllFit;
    if pdus == [] {
      AllFitNothing();
    } else {
      FirstOfMany(pdus);
      ShapeMeans(pdus[1..]);
      assert forall k :: 0 < k < |pdus| ==> pdus[k] == pdus[1..][k - 1];
      assert forall k :: 0 <= k < |pdus| - 1 ==> pdus[1..][k] == pdus[k + 1];
    }
  }

  lemma {:induction false} ShapeAppend(a: seq<Pdu>, b: seq<Pdu>)
    ensures ShapeOf(a + b) == Both(ShapeOf(a), ShapeOf(b))
    decreases |a|
  {
    hide ShapeOfSize;
    if a == [] {
      assert a + b == b;
    } else {
      assert (a + b)[1..] == a[1..] + b;
      ShapeAppend(a[1..], b);
    }
  }

  lemma FullSegmentFirst(M: u32, length: u32)
    requires M > 0
    ensures length <= M ==> ShapeOfRequest(M, length) == ShapeOfSize(length)
    ensures length > M ==> ShapeOfRequest(M, length) == Both(ShapeOfSize(M), ShapeOfRequest(M, length - M))
    ensures ShapeOfRequest(M, 0) == Shape(true, true)
  {}

  /** The segments of a request have the shape that its length and the segment size tell. */
  lemma {:induction false} PlanShapeOf(offset: u32, length: u32, M: u32, dataSN: u32)
    requires M > 0
    ensures ShapeOfPlan(Plan(offset, length, M, dataSN)) == ShapeOfRequest(M, length)
    decreases length
  {
    hide Plan, ShapeOfRequest, ShapeOfSize;
    FullSegmentFirst(M, length);
    if length == 0 {
      PlanEmpty(offset, M, dataSN);
    } else {
      var n := if length <= M then length else M;
      PlanStep(offset, length, M, dataSN);
      PlanShapeOf((offset + n) % TWO32, length - n, M, (dataSN + 1) % TWO32);
      FullSegmentFirst(M, length - n);
    }
  }

  lemma {:induction false} DataOutsShape(pdus: seq<Pdu>, plan: seq<Chunk>, tags: Tags, expStatSN: u32,
      buffer: seq<byte>)
    requires |pdus| == |plan| && AreDataOuts(pdus, plan, tags, expStatSN, buffer)
    ensures ShapeOf(pdus) == ShapeOfPlan(plan)
    ensures AllExpected(pdus)
    decreases |pdus|
  {
    hide IsDataOut, AreDataOuts, AllExpected, ShapeOfSize;
    ExpectedStep(pdus);
    if pdus != [] {
      DataOutsBehind(pdus, plan, tags, expStatSN, buffer);
      DataOutSize(pdus[0], plan[0], tags, expStatSN, buffer);
      DataOutsShape(pdus[1..], plan[1..], tags, expStatSN, buffer);
    }
  }

  lemma ExpectedStep(pdus: seq<Pdu>)
    ensures pdus == [] ==> AllExpected(pdus)
    ensures pdus != [] ==>
      (AllExpected(pdus) <==>
        Expected(pdus[0].bhs.opCode) && pdus[0].bhs.totalAHSLength == 0 && AllExpected(pdus[1..]))
  {
    hide Expected;
    assert forall k :: 0 < k < |pdus| ==> pdus[k] == pdus[1..][k - 1];
    assert forall k :: 0 <= k < |pdus| - 1 ==> pdus[1..][k] == pdus[k + 1];
  }

  // ----- what a sequence of PDUs brings to the target -----

  /** PDUs that carry slices of the buffer, each byte as often as the ranges want it. */
  ghost predicate Brings(pdus: seq<Pdu>, buffer: seq<byte>, rs: seq<Range>, shape: Shape) {
    Delivers(Pieces(pdus), buffer, rs) && AllExpected(pdus) && ShapeOf(pdus) == shape
  }

  lemma BringsMore(a: seq<Pdu>, b: seq<Pdu>, buffer: seq<byte>, r: seq<Range>, s: seq<Range>, f: Shape, g: Shape)
    requires Brings(a, buffer, r, f) && Brings(b, buffer, s, g)
    ensures Brings(a + b, buffer, r + s, Both(f, g))
  {
    hide Pieces, Delivers, ShapeOf, Expected, Both;
    PiecesAppend(a, b);
    DeliversMore(Pieces(a), Pieces(b), buffer, r, s);
    ShapeAppend(a, b);
  }

  /** Data-Out PDUs for a range of the buffer bring that range. */
  lemma DataOutBrings(pdus: seq<Pdu>, offset: u32, length: u32, M: u32, tags: Tags, expStatSN: u32, buffer: seq<byte>)
    requires M > 0 && offset + length <= |buffer| < TWO32
    requires |pdus| == |Plan(offset, length, M, 0)|
    requires AreDataOuts(pdus, Plan(offset, length, M, 0), tags, expStatSN, buffer)
    ensures Brings(pdus, buffer, [Range(offset, length)], ShapeOfRequest(M, length))
  {
    hide Plan, AreDataOuts, PieceOf, Pieces, Copies, Wanted, ShapeOf, ShapeOfPlan, ShapeOfRequest, AllExpected;
    DataOutPieces(pdus, offset, length, M, 0, tags, expStatSN, buffer);
    DataOutsShape(pdus, Plan(offset, length, M, 0), tags, expStatSN, buffer);
    PlanShapeOf(offset, length, M, 0);
    forall i: nat
      ensures Copies(Pieces(pdus), i) == Wanted([Range(offset, length)], i)
    {
      OneRange(Range(offset, length), i);
    }
  }

  lemma CommandPiece(p: Pdu, task: Task, taskTag: seq<byte>, size: u32, noUnsolicited: bool, immediate: u32,
      cmdSN: u32, expStatSN: u32)
    requires task.Valid() && |taskTag| == 4
    requires IsCommand(p, task, taskTag, size, noUnsolicited, immediate, cmdSN, expStatSN)
    requires immediate <= |task.buffer|
    ensures PieceOf(p) == Piece(0, task.buffer[0..immediate])
    ensures p.bhs.opCode == SCSI_CMD && p.bhs.totalAHSLength == 0 && |p.data| == immediate
  {
    hide DataSegmentLengthField, GetDataSegmentLength, BigEndian, Field, Encode;
    HeaderRoundTrip(p.bhs);
    CommandHeader(p, task, taskTag, size, noUnsolicited, immediate, cmdSN, expStatSN);
    assert p.data == task.buffer[0..immediate];
  }

  lemma CommandBrings(p: Pdu, task: Task, taskTag: seq<byte>, size: u32, noUnsolicited: bool, immediate: u32,
      cmdSN: u32, expStatSN: u32)
    requires task.Valid() && |taskTag| == 4
    requires IsCommand(p, task, taskTag, size, noUnsolicited, immediate, cmdSN, expStatSN)
    requires immediate <= |task.buffer|
    ensures Brings([p], task.buffer, [Range(0, immediate)], ShapeOfSize(immediate))
  {
    hide IsCommand, PieceOf, Wanted, Copies;
    CommandPiece(p, task, taskTag, size, noUnsolicited, immediate, cmdSN, expStatSN);
    var piece := PieceOf(p);
    assert Pieces([p]) == [piece] + Pieces([]) == [piece];
    assert SliceOf(piece, task.buffer);
    assert ShapeOf([p]) == Both(ShapeOfSize(|p.data|), ShapeOf([p][1..]));
    forall i: nat
      ensures Copies([piece], i) == Wanted([Range(0, immediate)], i)
    {
      OneCopy(piece, i);
      OneRange(Range(0, immediate), i);
    }
  }

  lemma OneCopy(p: Piece, i: nat)
    ensures Copies([p], i) == Holds(p, i)
  {
    assert Copies([p], i) == Holds(p, i) + Copies([], i);
  }

  /** The shape of the command and its unsolicited data. */
  function ShapeOfOpening(o: Opening, M: u32): Shape {
    Both(ShapeOfSize(o.immediate), ShapeOfRequest(M, o.burst))
  }

  /** What BeginTask sends brings the opening of the transfer. */
  lemma BeginBrings(pdus: seq<Pdu>, task: Task, taskTag: u32, size: u32, o: Opening, M: u32, cmdSN: u32, expStatSN: u32)
    requires task.Valid() && M > 0
    requires |pdus| == 1 + |Plan(o.immediate, o.burst, M, 0)|
    requires IsCommand(pdus[0], task, Memory(taskTag), size, o.noUnsolicited, o.immediate, cmdSN, expStatSN)
    requires
      var plan := Plan(o.immediate, o.burst, M, 0);
      AreDataOuts(pdus[1..], plan, UnsolicitedTags(task, taskTag), expStatSN, task.buffer)
    requires o.immediate + o.burst <= |task.buffer| < TWO32
    ensures Brings(pdus, task.buffer, [Range(0, o.immediate + o.burst)], ShapeOfOpening(o, M))
  {
    hide Plan, AreDataOuts, IsCommand, Brings, Memory, ShapeOfSize, ShapeOfRequest, Both;
    var imm, rest := [Range(0, o.immediate)], [Range(o.immediate, o.burst)];
    CommandBrings(pdus[0], task, Memory(taskTag), size, o.noUnsolicited, o.immediate, cmdSN, expStatSN);
    DataOutBrings(pdus[1..], o.immediate, o.burst, M, UnsolicitedTags(task, taskTag), expStatSN, task.buffer);
    assert pdus == [pdus[0]] + pdus[1..];
    BringsMore([pdus[0]], pdus[1..], task.buffer, imm, rest, ShapeOfSize(o.immediate), ShapeOfRequest(M, o.burst));
    SameRanges(pdus, task.buffer, o.immediate, o.burst, ShapeOfOpening(o, M));
  }

  lemma SameRanges(pdus: seq<Pdu>, buffer: seq<byte>, immediate: nat, burst: nat, shape: Shape)
    requires Brings(pdus, buffer, [Range(0, immediate)] + [Range(immediate, burst)], shape)
    ensures Brings(pdus, buffer, [Range(0, immediate + burst)], shape)
  {
    hide Pieces, Copies, Wanted, ShapeOf, AllExpected;
    var imm, rest := [Range(0, immediate)], [Range(immediate, burst)];
    forall i: nat
      ensures Wanted(imm + rest, i) == Wanted([Range(0, immediate + burst)], i)
    {
      WantedAppend(imm, rest, i);
      OneRange(imm[0], i);
      OneRange(rest[0], i);
      OneRange(Range(0, immediate + burst), i);
    }
  }

  // ----- requests -----

  /** The range that an R2T PDU asks for. */
  function RangeOf(r2t: seq<byte>): Range
    requires |r2t| == HEADER_SIZE
  {
    Range(Field(r2t, BUFFER_OFFSET), Field(r2t, DESIRED_LENGTH))
  }

  /** An R2T PDU that asks for length bytes at offset (section 10.8 of RFC 3720) is understood so. */
  lemma RangeOfR2T(start: seq<byte>, offset: u32, length: u32)
    requires |start| == 40
    ensures RangeOf(start + BigEndian(offset) + BigEndian(length)) == Range(offset, length)
  {
    hide BigEndian, FromBigEndian;
    var h := start + BigEndian(offset) + BigEndian(length);
    assert h[40..44] == BigEndian(offset) && h[44..48] == BigEndian(length);
    BigEndianRoundTrip(offset);
    BigEndianRoundTrip(length);
  }

  type R2TPdu = h: seq<byte> | |h| == HEADER_SIZE witness NoBytes(HEADER_SIZE)

  function RangesOf(r2ts: seq<R2TPdu>): (rs: seq<Range>)
    ensures |rs| == |r2ts|
    ensures forall k :: 0 <= k < |r2ts| ==> rs[k] == RangeOf(r2ts[k])
  {
    if r2ts == [] then [] else [RangeOf(r2ts[0])] + RangesOf(r2ts[1..])
  }

  /** The shape of all Data-Out PDUs that answer requests. */
  function ShapeOfRanges(rs: seq<Range>, M: u32): Shape {
    if rs == [] then Shape(true, true) else Both(ShapeOfRequest(M, rs[0].length), ShapeOfRanges(rs[1..], M))
  }

  lemma RangesCons(r2ts: seq<R2TPdu>, M: u32)
    ensures r2ts == [] ==>
      RangesOf(r2ts) == [] && Length(RangesOf(r2ts)) == 0 && ShapeOfRanges(RangesOf(r2ts), M) == Shape(true, true)
    ensures r2ts != [] ==>
      var first, rest := RangeOf(r2ts[0]), RangesOf(r2ts[1..]);
      RangesOf(r2ts) == [first] + rest &&
      Length(RangesOf(r2ts)) == first.length + Length(rest) &&
      ShapeOfRanges(RangesOf(r2ts), M) == Both(ShapeOfRequest(M, first.length), ShapeOfRanges(rest, M))
  {
    hide RangeOf, ShapeOfRequest, Both;
    if r2ts != [] {
      var first, rest := RangeOf(r2ts[0]), RangesOf(r2ts[1..]);
      assert RangesOf(r2ts) == [first] + rest;
      assert ([first] + rest)[1..] == rest;
    }
  }

  lemma BothAssoc(a: Shape, b: Shape, c: Shape)
    ensures Both(Both(a, b), c) == Both(a, Both(b, c))
    ensures Both(a, Shape(true, true)) == a
  {}

  /** No send of the connection fails. */
  ghost predicate Reliable(connection: Connection) {
    forall n: nat :: !connection.sendFails(n)
  }

  lemma {:induction false} AllAccepted(connection: Connection, from: nat, n: nat)
    requires Reliable(connection)
    ensures Accepted(connection.sendFails, from, n) == n
    decreases n
  {
    if n > 0 {
      AllAccepted(connection, from + 1, n - 1);
    }
  }

  // ----- the methods -----

  /** Answering one R2T within the buffer brings its range. */
  method AnswerR2T(session: Session, connection: Connection, task: Task, r2t: R2TPdu,
      ghost sofar: seq<Pdu>, ghost rs: seq<Range>, ghost shape: Shape)
    requires connection.Balanced() && Reliable(connection) && connection.maxSendDataSegmentLength > 0
    requires RangeOf(r2t).offset + RangeOf(r2t).length <= |task.buffer| < TWO32
    requires |sofar| <= |connection.sent| && connection.sent[..|sofar|] == sofar
    requires Brings(connection.sent[|sofar|..], task.buffer, rs, shape)
    modifies session`cmdSN, connection, task`realized
    ensures |sofar| <= |connection.sent| && connection.sent[..|sofar|] == sofar
    ensures
      Brings(connection.sent[|sofar|..], task.buffer, rs + [RangeOf(r2t)],
        Both(shape, ShapeOfRequest(connection.maxSendDataSegmentLength, RangeOf(r2t).length)))
    ensures
      Grown(DigestsOf(connection), old(connection.outbound), old(connection.sent), connection.outbound, connection.sent)
    ensures connection.Balanced() && connection.requested == old(connection.requested)
    ensures connection.counted == old(connection.counted) + RangeOf(r2t).length
    ensures task.realized == (old(task.realized) + RangeOf(r2t).length) % TWO64
    ensures session.cmdSN == old(session.cmdSN) && Parameters(connection) == old(Parameters(connection))
  {
    hide Plan, AreDataOuts, Field, Accepted, Total, Brings, Grown, ShapeOfRequest, Both;
    ghost var mid, r, M := connection.sent, RangeOf(r2t), connection.maxSendDataSegmentLength;
    ghost var part := Plan(r.offset, r.length, M, 0);
    AllAccepted(connection, connection.sends, |part|);
    PlanTotal(r.offset, r.length, M, 0);
    assert part[..|part|] == part;
    ProcessR2T(session, connection, task, r2t);
    ghost var more := connection.sent[|mid|..];
    DataOutBrings(more, r.offset, r.length, M, TagsOf(r2t), connection.expStatSN, task.buffer);
    assert connection.sent[|sofar|..] == mid[|sofar|..] + more;
    BringsMore(mid[|sofar|..], more, task.buffer, rs, [r], shape, ShapeOfRequest(M, r.length));
    assert connection.sent[..|sofar|] == mid[..|sofar|];
  }

  /** Starting a WRITE brings its opening. */
  method StartWrite(session: Session, connection: Connection, task: Task, taskTag: u32)
    requires task.Valid() && task.direction == ToTarget && |task.buffer| == task.requested < TWO32
    requires connection.Balanced() && Reliable(connection) && connection.maxSendDataSegmentLength > 0
    modifies session`cmdSN, connection, task`realized
    ensures
      var o := OpeningOf(ToTarget, task.requested, old(TermsOf(session, connection)));
      var before := old(connection.sent);
      |before| <= |connection.sent| && connection.sent[..|before|] == before &&
      Brings(connection.sent[|before|..], task.buffer, [Range(0, o.immediate + o.burst)],
        ShapeOfOpening(o, connection.maxSendDataSegmentLength)) &&
      connection.counted == old(connection.counted) + (o.immediate + o.burst) &&
      task.realized == (old(task.realized) + (o.immediate + o.burst)) % TWO64
    ensures
      Grown(DigestsOf(connection), old(connection.outbound), old(connection.sent), connection.outbound, connection.sent)
    ensures connection.Balanced() && connection.requested == old(connection.requested)
    ensures session.cmdSN == (old(session.cmdSN) + 1) % TWO32 && Parameters(connection) == old(Parameters(connection))
  {
    hide Plan, AreDataOuts, IsCommand, Accepted, Total, OpeningOf, Brings, ShapeOfOpening, Memory, Grown;
    ghost var o := OpeningOf(ToTarget, task.requested, TermsOf(session, connection));
    ghost var before, cmdSN, M := connection.sent, session.cmdSN, connection.maxSendDataSegmentLength;
    UnsolicitedWithinFirstBurst(ToTarget, task.requested, TermsOf(session, connection));
    ghost var plan := Plan(o.immediate, o.burst, M, 0);
    AllAccepted(connection, connection.sends + 1, |plan|);
    PlanTotal(o.immediate, o.burst, M, 0);
    assert plan[..|plan|] == plan;
    BeginTask(session, connection, task, taskTag);
    ghost var opening := connection.sent[|before|..];
    assert opening[1..] == connection.sent[|before| + 1..];
    BeginBrings(opening, task, taskTag, task.requested, o, M, cmdSN, connection.expStatSN);
  }

  /** Answering R2Ts one after the other brings all their ranges. */
  method AnswerAll(session: Session, connection: Connection, task: Task, r2ts: seq<R2TPdu>,
      ghost sofar: seq<Pdu>, ghost rs: seq<Range>, ghost shape: Shape)
    requires connection.Balanced() && Reliable(connection) && connection.maxSendDataSegmentLength > 0
    requires |task.buffer| < TWO32 && forall r :: r in RangesOf(r2ts) ==> r.offset + r.length <= |task.buffer|
    requires |sofar| <= |connection.sent| && connection.sent[..|sofar|] == sofar
    requires Brings(connection.sent[|sofar|..], task.buffer, rs, shape)
    modifies session`cmdSN, connection, task`realized
    ensures |sofar| <= |connection.sent| && connection.sent[..|sofar|] == sofar
    ensures
      Brings(connection.sent[|sofar|..], task.buffer, rs + RangesOf(r2ts),
        Both(shape, ShapeOfRanges(RangesOf(r2ts), connection.maxSendDataSegmentLength)))
    ensures
      Grown(DigestsOf(connection), old(connection.outbound), old(connection.sent), connection.outbound, connection.sent)
    ensures connection.Balanced() && connection.requested == old(connection.requested)
    ensures connection.counted == old(connection.counted) + Length(RangesOf(r2ts))
    ensures task.realized == (old(task.realized) + Length(RangesOf(r2ts))) % TWO64
    ensures session.cmdSN == old(session.cmdSN) && Parameters(connection) == old(Parameters(connection))
    decreases |r2ts|
  {
    hide Brings, RangeOf, RangesOf, Length, ShapeOfRanges, ShapeOfRequest, Grown, Both;
    ghost var d, M := DigestsOf(connection), connection.maxSendDataSegmentLength;
    ghost var out0, sent0 := connection.outbound, connection.sent;
    RangesCons(r2ts, M);
    if r2ts == [] {
      assert rs + RangesOf(r2ts) == rs;
      BothAssoc(shape, shape, shape);
      GrownByNothing(d, out0, sent0);
    } else {
      ghost var r := RangeOf(r2ts[0]);
      assert r in RangesOf(r2ts);
      AnswerR2T(session, connection, task, r2ts[0], sofar, rs, shape);
      ghost var out1, sent1 := connection.outbound, connection.sent;
      AnswerAll(session, connection, task, r2ts[1..], sofar, rs + [r], Both(shape, ShapeOfRequest(M, r.length)));
      BothAssoc(shape, ShapeOfRequest(M, r.length), ShapeOfRanges(RangesOf(r2ts[1..]), M));
      GrownTwice(d, out0, sent0, out1, sent1, connection.outbound, connection.sent);
      assert rs + RangesOf(r2ts) == rs + [r] + RangesOf(r2ts[1..]);
      Realized(old(task.realized), r.length, Length(RangesOf(r2ts[1..])));
    }
  }

  /** The shape of a whole WRITE, told beforehand from the negotiated terms, the size and the requests. */
  function WriteShape(o: Opening, rs: seq<Range>, M: u32): Shape {
    Both(ShapeOfOpening(o, M), ShapeOfRanges(rs, M))
  }

  predicate AllZeros(s: seq<byte>) {
    forall i :: 0 <= i < |s| ==> s[i] == 0
  }

  ghost predicate AllAgree(d: Digests, pdus: seq<Pdu>) {
    forall k :: 0 <= k < |pdus| ==> Agrees(d, pdus[k].data)
  }

  /** The bytes of a WRITE and what a target that follows the standard gets from them.  It reads the PDUs
      that were sent exactly when they all fit the length field and their digests agree with those of the
      standard.  They carry each byte of the buffer exactly once.  If they fit, the target's memory ends up
      equal to the buffer exactly when the digests agree, and it gets nothing otherwise.  The digests agree
      for every buffer when they are off or no segment needs padding, but not for a buffer of zeros
      when one does.  And where a segment does not fit, a buffer of nothing but ones never arrives. */
  ghost predicate Arrives(d: Digests, wire: seq<byte>, pdus: seq<Pdu>, buffer: seq<byte>, shape: Shape) {
    (ReadAll(Standard, d, wire) == Reading(AsRead(pdus), []) <==> shape.fit && AllAgree(d, pdus)) &&
    (forall i: nat :: Copies(Pieces(pdus), i) == if i < |buffer| then 1 else 0) &&
    (forall memory: seq<byte> :: |memory| == |buffer| && shape.fit ==>
      Target(d, wire, memory) == if AllAgree(d, pdus) then Some(buffer) else None) &&
    (!d.data || shape.aligned ==> AllAgree(d, pdus)) &&
    (d.data && !shape.aligned && AllZeros(buffer) ==> !AllAgree(d, pdus)) &&
    (forall memory: seq<byte> :: |memory| == |buffer| && !shape.fit && AllOnes(buffer) ==>
      Target(d, wire, memory) == None)
  }

  /** A WRITE from its command to its last R2T, over a connection whose sends succeed, when the target's
      requests tile what was not sent unsolicited, in whatever order.  For every buffer, all negotiated
      terms and every segment size, each byte is sent once and counted once; every buffer arrives at the
      target exactly when no PDU carries 2^24 bytes or more, and data digests are off or no PDU needs
      padding. */
  method PerformWrite(session: Session, connection: Connection, task: Task, taskTag: u32, r2ts: seq<R2TPdu>)
    requires task.Valid() && task.direction == ToTarget && |task.buffer| == task.requested < TWO32
    requires connection.Balanced() && Reliable(connection) && connection.maxSendDataSegmentLength > 0
    requires
      var o := OpeningOf(ToTarget, task.requested, TermsOf(session, connection));
      Tiles(RangesOf(r2ts), o.immediate + o.burst, task.requested)
    modifies session`cmdSN, connection, task`realized
    ensures |old(connection.sent)| <= |connection.sent|
    ensures connection.sent[..|old(connection.sent)|] == old(connection.sent)
    ensures old(connection.outbound) <= connection.outbound
    ensures
      var o := OpeningOf(ToTarget, task.requested, old(TermsOf(session, connection)));
      Arrives(DigestsOf(connection), connection.outbound[|old(connection.outbound)|..],
        connection.sent[|old(connection.sent)|..], task.buffer,
        WriteShape(o, RangesOf(r2ts), connection.maxSendDataSegmentLength))
    ensures connection.Balanced() && connection.requested == old(connection.requested)
    ensures connection.counted == old(connection.counted) + task.requested
    ensures task.realized == (old(task.realized) + task.requested) % TWO64
    ensures session.cmdSN == (old(session.cmdSN) + 1) % TWO32
  {
    hide Brings, Arrives, OpeningOf, ShapeOfOpening, ShapeOfRanges, Both, Length, Wanted, RangesOf, Grown, Tiles;
    hide MinOf, Reliable;
    ghost var before, size, M := connection.sent, task.requested, connection.maxSendDataSegmentLength;
    ghost var d, wire := DigestsOf(connection), connection.outbound;
    ghost var o := OpeningOf(ToTarget, size, TermsOf(session, connection));
    ghost var u := o.immediate + o.burst;
    UnsolicitedWithinFirstBurst(ToTarget, size, TermsOf(session, connection));
    TilesWithin(RangesOf(r2ts), u, size);
    StartWrite(session, connection, task, taskTag);
    ghost var out1, sent1 := connection.outbound, connection.sent;
    AnswerAll(session, connection, task, r2ts, before, [Range(0, u)], ShapeOfOpening(o, M));
    GrownTwice(d, wire, before, out1, sent1, connection.outbound, connection.sent);
    GrownWire(d, wire, before, connection.outbound, connection.sent);
    WriteArrives(d, connection.sent[|before|..], task.buffer, u, RangesOf(r2ts), WriteShape(o, RangesOf(r2ts), M));
    TilesLength(RangesOf(r2ts), u, size);
    RealizedWhole(old(task.realized), u, Length(RangesOf(r2ts)), size);
  }

  lemma RealizedWhole(a: nat, u: nat, n: nat, size: nat)
    requires u + n == size
    ensures ((a + u) % TWO64 + n) % TWO64 == (a + size) % TWO64
  {
    Realized(a, u, n);
  }

  lemma TilesWithin(rs: seq<Range>, lo: nat, hi: nat)
    requires Tiles(rs, lo, hi)
    ensures forall r :: r in rs ==> r.offset + r.length <= hi
  {}

  lemma GrownWire(d: Digests, out0: seq<byte>, sent0: seq<Pdu>, out1: seq<byte>, sent1: seq<Pdu>)
    requires Grown(d, out0, sent0, out1, sent1)
    ensures |sent0| <= |sent1| && sent1[..|sent0|] == sent0 && out0 <= out1
    ensures AllStamped(sent1[|sent0|..]) && out1[|out0|..] == Wire(d, sent1[|sent0|..])
  {
    hide Wire, AllStamped;
  }

  /** The opening and requests that tile the rest bring the buffer. */
  lemma WriteArrives(d: Digests, pdus: seq<Pdu>, buffer: seq<byte>, u: nat, rs: seq<Range>, shape: Shape)
    requires u <= |buffer| && Tiles(rs, u, |buffer|)
    requires AllStamped(pdus) && Brings(pdus, buffer, [Range(0, u)] + rs, shape)
    ensures Arrives(d, Wire(d, pdus), pdus, buffer, shape)
  {
    hide Wanted, Copies, Pieces, Wire, ReadAll, AllStamped, AllFit, AllExpected, AllRead, Reassemble, Target;
    hide SliceOf, ShapeOf, Agrees, AllOnes;
    var wire, ps := Wire(d, pdus), Pieces(pdus);
    WireRoundTripIff(Standard, d, pdus);
    ReadByStandardIff(d, pdus);
    NoneHasAHS(pdus);
    ShapeMeans(pdus);
    AgreeByShape(d, pdus, buffer);
    forall i: nat
      ensures Copies(ps, i) == if i < |buffer| then 1 else 0
    {
      WantedAppend([Range(0, u)], rs, i);
      OneRange(Range(0, u), i);
    }
    forall memory: seq<byte> | |memory| == |buffer| && shape.fit
      ensures Target(d, wire, memory) == if AllAgree(d, pdus) then Some(buffer) else None
    {
      if AllAgree(d, pdus) {
        TargetOfWire(d, pdus, memory);
        Reassembled(memory, ps, buffer);
      } else {
        FailedIsUnusable();
        UnusableForTarget(d, wire, memory);
      }
    }
    if !shape.fit && AllOnes(buffer) {
      OnesInPieces(pdus, buffer);
      UnfitOnes(d, pdus);
      forall memory: seq<byte>
        ensures Target(d, wire, memory) == None
      {
        UnusableForTarget(d, wire, memory);
      }
    }
  }

  lemma NoneHasAHS(pdus: seq<Pdu>)
    requires AllExpected(pdus)
    ensures forall k :: 0 <= k < |pdus| ==> pdus[k].bhs.totalAHSLength == 0
  {}

  /** Whether the digests agree, as far as sizes and a buffer of zeros tell. */
  lemma AgreeByShape(d: Digests, pdus: seq<Pdu>, buffer: seq<byte>)
    requires forall p :: p in Pieces(pdus) ==> SliceOf(p, buffer)
    ensures !d.data || ShapeOf(pdus).aligned ==> AllAgree(d, pdus)
    ensures d.data && !ShapeOf(pdus).aligned && AllZeros(buffer) ==> !AllAgree(d, pdus)
  {
    hide Pieces, PieceOf, SliceOf, AllZeros, ShapeOf, Indifferent, Checksum;
    ShapeMeans(pdus);
    if d.data && !ShapeOf(pdus).aligned && AllZeros(buffer) {
      var k :| 0 <= k < |pdus| && |pdus[k].data| % 4 != 0;
      PiecesAt(pdus, k);
      assert Pieces(pdus)[k] in Pieces(pdus);
      PieceData(pdus[k]);
      SliceOfZeros(PieceOf(pdus[k]), buffer);
      ZerosDisagree(d, pdus[k].data);
    }
  }

  lemma SliceOfZeros(p: Piece, buffer: seq<byte>)
    requires AllZeros(buffer) && SliceOf(p, buffer)
    ensures forall i :: 0 <= i < |p.data| ==> p.data[i] == 0
  {}

  lemma UnusableForTarget(d: Digests, wire: seq<byte>, memory: seq<byte>)
    requires Unusable(ReadAll(Standard, d, wire))
    ensures Target(d, wire, memory) == None
  {
    hide ReadAll;
  }

  lemma OnesInPieces(pdus: seq<Pdu>, buffer: seq<byte>)
    requires AllOnes(buffer) && forall p :: p in Pieces(pdus) ==> SliceOf(p, buffer)
    ensures forall k :: 0 <= k < |pdus| ==> AllOnes(pdus[k].data)
  {
    hide Pieces, PieceOf, AllOnes, SliceOf;
    forall k | 0 <= k < |pdus|
      ensures AllOnes(pdus[k].data)
    {
      PiecesAt(pdus, k);
      assert Pieces(pdus)[k] in Pieces(pdus);
      PieceData(pdus[k]);
      SliceOfOnes(PieceOf(pdus[k]), buffer);
    }
  }

  lemma SliceOfOnes(p: Piece, buffer: seq<byte>)
    requires AllOnes(buffer) && SliceOf(p, buffer)
    ensures AllOnes(p.data)
  {}

  lemma PieceData(p: Pdu)
    ensures PieceOf(p).data == p.data
  {
    hide Encode, Field;
  }

  /** A segment size of 2^24 - 1 is the largest that always fits: with 2^24, and as much unsolicited
      data allowed, a WRITE of 2^24 bytes already holds a Data-Out PDU that does not. */
  lemma LargestSegment(o: Opening, rs: seq<Range>)
    ensures o.immediate < 0x100_0000 ==> WriteShape(o, rs, 0xff_ffff).fit
    ensures
      var terms := Terms(false, false, 0x100_0000, 0x100_0000);
      !WriteShape(OpeningOf(ToTarget, 0x100_0000, terms), [], 0x100_0000).fit
  {
    RangesAlwaysFit(rs, 0xff_ffff);
  }

  lemma {:induction false} RangesAlwaysFit(rs: seq<Range>, M: u32)
    requires M < 0x100_0000
    ensures ShapeOfRanges(rs, M).fit
    decreases |rs|
  {
    if rs != [] {
      RangesAlwaysFit(rs[1..], M);
    }
  }

  /** When the immediate part, the burst, the segment size and every requested length are multiples of 4,
      no PDU needs padding. */
  lemma {:induction false} MultiplesOfFour(o: Opening, rs: seq<Range>, M: u32)
    requires o.immediate % 4 == 0 && o.burst % 4 == 0 && M % 4 == 0
    requires forall r :: r in rs ==> r.length % 4 == 0
    ensures WriteShape(o, rs, M).aligned
    decreases |rs|
  {
    if rs != [] {
      assert rs[0] in rs;
      MultiplesOfFour(o, rs[1..], M);
    }
  }

  /** A WRITE of one byte as immediate data, with a segment size of 8192: it fits, but it needs padding,
      and with data digests a byte of zero does not arrive. */
  lemma OneByteWrite(d: Digests, p: Pdu, tail: seq<byte>)
    requires d.data && Stamped(p) && p.data == [0]
    ensures
      var terms := Terms(true, true, 65536, 8192);
      var o := OpeningOf(ToTarget, 1, terms);
      o == Opening(true, 1, 0) && WriteShape(o, [], 8192) == Shape(true, false)
    ensures ReadOne(Standard, d, Frame(d, Encode(p.bhs), p.data) + tail) == Failed
  {
    hide ReadOne, Frame, Encode, Stamped, Checksum, PaddedChecksum;
    ZerosDisagree(d, [0]);
    FrameRoundTrip(Standard, d, p, tail);
  }
}
