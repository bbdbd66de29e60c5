/** The receiving half of the data path: Data-In, and a whole READ. */
module ReadPath {
  import opened Words
  import opened Hba
  import opened PduFraming
  import opened DataPath
  import opened Reassembly
  import opened PduDigests

  /** ProcessDataIn for a task that was found: a segment that arrives intact goes to its place in the
      buffer and is counted, a damaged one leaves both alone; either way a PDU with the F and S bits
      completes the task.  A PDU without data is ignored altogether, even if it carries status.  What
      the local buffer held before matters only for a segment that has only partly arrived. */
  method ProcessDataIn(connection: Connection, task: Task, bhs: seq<byte>)
    returns (complete: bool, ghost held: seq<byte>)
    requires |bhs| == HEADER_SIZE && connection.Balanced()
    modifies connection`inbound, connection`dataToTransfer, connection`counted, task`buffer, task`realized
    ensures connection.Balanced() && |held| == GetDataSegmentLength(bhs[5..8])
    ensures
      var length := GetDataSegmentLength(bhs[5..8]);
      var offset := Field(bhs, 40);
      var t := TakeData(DigestsOf(connection), length, old(connection.inbound), held);
      var intact := length > 0 && t.error == Ok;
      complete == (length > 0 && bhs[1] >= 0x80 && bhs[1] % 2 == 1) &&
      task.buffer == (if intact then WriteBytes(old(task.buffer), offset, t.bytes) else old(task.buffer)) &&
      connection.counted == old(connection.counted) + (if intact then length else 0) &&
      connection.inbound == (if length > 0 then t.rest else old(connection.inbound)) &&
      task.realized ==
        if complete then task.requested % TWO32
        else if intact then (offset + length) % TWO32 else old(task.realized)
  {
    hide GetDataSegmentLength, TakeData, SegmentSize, WriteBytes, FromBigEndian;
    var length := GetDataSegmentLength(bhs[5..8]);
    held := [];
    if length == 0 {
      return false, [];
    }
    var buffer := new byte[length];
    held := buffer[..];
    var dataOffset := Field(bhs, BUFFER_OFFSET);
    var error := RecvPDUData(connection, buffer);
    if error == Ok {
      task.buffer := WriteBytes(task.buffer, dataOffset, buffer[..]);
      task.realized := (dataOffset + length) % TWO32;
      Subtract64(connection.requested, connection.counted, length);
      connection.dataToTransfer := (connection.dataToTransfer - length) % TWO64;
      connection.counted := connection.counted + length;
    }
    complete := LastWithStatus(bhs);
    if complete {
      task.realized := task.requested % TWO32;
    }
  }

  /** The F and S bits. */
  predicate LastWithStatus(bhs: seq<byte>)
    requires |bhs| == HEADER_SIZE
  {
    bhs[1] >= 0x80 && bhs[1] % 2 == 1
  }

  /** Of the Data-In PDUs, those complete a task that have the F bit and whose status the reception of the
      header has taken note of. */
  lemma CompletionHasStatus(h: seq<byte>)
    requires |h| == HEADER_SIZE && h[0] == 0x25
    ensures LastWithStatus(h) <==> h[1] / 0x80 == 1 && !Silent(h)
  {}

  // ----- a whole READ -----

  /** A Data-In PDU with data, as a target sends it. */
  ghost predicate IsDataIn(p: ReadPdu) {
    Announces(p.header, p.data) && p.header[0] == DATA_IN && p.data != []
  }

  type DataInPdu = p: ReadPdu | IsDataIn(p) ghost witness FirstDataIn()

  ghost function FirstDataIn(): (p: ReadPdu)
    ensures IsDataIn(p)
  {
    LengthOfBytes(0, 0, 1);
    var header := [DATA_IN] + NoBytes(4) + [0, 0, 1] + NoBytes(40);
    assert header[5..8] == [0, 0, 1];
    ReadPdu(header, [0])
  }

  /** A PDU as a target that follows the standard sends it: its data digest covers the padding. */
  ghost function StandardFrame(d: Digests, p: DataInPdu): seq<byte> {
    p.header + (if d.header then WordBytes(Checksum(p.header)) else []) + ConformingSegment(d, p.data)
  }

  ghost function Frames(d: Digests, ins: seq<DataInPdu>): seq<byte> {
    if ins == [] then [] else StandardFrame(d, ins[0]) + Frames(d, ins[1..])
  }

  /** The PDUs whose digest is the same with and without the padding. */
  ghost function Accepted(d: Digests, ins: seq<DataInPdu>): seq<DataInPdu> {
    if ins == [] then [] else (if Agrees(d, ins[0].data) then [ins[0]] else []) + Accepted(d, ins[1..])
  }

  ghost function PieceIn(p: DataInPdu): Piece {
    Piece(Field(p.header, BUFFER_OFFSET), p.data)
  }

  ghost function PiecesIn(ins: seq<DataInPdu>): seq<Piece> {
    if ins == [] then [] else [PieceIn(ins[0])] + PiecesIn(ins[1..])
  }

  ghost function BytesIn(ins: seq<DataInPdu>): nat {
    if ins == [] then 0 else |ins[0].data| + BytesIn(ins[1..])
  }

  /** The PDU carries status that counts: its S bit is set, and neither its status number nor its tag is
      reserved. */
  ghost predicate BringsStatus(p: DataInPdu) {
    var reserved := [0xff, 0xff, 0xff, 0xff];
    p.header[1] % 2 == 1 && p.header[24..28] != reserved && p.header[16..20] != reserved
  }

  /** F and S are set. */
  ghost predicate Completes(p: DataInPdu) {
    p.header[1] >= 0x80 && p.header[1] % 2 == 1
  }

  ghost function StatusCount(ins: seq<DataInPdu>): nat {
    if ins == [] then 0 else (if BringsStatus(ins[0]) then 1 else 0) + StatusCount(ins[1..])
  }

  lemma StatusOfHeader(p: DataInPdu)
    ensures Silent(p.header) <==> p.header[1] % 2 == 0
    ensures BringsStatus(p) <==> !Silent(p.header) && Counts(p.header)
  {
    hide Counts;
    StatusCountsIff(p.header);
  }

  /** The fields that ProcessDataIn reads are not among those that RecvPDUHeader swaps. */
  lemma HostOrderKeeps(h: seq<byte>)
    requires |h| == HEADER_SIZE
    ensures HostOrder(h)[0] == h[0] && HostOrder(h)[1] == h[1]
    ensures HostOrder(h)[5..8] == h[5..8] && HostOrder(h)[40..44] == h[40..44]
  {}

  lemma Regroup(a: seq<byte>, b: seq<byte>, c: seq<byte>, e: seq<byte>, t: seq<byte>)
    ensures a + b + c + e + t == a + b + (c + (e + t))
  {}

  lemma FramesStep(d: Digests, ins: seq<DataInPdu>, tail: seq<byte>)
    requires ins != []
    ensures
      var p, behind := ins[0], Frames(d, ins[1..]) + tail;
      var digest := if d.header then WordBytes(Checksum(p.header)) else [];
      Frames(d, ins) + tail == p.header + digest + (ConformingSegment(d, p.data) + behind)
  {
    hide Checksum, WordBytes, ConformingSegment, IsDataIn;
    var p := ins[0];
    Regroup(p.header, if d.header then WordBytes(Checksum(p.header)) else [], ConformingSegment(d, p.data),
      Frames(d, ins[1..]), tail);
  }

  /** One Data-In PDU off the stream: the header, then its data, which is refused if its digest does not
      agree with that of the driver.  Its status counts in any case. */
  method ReceiveDataIn(session: Session, connection: Connection, task: Task,
      ghost p: DataInPdu, ghost behind: seq<byte>)
    returns (complete: bool)
    requires connection.Balanced()
    requires
      var d := DigestsOf(connection);
      var digest := if d.header then WordBytes(Checksum(p.header)) else [];
      connection.inbound == p.header + digest + (ConformingSegment(d, p.data) + behind)
    modifies session`expCmdSN, session`maxCmdSN, connection`expStatSN
    modifies connection`inbound, connection`dataToTransfer, connection`counted, task`buffer, task`realized
    ensures connection.Balanced() && connection.inbound == behind
    ensures
      if Agrees(DigestsOf(connection), p.data) then
        connection.counted == old(connection.counted) + |p.data| &&
        task.buffer == WriteBytes(old(task.buffer), PieceIn(p).offset, PieceIn(p).data)
      else
        connection.counted == old(connection.counted) && task.buffer == old(task.buffer)
    ensures complete == Completes(p)
    ensures complete ==> task.realized == task.requested % TWO32
    ensures connection.expStatSN == Wrap(old(connection.expStatSN) + if BringsStatus(p) then 1 else 0)
  {
    hide TakeHeader, TakeData, WriteBytes, HostOrder, Silent, ConformingSegment, WordBytes, Checksum, FromBigEndian;
    hide GetDataSegmentLength, Counts, Agrees, BringsStatus;
    StatusOfHeader(p);
    ghost var d := DigestsOf(connection);
    TakeHeaderOfFrame(d, p.header, ConformingSegment(d, p.data) + behind);
    var error, bhs := RecvPDUHeader(session, connection);
    HostOrderKeeps(p.header);
    assert bhs[0] == p.header[0] && bhs[1] == p.header[1];
    assert bhs[5..8] == p.header[5..8] && bhs[40..44] == p.header[40..44];
    ghost var held;
    complete, held := ProcessDataIn(connection, task, bhs);
    ConformingSegmentAcceptedIff(d, p.data, behind, held);
  }

  /** A READ from a target that follows the standard.  What was accepted is in the task's buffer and is
      counted, everything else is neither, and what follows on the stream is left alone.  All bytes are
      counted exactly when all digests agree: when they are off, or no segment needs padding but for those
      with one of two digests.  Then, if the PDUs carry slices of the target's data that together hold
      every byte, in any order and of any sizes, the buffer ends up equal to that data. */
  method PerformRead(session: Session, connection: Connection, task: Task, n: nat,
      ghost ins: seq<DataInPdu>, ghost content: seq<byte>, ghost tail: seq<byte>)
    returns (complete: bool)
    requires n == |ins| && connection.Balanced()
    requires connection.inbound == Frames(DigestsOf(connection), ins) + tail
    requires |task.buffer| == |content|
    requires forall p :: p in PiecesIn(ins) ==> SliceOf(p, content)
    requires forall i :: 0 <= i < |content| ==> Copies(PiecesIn(ins), i) > 0
    modifies session`expCmdSN, session`maxCmdSN, connection`expStatSN
    modifies connection`inbound, connection`dataToTransfer, connection`counted, task`buffer, task`realized
    ensures connection.inbound == tail
    ensures
      var accepted := Accepted(DigestsOf(connection), ins);
      task.buffer == Reassemble(old(task.buffer), PiecesIn(accepted)) &&
      connection.counted == old(connection.counted) + BytesIn(accepted)
    ensures
      connection.counted == old(connection.counted) + BytesIn(ins) <==>
      forall k :: 0 <= k < |ins| ==> Agrees(DigestsOf(connection), ins[k].data)
    ensures (forall k :: 0 <= k < |ins| ==> Agrees(DigestsOf(connection), ins[k].data)) ==> task.buffer == content
    ensures connection.Balanced()
    ensures complete <==> ins != [] && Completes(ins[|ins| - 1])
    ensures complete ==> task.realized == task.requested % TWO32
    ensures connection.expStatSN == Wrap(old(connection.expStatSN) + StatusCount(ins))
  {
    hide Copies, SliceOf, Frames, PiecesIn, BytesIn, Reassemble, WriteBytes, StatusCount, BringsStatus;
    hide ConformingSegment, WordBytes, Checksum, Accepted, Agrees, Wrap, IsDataIn;
    ghost var d, buffer, all := DigestsOf(connection), task.buffer, Accepted(DigestsOf(connection), ins);
    complete := false;
    assert ins[0..] == ins;
    for i := 0 to n
      invariant connection.Balanced() && d == DigestsOf(connection)
      invariant connection.inbound == Frames(d, ins[i..]) + tail
      invariant |task.buffer| == |buffer|
      invariant Reassemble(task.buffer, PiecesIn(Accepted(d, ins[i..]))) == Reassemble(buffer, PiecesIn(all))
      invariant connection.counted + BytesIn(Accepted(d, ins[i..])) == old(connection.counted) + BytesIn(all)
      invariant complete <==> i > 0 && Completes(ins[i - 1])
      invariant
        Wrap(connection.expStatSN + StatusCount(ins[i..])) == Wrap(old(connection.expStatSN) + StatusCount(ins))
      invariant complete ==> task.realized == task.requested % TWO32
    {
      FramesStep(d, ins[i..], tail);
      AcceptedStep(d, ins[i..]);
      assert ins[i..][1..] == ins[i + 1..] && ins[i..][0] == ins[i];
      InStep(task.buffer, ins[i], Accepted(d, ins[i + 1..]));
      ghost var statSN := connection.expStatSN;
      StatusStep(statSN, ins[i..]);
      complete := ReceiveDataIn(session, connection, task, ins[i], Frames(d, ins[i + 1..]) + tail);
    }
    NothingIn(d, task.buffer, ins[n..]);
    WrapSmall(connection.expStatSN);
    AllAcceptedIff(d, ins);
    if BytesIn(all) == BytesIn(ins) {
      Reassembled(buffer, PiecesIn(ins), content);
    }
    assert [] + tail == tail;
  }

  lemma StatusStep(statSN: u32, ins: seq<DataInPdu>)
    requires ins != []
    ensures
      var next := Wrap(statSN + if BringsStatus(ins[0]) then 1 else 0);
      Wrap(next + StatusCount(ins[1..])) == Wrap(statSN + StatusCount(ins))
  {
    hide BringsStatus, Wrap, StatusCount, IsDataIn;
    StatusCountStep(ins);
    WrapSum(statSN, if BringsStatus(ins[0]) then 1 else 0, StatusCount(ins[1..]));
  }

  lemma StatusCountStep(ins: seq<DataInPdu>)
    requires ins != []
    ensures StatusCount(ins) == (if BringsStatus(ins[0]) then 1 else 0) + StatusCount(ins[1..])
  {
    hide BringsStatus, IsDataIn;
  }

  lemma AcceptedStep(d: Digests, ins: seq<DataInPdu>)
    requires ins != []
    ensures
      Accepted(d, ins) ==
      if Agrees(d, ins[0].data) then [ins[0]] + Accepted(d, ins[1..]) else Accepted(d, ins[1..])
  {
    hide Agrees, IsDataIn;
  }

  lemma AgreeStep(d: Digests, ins: seq<DataInPdu>)
    requires ins != []
    ensures
      (forall k :: 0 <= k < |ins| ==> Agrees(d, ins[k].data)) <==>
      Agrees(d, ins[0].data) && forall k :: 0 <= k < |ins[1..]| ==> Agrees(d, ins[1..][k].data)
  {
    hide Agrees, IsDataIn;
    assert forall k :: 0 < k < |ins| ==> ins[k] == ins[1..][k - 1];
    assert forall k :: 0 <= k < |ins| - 1 ==> ins[1..][k] == ins[k + 1];
  }

  lemma HasData(p: DataInPdu)
    ensures |p.data| > 0
  {}

  lemma {:induction false} AllAcceptedIff(d: Digests, ins: seq<DataInPdu>)
    ensures BytesIn(Accepted(d, ins)) <= BytesIn(ins)
    ensures BytesIn(Accepted(d, ins)) == BytesIn(ins) <==> forall k :: 0 <= k < |ins| ==> Agrees(d, ins[k].data)
    ensures BytesIn(Accepted(d, ins)) == BytesIn(ins) ==> Accepted(d, ins) == ins
    decreases |ins|
  {
    hide Agrees, IsDataIn, BytesIn, Accepted;
    if ins == [] {
      NothingIn(d, [], ins);
    } else {
      var p, rest := ins[0], Accepted(d, ins[1..]);
      HasData(p);
      AcceptedStep(d, ins);
      AgreeStep(d, ins);
      AllAcceptedIff(d, ins[1..]);
      InStep([], p, rest);
      InStep([], p, ins[1..]);
      assert ins == [p] + ins[1..];
    }
  }

  lemma InStep(memory: seq<byte>, p: DataInPdu, rest: seq<DataInPdu>)
    ensures
      var piece := PieceIn(p);
      Reassemble(memory, PiecesIn([p] + rest)) ==
      Reassemble(WriteBytes(memory, piece.offset, piece.data), PiecesIn(rest))
    ensures BytesIn([p] + rest) == |p.data| + BytesIn(rest)
  {
    hide PieceIn, WriteBytes;
    assert ([p] + rest)[1..] == rest;
    assert ([PieceIn(p)] + PiecesIn(rest))[1..] == PiecesIn(rest);
  }

  lemma NothingIn(d: Digests, memory: seq<byte>, ins: seq<DataInPdu>)
    requires ins == []
    ensures Frames(d, ins) == [] && Accepted(d, ins) == [] && StatusCount(ins) == 0
    ensures Reassemble(memory, PiecesIn([])) == memory && BytesIn([]) == 0
  {}
}
