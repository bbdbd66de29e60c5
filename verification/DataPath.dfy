/** The sending half of the data path of iSCSIVirtualHBA.cpp: immediate data, unsolicited Data-Out and
    Data-Out in answer to R2T, and the ledger of bytes still to transfer. */
module DataPath {
  import opened Words
  import opened Hba
  import opened PduFraming

  const SCSI_CMD: byte := 0x01
  const RESERVED_TAG: u32 := 0xffff_ffff
  const TWO32: nat := 0x1_0000_0000
  const TWO64: nat := 0x1_0000_0000_0000_0000

  // ----- the Data-Out PDUs of one request -----

  datatype Chunk = Chunk(offset: u32, length: u32, dataSN: u32, final: bool)

  /** How ProcessDataOutForTask cuts length bytes at offset into segments of at most M bytes. */
  function Plan(offset: u32, length: u32, M: u32, dataSN: u32): seq<Chunk>
    requires M > 0
    decreases length
  {
    if length == 0 then []
    else if length <= M then [Chunk(offset, length, dataSN, true)]
    else [Chunk(offset, M, dataSN, false)] + Plan((offset + M) % TWO32, length - M, M, (dataSN + 1) % TWO32)
  }

  function Total(cs: seq<Chunk>): nat {
    if cs == [] then 0 else cs[0].length + Total(cs[1..])
  }

  lemma {:induction false} TotalAppend(a: seq<Chunk>, b: seq<Chunk>)
    ensures Total(a + b) == Total(a) + Total(b)
    decreases |a|
  {
    if a == [] {
      assert a + b == b;
    } else {
      assert (a + b)[1..] == a[1..] + b;
      TotalAppend(a[1..], b);
    }
  }

  lemma PlanStep(offset: u32, length: u32, M: u32, dataSN: u32)
    requires M > 0 && length > 0
    ensures
      var plan := Plan(offset, length, M, dataSN);
      var n := if length <= M then length else M;
      |plan| > 0 && plan[0] == Chunk(offset, n, dataSN, length <= M) &&
      plan[1..] == Plan((offset + n) % TWO32, length - n, M, (dataSN + 1) % TWO32)
  {}

  lemma PlanEmpty(offset: u32, M: u32, dataSN: u32)
    requires M > 0
    ensures Plan(offset, 0, M, dataSN) == []
  {}

  /** The PDUs of a request carry exactly its length. */
  lemma {:induction false} PlanTotal(offset: u32, length: u32, M: u32, dataSN: u32)
    requires M > 0
    ensures Total(Plan(offset, length, M, dataSN)) == length
    decreases length
  {
    if length > 0 {
      var n := if length <= M then length else M;
      PlanStep(offset, length, M, dataSN);
      PlanTotal((offset + n) % TWO32, length - n, M, (dataSN + 1) % TWO32);
    }
  }

  /** Segment k: its number, its size, and whether it is the last. */
  ghost predicate Numbering(plan: seq<Chunk>, M: u32, dataSN: nat) {
    forall k :: 0 <= k < |plan| ==>
      plan[k].dataSN == dataSN + k && 0 < plan[k].length <= M &&
      (plan[k].final <==> k == |plan| - 1) && (plan[k].final || plan[k].length == M)
  }

  /** Every segment starts where the one before it ends. */
  ghost predicate Contiguous(plan: seq<Chunk>) {
    forall k :: 0 < k < |plan| ==> plan[k].offset == (plan[k - 1].offset + plan[k - 1].length) % TWO32
  }

  /** The PDUs are numbered from dataSN, only the last has the F bit, and all but the last are full;
      they start at offset and follow each other without a gap. */
  lemma {:induction false} PlanShape(offset: u32, length: u32, M: u32, dataSN: u32)
    requires M > 0 && dataSN + length <= TWO32
    ensures Numbering(Plan(offset, length, M, dataSN), M, dataSN)
    ensures Contiguous(Plan(offset, length, M, dataSN))
    ensures length > 0 ==> |Plan(offset, length, M, dataSN)| > 0 && Plan(offset, length, M, dataSN)[0].offset == offset
    decreases length
  {
    hide Plan;
    if length == 0 {
      PlanEmpty(offset, M, dataSN);
    } else {
      var n := if length <= M then length else M;
      var plan := Plan(offset, length, M, dataSN);
      PlanStep(offset, length, M, dataSN);
      PlanEmpty((offset + n) % TWO32, M, (dataSN + 1) % TWO32);
      if length > n {
        PlanShape((offset + n) % TWO32, length - n, M, dataSN + 1);
      }
      ShapeStep(plan, M, dataSN);
    }
  }

  lemma ShapeStep(plan: seq<Chunk>, M: u32, dataSN: nat)
    requires |plan| > 0
    requires plan[0].dataSN == dataSN && 0 < plan[0].length <= M
    requires plan[0].final <==> |plan| == 1
    requires plan[0].final || plan[0].length == M
    requires |plan| > 1 ==> plan[1].offset == (plan[0].offset + plan[0].length) % TWO32
    requires Numbering(plan[1..], M, dataSN + 1) && Contiguous(plan[1..])
    ensures Numbering(plan, M, dataSN) && Contiguous(plan)
  {
    forall k | 0 < k < |plan|
      ensures plan[k] == plan[1..][k - 1]
    {}
  }

  /** The number of PDUs is the length divided by the segment size, rounded up. */
  lemma {:induction false} PlanCount(offset: u32, length: u32, M: u32, dataSN: u32)
    requires M > 0
    ensures length <= |Plan(offset, length, M, dataSN)| * M < length + M
    decreases length
  {
    hide Plan;
    if length == 0 {
      PlanEmpty(offset, M, dataSN);
    } else {
      var n := if length <= M then length else M;
      var rest := Plan((offset + n) % TWO32, length - n, M, (dataSN + 1) % TWO32);
      PlanStep(offset, length, M, dataSN);
      PlanEmpty((offset + n) % TWO32, M, (dataSN + 1) % TWO32);
      PlanCount((offset + n) % TWO32, length - n, M, (dataSN + 1) % TWO32);
      assert (|rest| + 1) * M == |rest| * M + M;
    }
  }

  /** How many of n sends, starting with send number from, succeed before the first failure. */
  function Accepted(fails: nat -> bool, from: nat, n: nat): (k: nat)
    ensures k <= n
    decreases n
  {
    if n == 0 || fails(from) then 0 else 1 + Accepted(fails, from + 1, n - 1)
  }

  function Memory(x: u32): (s: seq<byte>)
    ensures |s| == 4
  {
    [ByteOfNumber(x, 0), ByteOfNumber(x, 1), ByteOfNumber(x, 2), ByteOfNumber(x, 3)]
  }

  /** What a Data-Out PDU is addressed with, as it lies in memory. */
  datatype TagFields = TagFields(LUN: seq<byte>, task: seq<byte>, transfer: seq<byte>)

  type Tags = t: TagFields | |t.LUN| == 8 && |t.task| == 4 && |t.transfer| == 4
    witness TagFields(NoBytes(8), NoBytes(4), NoBytes(4))

  /** The header of a Data-Out PDU. */
  function DataOutBhs(tags: Tags, c: Chunk): Bhs {
    BhsFields(DATA_OUT, [if c.final then 0x80 else 0, 0, 0], 0, [0, 0, 0], tags.LUN, tags.task, tags.transfer, 0, 0,
      NoBytes(4) + BigEndian(c.dataSN) + BigEndian(c.offset) + NoBytes(4))
  }

  /** p is the Data-Out PDU for chunk c of the buffer; bytes beyond the buffer are not specified. */
  ghost predicate IsDataOut(p: Pdu, c: Chunk, tags: Tags, expStatSN: u32, buffer: seq<byte>) {
    p.bhs == Stamp(DataOutBhs(tags, c), 0, expStatSN, c.length) &&
    |p.data| == c.length &&
    forall i :: 0 <= i < c.length && c.offset + i < |buffer| ==> p.data[i] == buffer[c.offset + i]
  }

  /** IOMemoryDescriptor::readBytes: copies what the buffer has at offset, up to n bytes. */
  method ReadBytes(buffer: seq<byte>, offset: u32, data: array<byte>, n: nat)
    requires n <= data.Length
    modifies data
    ensures forall i :: 0 <= i < n && offset + i < |buffer| ==> data[i] == buffer[offset + i]
  {
    var i := 0;
    while i < n && offset + i < |buffer|
      invariant i <= n
      invariant forall j :: 0 <= j < i && offset + j < |buffer| ==> data[j] == buffer[offset + j]
    {
      data[i] := buffer[offset + i];
      i := i + 1;
    }
  }

  lemma Subtract64(a: int, b: int, c: int)
    ensures ((a - b) % TWO64 - c) % TWO64 == (a - (b + c)) % TWO64
  {}

  lemma Add64(a: int, b: int, c: int)
    ensures ((a - b) % TWO64 + c) % TWO64 == (a + c - b) % TWO64
  {}

  /** A segment has been counted as transferred. */
  method Count(connection: Connection, task: Task, n: u32)
    requires connection.Balanced()
    modifies connection`dataToTransfer, connection`counted, task`realized
    ensures connection.Balanced() && connection.counted == old(connection.counted) + n
    ensures task.realized == (old(task.realized) + n) % TWO64
  {
    task.realized := (task.realized + n) % TWO64;
    Subtract64(connection.requested, connection.counted, n);
    connection.dataToTransfer := (connection.dataToTransfer - n) % TWO64;
    connection.counted := connection.counted + n;
  }

  // ----- sending the Data-Out PDUs -----

  /** pdus are the Data-Out PDUs of the first |pdus| chunks of plan. */
  ghost predicate AreDataOuts(pdus: seq<Pdu>, plan: seq<Chunk>, tags: Tags, expStatSN: u32, buffer: seq<byte>) {
    |pdus| <= |plan| &&
    forall k :: 0 <= k < |pdus| ==> IsDataOut(pdus[k], plan[k], tags, expStatSN, buffer)
  }

  /** All sends before the first failure, and no more. */
  lemma {:induction false} AcceptedMeans(fails: nat -> bool, from: nat, n: nat)
    ensures
      var k := Accepted(fails, from, n);
      (forall i :: from <= i < from + k ==> !fails(i)) && (k < n ==> fails(from + k))
    decreases n
  {
    if n > 0 && !fails(from) {
      AcceptedMeans(fails, from + 1, n - 1);
    }
  }

  lemma {:induction false} AcceptedStep(fails: nat -> bool, from: nat, done: nat, n: nat)
    requires done <= n && Accepted(fails, from, n) >= done
    ensures done < n ==> (Accepted(fails, from, n) > done <==> !fails(from + done))
    decreases done
  {
    if done > 0 {
      AcceptedStep(fails, from + 1, done - 1, n - 1);
    }
  }

  ghost predicate OneMore(before: seq<Pdu>, after: seq<Pdu>) {
    |after| == |before| + 1 && after[..|before|] == before
  }

  /** One pass of the loop: segment k of the plan goes out, or its send fails. */
  method SendSegment(session: Session, connection: Connection, task: Task, c: Chunk, tags: Tags, data: array<byte>)
    returns (error: Errno)
    requires c.length <= data.Length && connection.Balanced()
    modifies session`cmdSN, connection, task`realized, data
    ensures connection.Balanced() && connection.requested == old(connection.requested)
    ensures session.cmdSN == old(session.cmdSN) && Parameters(connection) == old(Parameters(connection))
    ensures
      Grown(DigestsOf(connection), old(connection.outbound), old(connection.sent), connection.outbound, connection.sent)
    ensures connection.sends == old(connection.sends) + 1
    ensures error == if connection.sendFails(old(connection.sends)) then EPIPE else Ok
    ensures error != Ok ==>
      connection.sent == old(connection.sent) && connection.counted == old(connection.counted) &&
      task.realized == old(task.realized)
    ensures error == Ok ==>
      OneMore(old(connection.sent), connection.sent) &&
      IsDataOut(connection.sent[|old(connection.sent)|], c, tags, connection.expStatSN, task.buffer) &&
      connection.counted == old(connection.counted) + c.length &&
      task.realized == (old(task.realized) + c.length) % TWO64
  {
    hide Frame, Encode, DataSegmentLengthField, Grown;
    ReadBytes(task.buffer, c.offset, data, c.length);
    error := SendPDU(session, connection, DataOutBhs(tags, c), data[..c.length]);
    if error == Ok {
      Count(connection, task, c.length);
    }
  }

  /** The settings of a connection that no transfer changes. */
  datatype Settings = Settings(
    expStatSN: u32,
    immediateDataLength: u32,
    maxSend: u32,
    headerDigest: bool,
    dataDigest: bool,
    inbound: seq<byte>)

  ghost function Parameters(connection: Connection): Settings
    reads connection
  {
    Settings(connection.expStatSN, connection.immediateDataLength, connection.maxSendDataSegmentLength,
      connection.useHeaderDigest, connection.useDataDigest, connection.inbound)
  }

  /** What is left of length bytes after so many passes of the loop whose sends succeed. */
  function Left(length: nat, M: nat, passes: nat): nat
    decreases passes
  {
    if passes == 0 then length
    else
      var left := Left(length, M, passes - 1);
      if left <= M then 0 else left - M
  }

  lemma {:induction false} LeftAfter(length: nat, M: nat, passes: nat)
    ensures M == 0 ==> Left(length, M, passes) == length
    ensures M > 0 ==> Left(length, M, passes) <= if passes <= length then length - passes else 0
    decreases passes
  {
    if passes > 0 {
      LeftAfter(length, M, passes - 1);
    }
  }

  /** The loop ends in pass i: nothing is left, or the send fails. */
  predicate EndsIn(length: nat, M: nat, fails: nat -> bool, from: nat, i: nat) {
    Left(length, M, i) == 0 || fails(from + i)
  }

  /** The loop ends exactly when the segment size is positive, there is nothing to send, or some send does
      fail. */
  lemma DataOutEndsIff(length: nat, M: nat, fails: nat -> bool, from: nat)
    ensures
      (exists i: nat :: EndsIn(length, M, fails, from, i)) <==>
      M > 0 || length == 0 || exists n: nat :: from <= n && fails(n)
  {
    if i: nat :| EndsIn(length, M, fails, from, i) {
      LeftAfter(length, M, i);
      assert fails(from + i) ==> from <= from + i && fails(from + i);
    }
    if M > 0 || length == 0 {
      LeftAfter(length, M, length);
      assert EndsIn(length, M, fails, from, length);
    } else if n: nat :| from <= n && fails(n) {
      assert EndsIn(length, M, fails, from, n - from);
    }
  }

  /** ProcessDataOutForTask: the PDUs of the plan go out in order; a failed send ends the loop, and
      what was sent and counted up to then is a prefix of the plan.  With a segment size of zero the
      loop of the driver never ends unless there is nothing to send. */
  method ProcessDataOut(session: Session, connection: Connection, task: Task, offset: u32, length: u32, tags: Tags)
    requires connection.maxSendDataSegmentLength > 0
    requires connection.Balanced()
    modifies session`cmdSN, connection, task`realized
    ensures connection.Balanced() && connection.requested == old(connection.requested)
    ensures session.cmdSN == old(session.cmdSN) && Parameters(connection) == old(Parameters(connection))
    ensures
      Grown(DigestsOf(connection), old(connection.outbound), old(connection.sent), connection.outbound, connection.sent)
    ensures
      var plan := Plan(offset, length, connection.maxSendDataSegmentLength, 0);
      var k := Accepted(connection.sendFails, old(connection.sends), |plan|);
      connection.sends == old(connection.sends) + (if k < |plan| then k + 1 else k) &&
      |connection.sent| == |old(connection.sent)| + k &&
      connection.sent[..|old(connection.sent)|] == old(connection.sent) &&
      AreDataOuts(connection.sent[|old(connection.sent)|..], plan, tags, connection.expStatSN, task.buffer) &&
      connection.counted == old(connection.counted) + Total(plan[..k]) &&
      task.realized == (old(task.realized) + Total(plan[..k])) % TWO64
  {
    hide Plan, IsDataOut, AreDataOuts, Accepted, Total, Grown;
    var M := connection.maxSendDataSegmentLength;
    var dataOffset: u32, dataLength: u32, dataSN: u32 := offset, length, 0;
    var dataSegmentLength := M;
    var data := new byte[M];
    ghost var plan := Plan(offset, length, M, 0);
    ghost var done: nat, before, from := 0, connection.sent, connection.sends;
    ghost var d, wire := DigestsOf(connection), connection.outbound;
    GrownByNothing(d, wire, before);
    assert plan[..0] == [];
    TotalEmpty();
    NoDataOuts(plan, tags, connection.expStatSN, task.buffer);
    ghost var pdus, total: nat := [], 0;
    assert connection.sent == before + pdus;
    while dataLength != 0
      invariant dataSegmentLength == M
      invariant connection.Balanced() && connection.requested == old(connection.requested)
      invariant session.cmdSN == old(session.cmdSN) && Parameters(connection) == old(Parameters(connection))
      invariant Grown(d, wire, before, connection.outbound, connection.sent)
      invariant done <= |plan| && plan[done..] == Plan(dataOffset, dataLength, M, dataSN)
      invariant done <= Accepted(connection.sendFails, from, |plan|)
      invariant connection.sends == from + done
      invariant connection.sent == before + pdus && |pdus| == done
      invariant AreDataOuts(pdus, plan, tags, connection.expStatSN, task.buffer)
      invariant total == Total(plan[..done])
      invariant connection.counted == old(connection.counted) + total
      invariant task.realized == (old(task.realized) + total) % TWO64
      decreases dataLength
    {
      PlanStep(dataOffset, dataLength, M, dataSN);
      AcceptedStep(connection.sendFails, from, done, |plan|);
      var final := dataLength <= dataSegmentLength;
      var n := if final then dataLength else dataSegmentLength;
      var c := Chunk(dataOffset, n, dataSN, final);
      ghost var sent, out := connection.sent, connection.outbound;
      var error := SendSegment(session, connection, task, c, tags, data);
      GrownTwice(d, wire, before, out, sent, connection.outbound, connection.sent);
      if error != Ok {
        break;
      }
      ghost var p := connection.sent[|sent|];
      MoreDataOuts(pdus, plan, tags, connection.expStatSN, task.buffer, p);
      assert connection.sent == sent + [p] == before + (pdus + [p]);
      TotalStep(plan, done);
      Realized(old(task.realized), total, n);
      pdus, total := pdus + [p], total + n;
      dataLength := dataLength - n;
      dataOffset := (dataOffset + n) % TWO32;
      dataSN := (dataSN + 1) % TWO32;
      done := done + 1;
    }
    if dataLength == 0 {
      PlanEmpty(dataOffset, M, dataSN);
    }
    assert connection.sent[|before|..] == pdus;
  }

  lemma NoDataOuts(plan: seq<Chunk>, tags: Tags, expStatSN: u32, buffer: seq<byte>)
    ensures AreDataOuts([], plan, tags, expStatSN, buffer)
  {}

  lemma MoreDataOuts(pdus: seq<Pdu>, plan: seq<Chunk>, tags: Tags, expStatSN: u32, buffer: seq<byte>, p: Pdu)
    requires AreDataOuts(pdus, plan, tags, expStatSN, buffer) && |pdus| < |plan|
    requires IsDataOut(p, plan[|pdus|], tags, expStatSN, buffer)
    ensures AreDataOuts(pdus + [p], plan, tags, expStatSN, buffer)
  {
    hide IsDataOut;
  }

  lemma TotalStep(plan: seq<Chunk>, done: nat)
    requires done < |plan|
    ensures Total(plan[..done + 1]) == Total(plan[..done]) + plan[done].length
  {
    assert plan[..done + 1] == plan[..done] + [plan[done]];
    TotalAppend(plan[..done], [plan[done]]);
    assert Total([plan[done]]) == plan[done].length + Total([]);
  }

  lemma Realized(a: nat, b: nat, n: nat)
    ensures ((a + b) % TWO64 + n) % TWO64 == (a + (b + n)) % TWO64
  {}

  // ----- starting a task -----

  /** What a command PDU opens with: whether its F bit says that no unsolicited Data-Out follows, how
      many bytes ride in the command itself, and how many follow in unsolicited Data-Out PDUs. */
  datatype Opening = Opening(noUnsolicited: bool, immediate: u32, burst: u32)

  /** The negotiated settings that shape a WRITE. */
  datatype Terms = Terms(initialR2T: bool, immediateData: bool, firstBurst: u32, immediateLength: u32)

  function OpeningOf(direction: Direction, size: u32, t: Terms): Opening {
    if direction != ToTarget || (t.initialR2T && !t.immediateData) then Opening(true, 0, 0)
    else
      var immediate := if t.immediateData then MinOf(t.immediateLength, size) else 0;
      Opening(
        t.immediateData && (t.initialR2T || immediate == size),
        immediate,
        if !t.initialR2T && immediate < t.firstBurst && immediate < size
        then MinOf(t.firstBurst - immediate, size - immediate)
        else 0)
  }

  /** All unsolicited data is a prefix of the buffer within the first burst, exactly as long as the
      immediate data limit respects the first burst. */
  lemma UnsolicitedWithinFirstBurst(direction: Direction, size: u32, t: Terms)
    ensures
      var o := OpeningOf(direction, size, t);
      o.immediate + o.burst <= size &&
      (o.immediate + o.burst <= t.firstBurst <==>
        direction != ToTarget || !t.immediateData || MinOf(t.immediateLength, size) <= t.firstBurst)
  {}

  /** Data rides in the command only if ImmediateData=Yes, and then as much as the limit allows; more
      follows unasked only if InitialR2T=No, and then up to the first burst. */
  lemma OpeningMeans(direction: Direction, size: u32, t: Terms)
    ensures
      var o := OpeningOf(direction, size, t);
      (direction != ToTarget ==> o == Opening(true, 0, 0)) &&
      (direction == ToTarget ==>
        o.immediate == (if t.immediateData then MinOf(t.immediateLength, size) else 0) &&
        (t.initialR2T ==> o.burst == 0 && o.noUnsolicited) &&
        (!t.initialR2T ==>
          (o.immediate < t.firstBurst ==> o.immediate + o.burst == MinOf(t.firstBurst, size)) &&
          (o.immediate >= t.firstBurst ==> o.burst == 0)))
  {}

  /** Once a connection has been activated, as long as its segment size and the session's first burst
      stay what they were, unsolicited data is a prefix of the buffer of at most the smaller of first
      burst and transfer, and without InitialR2T it is exactly that. */
  lemma ActivatedWithinFirstBurst(direction: Direction, size: u32, session: Session, connection: Connection)
    requires connection.LimitSet(session)
    ensures
      var o := OpeningOf(direction, size, TermsOf(session, connection));
      var most := MinOf(session.firstBurstLength, size);
      o.immediate + o.burst <= most &&
      (direction == ToTarget && !session.initialR2T ==>
        o.immediate + o.burst == most &&
        o.immediate == if session.immediateData then MinOf(connection.maxSendDataSegmentLength, most) else 0)
  {}

  /** A command PDU with the F bit is never followed by unsolicited Data-Out.  The converse fails in
      exactly two cases: immediate data that fills the first burst without ending the transfer, and
      nothing to send where no immediate data is allowed. */
  lemma FinalBitIff(direction: Direction, size: u32, t: Terms)
    ensures
      var o := OpeningOf(direction, size, t);
      (o.noUnsolicited ==> o.burst == 0) &&
      (o.noUnsolicited <==>
        o.burst == 0 &&
        !(direction == ToTarget && !t.initialR2T && t.immediateData &&
          t.firstBurst <= MinOf(t.immediateLength, size) < size) &&
        !(direction == ToTarget && !t.initialR2T && !t.immediateData && (t.firstBurst == 0 || size == 0)))
  {}

  /** A 100000-byte WRITE with InitialR2T=No, ImmediateData=Yes, FirstBurstLength and segment size
      65536: nothing follows the command PDU, yet its F bit is clear. */
  lemma FinalBitMissing()
    ensures
      var t := Terms(false, true, 65536, 65536);
      t.immediateLength == MinOf(65536, t.firstBurst) && OpeningOf(ToTarget, 100000, t) == Opening(false, 65536, 0)
  {}

  ghost function TermsOf(session: Session, connection: Connection): Terms
    reads session, connection
  {
    Terms(session.initialR2T, session.immediateData, session.firstBurstLength, connection.immediateDataLength)
  }

  /** The header of a SCSI command PDU. */
  function CommandBhs(task: Task, taskTag: seq<byte>, size: u32, noUnsolicited: bool): Bhs
    requires |task.LUN| == 8 && |task.CDB| == 16 && task.attribute <= 4 && |taskTag| == 4
  {
    var final := if noUnsolicited then 0x80 else 0;
    var direction := match task.direction case ToTarget => 0x20 case FromTarget => 0x40 case NoTransfer => 0;
    BhsFields(SCSI_CMD, [final + direction + task.attribute, 0, 0], 0, [0, 0, 0], task.LUN, taskTag,
      BigEndian(size), 0, 0, task.CDB)
  }

  ghost predicate IsCommand(p: Pdu, task: Task, taskTag: seq<byte>, size: u32, noUnsolicited: bool, immediate: u32,
      cmdSN: u32, expStatSN: u32)
    requires |task.LUN| == 8 && |task.CDB| == 16 && task.attribute <= 4 && |taskTag| == 4
    reads task`buffer
  {
    p.bhs == Stamp(CommandBhs(task, taskTag, size, noUnsolicited), cmdSN, expStatSN, immediate) &&
    |p.data| == immediate &&
    forall i :: 0 <= i < immediate && i < |task.buffer| ==> p.data[i] == task.buffer[i]
  }

  /** The command PDU with its immediate data, which counts as transferred even if the send fails. */
  method SendCommand(session: Session, connection: Connection, task: Task, taskTag: seq<byte>, size: u32,
      noUnsolicited: bool, immediate: u32)
    requires task.Valid() && connection.Balanced() && |taskTag| == 4
    modifies session`cmdSN, connection, task`realized
    ensures connection.Balanced() && connection.requested == old(connection.requested)
    ensures session.cmdSN == (old(session.cmdSN) + 1) % TWO32 && Parameters(connection) == old(Parameters(connection))
    ensures
      Grown(DigestsOf(connection), old(connection.outbound), old(connection.sent), connection.outbound, connection.sent)
    ensures connection.sends == old(connection.sends) + 1
    ensures connection.counted == old(connection.counted) + immediate
    ensures task.realized == (old(task.realized) + immediate) % TWO64
    ensures connection.sendFails(old(connection.sends)) ==> connection.sent == old(connection.sent)
    ensures !connection.sendFails(old(connection.sends)) ==>
      OneMore(old(connection.sent), connection.sent) &&
      IsCommand(connection.sent[|old(connection.sent)|], task, taskTag, size, noUnsolicited, immediate,
        old(session.cmdSN), connection.expStatSN)
  {
    hide Frame, Encode, DataSegmentLengthField, Grown;
    var data := new byte[immediate];
    ReadBytes(task.buffer, 0, data, immediate);
    var _ := SendPDU(session, connection, CommandBhs(task, taskTag, size, noUnsolicited), data[..]);
    Count(connection, task, immediate);
  }

  /** The first half of BeginTaskOnWorkloopThread: the command PDU goes out as its opening says;
      what is returned is where unsolicited Data-Out starts and how much of it there is. */
  method OpenTask(session: Session, connection: Connection, task: Task, taskTag: seq<byte>, size: u32)
    returns (dataOffset: u32, dataLength: u32, ghost noUnsolicited: bool)
    requires task.Valid() && connection.Balanced() && |taskTag| == 4
    modifies session`cmdSN, connection, task`realized
    ensures
      Opening(noUnsolicited, dataOffset, dataLength) ==
      OpeningOf(task.direction, size, old(TermsOf(session, connection)))
    ensures connection.Balanced() && connection.requested == old(connection.requested)
    ensures session.cmdSN == (old(session.cmdSN) + 1) % TWO32 && Parameters(connection) == old(Parameters(connection))
    ensures
      Grown(DigestsOf(connection), old(connection.outbound), old(connection.sent), connection.outbound, connection.sent)
    ensures connection.sends == old(connection.sends) + 1
    ensures connection.counted == old(connection.counted) + dataOffset
    ensures task.realized == (old(task.realized) + dataOffset) % TWO64
    ensures connection.sendFails(old(connection.sends)) ==> connection.sent == old(connection.sent)
    ensures !connection.sendFails(old(connection.sends)) ==>
      OneMore(old(connection.sent), connection.sent) &&
      IsCommand(connection.sent[|old(connection.sent)|], task, taskTag, size, noUnsolicited, dataOffset,
        old(session.cmdSN), connection.expStatSN)
  {
    hide IsCommand, Grown;
    dataOffset, dataLength, noUnsolicited := 0, 0, true;
    if task.direction != ToTarget {
      SendCommand(session, connection, task, taskTag, size, true, 0);
      return;
    }
    if session.initialR2T && !session.immediateData {
      SendCommand(session, connection, task, taskTag, size, true, 0);
      return;
    }
    if session.immediateData {
      dataOffset := MinOf(connection.immediateDataLength, size);
      noUnsolicited := session.initialR2T || dataOffset == size;
      SendCommand(session, connection, task, taskTag, size, session.initialR2T || dataOffset == size, dataOffset);
    } else {
      noUnsolicited := false;
      SendCommand(session, connection, task, taskTag, size, false, 0);
    }
    if !session.initialR2T && dataOffset < session.firstBurstLength && dataOffset < size {
      dataLength := MinOf(session.firstBurstLength - dataOffset, size - dataOffset);
    }
  }

  /** Unsolicited Data-Out has no target transfer tag. */
  function UnsolicitedTags(task: Task, taskTag: u32): Tags
    requires task.Valid()
  {
    TagFields(task.LUN, Memory(taskTag), Memory(RESERVED_TAG))
  }

  /** BeginTaskOnWorkloopThread for a SCSI task that was found.  The result of the command's own send
      is ignored, as in the driver. */
  method BeginTask(session: Session, connection: Connection, task: Task, taskTag: u32)
    requires task.Valid() && connection.Balanced()
    requires connection.maxSendDataSegmentLength > 0
    modifies session`cmdSN, connection, task`realized
    ensures connection.Balanced() && connection.requested == old(connection.requested)
    ensures session.cmdSN == (old(session.cmdSN) + 1) % TWO32 && Parameters(connection) == old(Parameters(connection))
    ensures
      Grown(DigestsOf(connection), old(connection.outbound), old(connection.sent), connection.outbound, connection.sent)
    ensures
      var size := task.requested % TWO32;
      var o := OpeningOf(task.direction, size, old(TermsOf(session, connection)));
      var plan := Plan(o.immediate, o.burst, connection.maxSendDataSegmentLength, 0);
      var first := if connection.sendFails(old(connection.sends)) then 0 else 1;
      var k := Accepted(connection.sendFails, old(connection.sends) + 1, |plan|);
      var before, tags := |old(connection.sent)|, UnsolicitedTags(task, taskTag);
      |connection.sent| == before + first + k && connection.sent[..before] == old(connection.sent) &&
      (first == 1 ==>
        IsCommand(connection.sent[before], task, Memory(taskTag), size, o.noUnsolicited, o.immediate,
          old(session.cmdSN), connection.expStatSN)) &&
      AreDataOuts(connection.sent[before + first..], plan, tags, connection.expStatSN, task.buffer) &&
      connection.sends == old(connection.sends) + 1 + (if k < |plan| then k + 1 else k) &&
      connection.counted == old(connection.counted) + o.immediate + Total(plan[..k]) &&
      task.realized == (old(task.realized) + (o.immediate + Total(plan[..k]))) % TWO64
    ensures
      var size := task.requested % TWO32;
      var o := OpeningOf(task.direction, size, old(TermsOf(session, connection)));
      old(connection.LimitSet(session)) ==> o.immediate + o.burst <= MinOf(session.firstBurstLength, size)
  {
    hide Plan, IsDataOut, IsCommand, Total, OpeningOf, Accepted, Memory, Grown;
    var tag := Memory(taskTag);
    if connection.LimitSet(session) {
      ActivatedWithinFirstBurst(task.direction, task.requested % TWO32, session, connection);
    }
    ghost var out0, sent0 := connection.outbound, connection.sent;
    var dataOffset, dataLength, f := OpenTask(session, connection, task, tag, task.requested % TWO32);
    ghost var mid, out := connection.sent, connection.outbound;
    if dataLength > 0 {
      ProcessDataOut(session, connection, task, dataOffset, dataLength, UnsolicitedTags(task, taskTag));
      GrownTwice(DigestsOf(connection), out0, sent0, out, mid, connection.outbound, connection.sent);
      assert connection.sent[..|mid|] == mid;
      Realized(old(task.realized), dataOffset,
        Total(Plan(dataOffset, dataLength, connection.maxSendDataSegmentLength, 0)[..|connection.sent| - |mid|]));
    } else {
      PlanEmpty(dataOffset, connection.maxSendDataSegmentLength, 0);
      NothingAccepted(connection.sendFails, old(connection.sends) + 1);
      TotalEmpty();
    }
  }

  lemma NothingAccepted(fails: nat -> bool, from: nat)
    ensures Accepted(fails, from, 0) == 0
  {}

  lemma TotalEmpty()
    ensures Total([]) == 0
  {}

  // ----- R2T and Data-In -----

  const BUFFER_OFFSET: nat := 40
  const DESIRED_LENGTH: nat := 44

  function TagsOf(r2t: seq<byte>): Tags
    requires |r2t| == HEADER_SIZE
  {
    TagFields(r2t[8..16], r2t[16..20], r2t[20..24])
  }

  /** ProcessR2T for a task that was found: tags and LUN of the request are handed back. */
  method ProcessR2T(session: Session, connection: Connection, task: Task, bhs: seq<byte>)
    requires |bhs| == HEADER_SIZE
    requires connection.maxSendDataSegmentLength > 0
    requires connection.Balanced()
    modifies session`cmdSN, connection, task`realized
    ensures connection.Balanced() && connection.requested == old(connection.requested)
    ensures session.cmdSN == old(session.cmdSN) && Parameters(connection) == old(Parameters(connection))
    ensures
      Grown(DigestsOf(connection), old(connection.outbound), old(connection.sent), connection.outbound, connection.sent)
    ensures
      var plan := Plan(Field(bhs, BUFFER_OFFSET), Field(bhs, DESIRED_LENGTH), connection.maxSendDataSegmentLength, 0);
      var k := Accepted(connection.sendFails, old(connection.sends), |plan|);
      connection.sends == old(connection.sends) + (if k < |plan| then k + 1 else k) &&
      |connection.sent| == |old(connection.sent)| + k &&
      connection.sent[..|old(connection.sent)|] == old(connection.sent) &&
      AreDataOuts(connection.sent[|old(connection.sent)|..], plan, TagsOf(bhs), connection.expStatSN, task.buffer) &&
      connection.counted == old(connection.counted) + Total(plan[..k]) &&
      task.realized == (old(task.realized) + Total(plan[..k])) % TWO64
  {
    hide Plan, IsDataOut, Total, Accepted, AreDataOuts, Grown;
    var dataOffset, dataLength := Field(bhs, BUFFER_OFFSET), Field(bhs, DESIRED_LENGTH);
    ProcessDataOut(session, connection, task, dataOffset, dataLength, TagsOf(bhs));
  }

  /** ProcessParallelTask, as far as the ledger goes: the whole request is owed. */
  method AssignTask(connection: Connection, task: Task)
    requires connection.Balanced()
    modifies connection`dataToTransfer, connection`requested
    ensures connection.Balanced() && connection.requested == old(connection.requested) + task.requested
  {
    Add64(connection.requested, connection.counted, task.requested);
    connection.dataToTransfer := (connection.dataToTransfer + task.requested) % TWO64;
    connection.requested := connection.requested + task.requested;
  }

  // ----- what a target reads in the headers -----

  /** The header of a Data-Out PDU in its 48 bytes, as section 10.7 of RFC 3720 lays them out. */
  lemma DataOutHeader(p: Pdu, c: Chunk, tags: Tags, expStatSN: u32, buffer: seq<byte>)
    requires IsDataOut(p, c, tags, expStatSN, buffer)
    ensures
      var h := Encode(p.bhs);
      h[0] == 0x05 && h[1] == (if c.final then 0x80 else 0) && h[2] == h[3] == h[4] == 0 &&
      GetDataSegmentLength(h[5..8]) == c.length % 0x100_0000 &&
      h[8..16] == tags.LUN && h[16..20] == tags.task && h[20..24] == tags.transfer &&
      Field(h, 24) == 0 && Field(h, 28) == expStatSN && Field(h, 32) == 0 &&
      Field(h, 36) == c.dataSN && Field(h, 40) == c.offset && Field(h, 44) == 0
  {
    hide DataSegmentLengthField, GetDataSegmentLength, BigEndian, FromBigEndian, Encode;
    HeaderRoundTrip(p.bhs);
    var h, rest := Encode(p.bhs), NoBytes(4) + BigEndian(c.dataSN) + BigEndian(c.offset) + NoBytes(4);
    assert Decode(h) == p.bhs;
    assert h[32..] == rest && h[1..4] == [if c.final then 0x80 else 0, 0, 0];
    assert h[1] == h[1..4][0] && h[2] == h[1..4][1] && h[3] == h[1..4][2];
    assert h[36..40] == h[32..][4..8] == BigEndian(c.dataSN) && h[40..44] == h[32..][8..12] == BigEndian(c.offset);
    assert h[32..36] == h[32..][..4] == NoBytes(4) && h[44..48] == h[32..][12..] == NoBytes(4);
    BigEndianRoundTrip(c.dataSN);
    BigEndianRoundTrip(c.offset);
    ZeroNumber();
    LengthFieldRoundTrip(c.length);
  }

  lemma ZeroNumber()
    ensures FromBigEndian(NoBytes(4)) == 0
  {}

  /** A Data-Out PDU that answers an R2T has the LUN and both tags of that R2T. */
  lemma AnswerHasTagsOf(p: Pdu, c: Chunk, r2t: seq<byte>, expStatSN: u32, buffer: seq<byte>)
    requires |r2t| == HEADER_SIZE && IsDataOut(p, c, TagsOf(r2t), expStatSN, buffer)
    ensures Encode(p.bhs)[8..24] == r2t[8..24]
  {
    hide DataSegmentLengthField, GetDataSegmentLength, BigEndian, FromBigEndian, Encode, Field;
    DataOutHeader(p, c, TagsOf(r2t), expStatSN, buffer);
    var h := Encode(p.bhs);
    assert h[8..24] == h[8..16] + h[16..20] + h[20..24];
    assert r2t[8..24] == r2t[8..16] + r2t[16..20] + r2t[20..24];
  }

  /** An unsolicited Data-Out PDU has the LUN of its task, the task's tag as it lies in the memory of a
      little-endian host, and the reserved transfer tag. */
  lemma UnsolicitedHasTags(p: Pdu, c: Chunk, task: Task, taskTag: u32, expStatSN: u32, buffer: seq<byte>)
    requires task.Valid() && IsDataOut(p, c, UnsolicitedTags(task, taskTag), expStatSN, buffer)
    ensures
      var h := Encode(p.bhs);
      h[8..16] == task.LUN && FromBytes(h[16], h[17], h[18], h[19]) == taskTag &&
      h[20..24] == [0xff, 0xff, 0xff, 0xff]
  {
    hide DataSegmentLengthField, GetDataSegmentLength, BigEndian, FromBigEndian, Encode, Field, ByteOfNumber;
    DataOutHeader(p, c, UnsolicitedTags(task, taskTag), expStatSN, buffer);
    var h := Encode(p.bhs);
    assert h[16] == h[16..20][0] && h[17] == h[16..20][1] && h[18] == h[16..20][2] && h[19] == h[16..20][3];
    NumberOfBytes(taskTag);
    ReservedTagBytes();
  }

  lemma ReservedTagBytes()
    ensures Memory(RESERVED_TAG) == [0xff, 0xff, 0xff, 0xff]
  {}

  /** The header of a command PDU in its 48 bytes, as section 10.3 of RFC 3720 lays them out. */
  lemma CommandHeader(p: Pdu, task: Task, taskTag: seq<byte>, size: u32, noUnsolicited: bool, immediate: u32,
      cmdSN: u32, expStatSN: u32)
    requires task.Valid() && |taskTag| == 4
    requires IsCommand(p, task, taskTag, size, noUnsolicited, immediate, cmdSN, expStatSN)
    ensures
      var h := Encode(p.bhs);
      h[0] == 0x01 && (h[1] >= 0x80 <==> noUnsolicited) &&
      (h[1] / 0x40 % 2 == 1 <==> task.direction == FromTarget) &&
      (h[1] / 0x20 % 2 == 1 <==> task.direction == ToTarget) &&
      h[1] / 8 % 4 == 0 && h[1] % 8 == task.attribute && h[2] == h[3] == h[4] == 0 &&
      GetDataSegmentLength(h[5..8]) == immediate % 0x100_0000 &&
      h[8..16] == task.LUN && h[16..20] == taskTag && Field(h, 20) == size &&
      Field(h, 24) == cmdSN && Field(h, 28) == expStatSN && h[32..] == task.CDB
  {
    hide DataSegmentLengthField, GetDataSegmentLength, BigEndian, FromBigEndian, Encode;
    HeaderRoundTrip(p.bhs);
    var h := Encode(p.bhs);
    assert Decode(h) == p.bhs;
    assert h[1] == h[1..4][0] && h[2] == h[1..4][1] && h[3] == h[1..4][2];
    BigEndianRoundTrip(size);
    LengthFieldRoundTrip(immediate);
  }
}
