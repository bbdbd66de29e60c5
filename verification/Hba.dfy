/** The session and connection records of iSCSITypesKernel.h, as far as the data path uses them. */
module Hba {
  import opened Words

  type u32 = x: int | 0 <= x < 0x1_0000_0000
  type u64 = x: int | 0 <= x < 0x1_0000_0000_0000_0000

  /** Arithmetic on 32-bit numbers. */
  function Wrap(n: nat): u32 {
    n % 0x1_0000_0000
  }

  lemma WrapSum(a: nat, b: nat, n: nat)
    ensures Wrap(Wrap(a + b) + n) == Wrap(a + b + n)
  {}

  lemma WrapSmall(a: u32)
    ensures Wrap(a) == a
  {}

  function MinOf(a: u32, b: u32): u32 {
    if a < b then a else b
  }

  datatype Errno = Ok | EIO | EINVAL | EAGAIN | EPIPE

  /** iSCSIPDUInitiatorBHS: the 48 bytes common to all initiator PDUs.  Multi-byte numbers that the
      code swaps are kept as numbers; everything else is kept as it lies in memory. */
  datatype BhsFields = BhsFields(
    opCode: byte,
    opCodeFields: seq<byte>,
    totalAHSLength: byte,
    dataSegmentLength: seq<byte>,
    LUN: seq<byte>,
    initiatorTaskTag: seq<byte>,
    reserved: seq<byte>,
    cmdSN: u32,
    expStatSN: u32,
    rest: seq<byte>)
  {
    predicate Valid() {
      |opCodeFields| == 3 && |dataSegmentLength| == 3 && |LUN| == 8 &&
      |initiatorTaskTag| == 4 && |reserved| == 4 && |rest| == 16
    }
  }

  type Bhs = b: BhsFields | b.Valid()
    witness BhsFields(0, NoBytes(3), 0, NoBytes(3), NoBytes(8), NoBytes(4), NoBytes(4), 0, 0, NoBytes(16))

  function NoBytes(n: nat): seq<byte> {
    seq(n, _ => 0)
  }

  /** A PDU as handed to the socket. */
  datatype Pdu = Pdu(bhs: Bhs, data: seq<byte>)

  class Session {
    var cmdSN: u32
    var expCmdSN: u32
    var maxCmdSN: u32
    var immediateData: bool
    var initialR2T: bool
    var firstBurstLength: u32
  }

  class Connection {
    var expStatSN: u32
    var dataToTransfer: u64
    var immediateDataLength: u32
    var maxSendDataSegmentLength: u32
    var useHeaderDigest: bool
    var useDataDigest: bool

    /** The two directions of the socket: bytes accepted for sending and bytes not yet received. */
    var outbound: seq<byte>
    var inbound: seq<byte>

    /** Which calls of sock_send fail, counted from the first one. */
    const sendFails: nat -> bool
    var sends: nat

    /** The PDUs whose bytes make up what was sent. */
    ghost var sent: seq<Pdu>

    /** Bytes asked for by tasks given to this connection, and bytes counted as transferred. */
    ghost var requested: nat
    ghost var counted: nat

    /** dataToTransfer is what is still owed, in 64-bit arithmetic. */
    ghost predicate Balanced()
      reads this`dataToTransfer, this`requested, this`counted
    {
      dataToTransfer == (requested - counted) % 0x1_0000_0000_0000_0000
    }

    /** What activation establishes: immediate data respects segment size and first burst. */
    ghost predicate LimitSet(session: Session)
      reads this`immediateDataLength, this`maxSendDataSegmentLength, session`firstBurstLength
    {
      immediateDataLength == MinOf(maxSendDataSegmentLength, session.firstBurstLength)
    }

    constructor (sendFails: nat -> bool)
      ensures this.sendFails == sendFails && sends == 0 && outbound == [] && sent == []
      ensures Balanced() && requested == counted == 0
    {
      this.sendFails := sendFails;
      sends, outbound, sent := 0, [], [];
      expStatSN, dataToTransfer := 0, 0;
      requested, counted := 0, 0;
    }
  }

  /** iSCSITypes of transfer, SCSIDataTransferDirection */
  datatype Direction = NoTransfer | FromTarget | ToTarget

  /** A SCSI parallel task of the driver stack. */
  class Task {
    const direction: Direction
    const requested: u64
    const LUN: seq<byte>
    const attribute: byte
    const CDB: seq<byte>
    var buffer: seq<byte>
    var realized: u64

    predicate Valid() {
      |LUN| == 8 && |CDB| == 16 && attribute <= 4
    }

    constructor (direction: Direction, requested: u64, LUN: seq<byte>, attribute: byte, CDB: seq<byte>,
        buffer: seq<byte>)
      requires |LUN| == 8 && |CDB| == 16 && attribute <= 4
      ensures Valid() && this.direction == direction && this.requested == requested
      ensures this.buffer == buffer && realized == 0
    {
      this.direction, this.requested, this.LUN := direction, requested, LUN;
      this.attribute, this.CDB, this.buffer := attribute, CDB, buffer;
      realized := 0;
    }
  }
}
