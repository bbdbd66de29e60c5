/** Command numbering over runs of SendPDU calls, some of which the socket refuses. */
module CommandNumbers {
  import opened Words
  import opened Hba
  import opened PduFraming

  /** A call of SendPDU: the header it was given, the data, and the connection's expStatSN then. */
  datatype Request = Request(bhs: Bhs, data: seq<byte>, expStatSN: u32)

  function Completed(r: Request, cmdSN: u32): Pdu {
    Pdu(Stamp(r.bhs, cmdSN, r.expStatSN, |r.data|), r.data)
  }

  /** The PDUs that a sequence of calls offers to the socket, starting from cmdSN. */
  function SendAll(cmdSN: u32, rs: seq<Request>): (pdus: seq<Pdu>)
    ensures |pdus| == |rs|
    decreases |rs|
  {
    if rs == [] then []
    else [Completed(rs[0], cmdSN)] + SendAll(NextCmdSN(rs[0].bhs.opCode, cmdSN), rs[1..])
  }

  /** How many of the calls use up a command number. */
  function NumberedCount(rs: seq<Request>): nat {
    if rs == [] then 0 else (if Numbered(rs[0].bhs.opCode) then 1 else 0) + NumberedCount(rs[1..])
  }

  lemma CompletedCmdSN(r: Request, cmdSN: u32)
    requires r.bhs.opCode != DATA_OUT
    ensures Completed(r, cmdSN).bhs.cmdSN == cmdSN
  {
    hide DataSegmentLengthField;
  }

  lemma {:induction false} CmdSNOf(cmdSN: u32, rs: seq<Request>, i: nat)
    requires i < |rs| && rs[i].bhs.opCode != DATA_OUT
    ensures SendAll(cmdSN, rs)[i].bhs.cmdSN == Wrap(cmdSN + NumberedCount(rs[..i]))
    decreases i
  {
    hide Completed, Numbered, Wrap, NextCmdSN;
    WrapSmall(cmdSN);
    if i == 0 {
      CompletedCmdSN(rs[0], cmdSN);
      assert rs[..0] == [];
    } else {
      var next := NextCmdSN(rs[0].bhs.opCode, cmdSN);
      CmdSNOf(next, rs[1..], i - 1);
      assert rs[1..][..i - 1] == rs[..i][1..];
      NumberedStep(cmdSN, rs[..i]);
    }
  }

  lemma {:induction false} NumberedCountAppend(a: seq<Request>, b: seq<Request>)
    ensures NumberedCount(a + b) == NumberedCount(a) + NumberedCount(b)
    decreases |a|
  {
    if a == [] {
      assert a + b == b;
    } else {
      assert (a + b)[1..] == a[1..] + b;
      NumberedCountAppend(a[1..], b);
    }
  }

  lemma {:induction false} NoneNumbered(rs: seq<Request>)
    requires forall k :: 0 <= k < |rs| ==> !Numbered(rs[k].bhs.opCode)
    ensures NumberedCount(rs) == 0
    decreases |rs|
  {
    if rs != [] {
      NoneNumbered(rs[1..]);
    }
  }

  /** Command numbers have no gap and no repeat: from one numbered PDU to the next the number grows
      by one modulo 2^32, and an immediate PDU carries that of the next numbered one. */
  lemma CmdSNConsecutive(cmdSN: u32, rs: seq<Request>, i: nat, j: nat)
    requires i < j < |rs|
    requires rs[i].bhs.opCode != DATA_OUT && Numbered(rs[j].bhs.opCode)
    requires forall k :: i < k < j ==> !Numbered(rs[k].bhs.opCode)
    ensures
      var at, later := SendAll(cmdSN, rs)[i].bhs.cmdSN, SendAll(cmdSN, rs)[j].bhs.cmdSN;
      later == if Numbered(rs[i].bhs.opCode) then Wrap(at + 1) else at
  {
    hide SendAll, Wrap, NumberedCount, Numbered;
    NumberedIsCommand(rs[j].bhs.opCode);
    CmdSNOf(cmdSN, rs, i);
    CmdSNOf(cmdSN, rs, j);
    CountBetween(rs, i, j);
    WrapSum(cmdSN, NumberedCount(rs[..i]), 1);
  }

  lemma NumberedIsCommand(opCode: byte)
    ensures Numbered(opCode) ==> opCode != DATA_OUT
  {}

  lemma CountBetween(rs: seq<Request>, i: nat, j: nat)
    requires i < j <= |rs|
    requires forall k :: i < k < j ==> !Numbered(rs[k].bhs.opCode)
    ensures NumberedCount(rs[..j]) == NumberedCount(rs[..i]) + if Numbered(rs[i].bhs.opCode) then 1 else 0
  {
    hide NumberedCount, Numbered;
    var first, rest := [rs[i]], rs[i + 1..j];
    assert rs[..j] == rs[..i] + (first + rest);
    NumberedCountAppend(rs[..i], first + rest);
    NumberedCountAppend(first, rest);
    NoneNumbered(rest);
    NumberedCountStep(first);
    NumberedCountStep(first[1..]);
  }

  /** The rule in the bytes of the headers: from one PDU to the next that is not Data-Out (0x05), the number
      stays if the first is marked for immediate delivery (bit 0x40), and grows by one modulo 2^32
      otherwise; Data-Out PDUs in between do not matter. */
  lemma NextNumber(cmdSN: u32, rs: seq<Request>, i: nat, j: nat)
    requires i < j < |rs|
    requires rs[i].bhs.opCode != 0x05 && rs[j].bhs.opCode != 0x05
    requires forall k :: i < k < j ==> rs[k].bhs.opCode == 0x05
    ensures
      var at, later := SendAll(cmdSN, rs)[i].bhs.cmdSN, SendAll(cmdSN, rs)[j].bhs.cmdSN;
      later == if rs[i].bhs.opCode / 0x40 % 2 == 1 then at else (at + 1) % 0x1_0000_0000
  {
    hide SendAll, NumberedCount;
    CmdSNOf(cmdSN, rs, i);
    CmdSNOf(cmdSN, rs, j);
    CountBetween(rs, i, j);
    WrapSum(cmdSN, NumberedCount(rs[..i]), 1);
  }

  /** The first PDU that is not Data-Out carries the number at which the run starts. */
  lemma FirstNumber(cmdSN: u32, rs: seq<Request>, j: nat)
    requires j < |rs| && rs[j].bhs.opCode != 0x05
    requires forall k :: 0 <= k < j ==> rs[k].bhs.opCode == 0x05
    ensures SendAll(cmdSN, rs)[j].bhs.cmdSN == cmdSN
  {
    hide SendAll, NumberedCount;
    CmdSNOf(cmdSN, rs, j);
    NoneNumbered(rs[..j]);
  }

  // ----- runs on a socket that may refuse -----

  /** The PDUs of a run that are accepted; the first of them is send number from. */
  function Through(pdus: seq<Pdu>, fails: nat -> bool, from: nat): seq<Pdu>
    decreases |pdus|
  {
    if pdus == [] then []
    else (if fails(from) then [] else [pdus[0]]) + Through(pdus[1..], fails, from + 1)
  }

  lemma {:induction false} ThroughStamped(cmdSN: u32, rs: seq<Request>, fails: nat -> bool, from: nat)
    ensures AllStamped(Through(SendAll(cmdSN, rs), fails, from))
    decreases |rs|
  {
    hide Completed;
    if rs != [] {
      var all := SendAll(cmdSN, rs);
      var next := NextCmdSN(rs[0].bhs.opCode, cmdSN);
      assert all[1..] == SendAll(next, rs[1..]);
      ThroughStamped(next, rs[1..], fails, from + 1);
      CompletedIsStamped(rs[0], cmdSN);
    }
  }

  lemma CompletedIsStamped(r: Request, cmdSN: u32)
    ensures Stamped(Completed(r, cmdSN))
  {
    hide DataSegmentLengthField;
  }

  /** Several calls of SendPDU.  Between them the receiving side may have moved expStatSN.  Exactly the
      accepted PDUs are on the wire, and a reader of the wire gets exactly them if and only if their data
      fits the length field and it finds their digests right. */
  method SendRequests(session: Session, connection: Connection, rs: seq<Request>)
    modifies session`cmdSN
    modifies connection`expStatSN, connection`sends, connection`outbound, connection`sent
    ensures session.cmdSN == Wrap(old(session.cmdSN) + NumberedCount(rs))
    ensures connection.sends == old(connection.sends) + |rs|
    ensures
      var d := Digests(connection.useHeaderDigest, connection.useDataDigest);
      var got := Through(SendAll(old(session.cmdSN), rs), connection.sendFails, old(connection.sends));
      connection.sent == old(connection.sent) + got &&
      connection.outbound == old(connection.outbound) + Wire(d, got) &&
      forall reader: Reader ::
        ReadAll(reader, d, connection.outbound[|old(connection.outbound)|..]) == Reading(AsRead(got), []) <==>
        AllRead(reader, d, got)
  {
    hide Wire, Frame, Stamp, Encode, ReadAll, AllRead, AllStamped, NextCmdSN;
    hide NumberedCount, SendAll, Through, Wrap, DataSegmentLengthField;
    ghost var d := Digests(connection.useHeaderDigest, connection.useDataDigest);
    ghost var cmdSN, from, sent, outbound := session.cmdSN, connection.sends, connection.sent, connection.outbound;
    ghost var got := Through(SendAll(cmdSN, rs), connection.sendFails, from);
    ghost var left := got;
    assert rs[0..] == rs;
    for i := 0 to |rs|
      invariant d == Digests(connection.useHeaderDigest, connection.useDataDigest)
      invariant connection.sends == from + i
      invariant Wrap(session.cmdSN + NumberedCount(rs[i..])) == Wrap(cmdSN + NumberedCount(rs))
      invariant left == Through(SendAll(session.cmdSN, rs[i..]), connection.sendFails, connection.sends)
      invariant connection.sent + left == sent + got
      invariant connection.outbound + Wire(d, left) == outbound + Wire(d, got)
    {
      connection.expStatSN := rs[i].expStatSN;
      ghost var before := session.cmdSN;
      RunStep(before, rs[i..], connection.sendFails, connection.sends, d);
      assert rs[i..][1..] == rs[i + 1..];
      var error := SendPDU(session, connection, rs[i].bhs, rs[i].data);
      NumberedStep(before, rs[i..]);
      left := if error == Ok then left[1..] else left;
    }
    assert rs[|rs|..] == [];
    NumberedCountStep(rs[|rs|..]);
    WrapSmall(session.cmdSN);
    NothingToSend(session.cmdSN, connection.sendFails, connection.sends);
    WireNothing(d);
    ThroughStamped(cmdSN, rs, connection.sendFails, from);
    forall reader: Reader
      ensures ReadAll(reader, d, Wire(d, got)) == Reading(AsRead(got), []) <==> AllRead(reader, d, got)
    {
      WireRoundTripIff(reader, d, got);
    }
    assert connection.outbound + [] == connection.outbound && connection.sent + [] == connection.sent;
    assert connection.outbound[|outbound|..] == Wire(d, got);
  }

  lemma WireNothing(d: Digests)
    ensures Wire(d, []) == []
  {}

  lemma RunStep(cmdSN: u32, rs: seq<Request>, fails: nat -> bool, from: nat, d: Digests)
    requires rs != []
    ensures
      var p := Completed(rs[0], cmdSN);
      var all := Through(SendAll(cmdSN, rs), fails, from);
      var rest := Through(SendAll(NextCmdSN(rs[0].bhs.opCode, cmdSN), rs[1..]), fails, from + 1);
      if fails(from) then all == rest
      else all == [p] + rest && all[1..] == rest && Wire(d, all) == Frame(d, Encode(p.bhs), p.data) + Wire(d, rest)
  {
    hide Completed, Frame, Encode;
    var all, next := SendAll(cmdSN, rs), NextCmdSN(rs[0].bhs.opCode, cmdSN);
    assert all[0] == Completed(rs[0], cmdSN) && all[1..] == SendAll(next, rs[1..]);
    assert Through(all, fails, from) ==
      (if fails(from) then [] else [all[0]]) + Through(all[1..], fails, from + 1);
  }

  lemma NumberedStep(cmdSN: u32, rs: seq<Request>)
    requires rs != []
    ensures
      var next := NextCmdSN(rs[0].bhs.opCode, cmdSN);
      Wrap(next + NumberedCount(rs[1..])) == Wrap(cmdSN + NumberedCount(rs))
  {
    hide NumberedCount, Numbered, NextCmdSN, Wrap;
    NumberedCountStep(rs);
    NextNumbered(rs[0].bhs.opCode, cmdSN);
    NextAndMore(cmdSN, Numbered(rs[0].bhs.opCode), NumberedCount(rs[1..]));
  }

  lemma NextAndMore(cmdSN: u32, numbered: bool, n: nat)
    ensures
      var next := if numbered then Wrap(cmdSN + 1) else cmdSN;
      Wrap(next + n) == Wrap(cmdSN + ((if numbered then 1 else 0) + n))
  {
    hide Wrap;
    if numbered {
      WrapSum(cmdSN, 1, n);
      assert cmdSN + 1 + n == cmdSN + (1 + n);
    }
  }

  lemma NextNumbered(opCode: byte, cmdSN: u32)
    ensures NextCmdSN(opCode, cmdSN) == if Numbered(opCode) then Wrap(cmdSN + 1) else cmdSN
  {}

  lemma NumberedCountStep(rs: seq<Request>)
    ensures rs == [] ==> NumberedCount(rs) == 0
    ensures rs != [] ==>
      NumberedCount(rs) == (if Numbered(rs[0].bhs.opCode) then 1 else 0) + NumberedCount(rs[1..])
  {
    hide Numbered;
  }

  lemma NothingToSend(cmdSN: u32, fails: nat -> bool, from: nat)
    ensures Through(SendAll(cmdSN, []), fails, from) == []
  {}

  // ----- what the receiver of the numbers sees -----

  /** A receiver that expects number e finds it, and every later one, where it should be. */
  predicate InSequence(e: u32, pdus: seq<Pdu>)
    decreases |pdus|
  {
    pdus == [] ||
    ((pdus[0].bhs.opCode != DATA_OUT ==> pdus[0].bhs.cmdSN == e) &&
      InSequence(NextCmdSN(pdus[0].bhs.opCode, e), pdus[1..]))
  }

  /** How many of the requests use up a number and are refused. */
  function Lost(rs: seq<Request>, fails: nat -> bool, from: nat): (n: nat)
    ensures n <= |rs|
    decreases |rs|
  {
    if rs == [] then 0
    else (if fails(from) && Numbered(rs[0].bhs.opCode) then 1 else 0) + Lost(rs[1..], fails, from + 1)
  }

  /** Request j is accepted and carries a command number. */
  predicate Carries(rs: seq<Request>, fails: nat -> bool, from: nat, j: nat)
    requires j < |rs|
  {
    !fails(from + j) && rs[j].bhs.opCode != DATA_OUT
  }

  /** With lost numbers missing already, no number is missing at request j or at a later one. */
  ghost predicate NothingMissing(lost: nat, rs: seq<Request>, fails: nat -> bool, from: nat) {
    forall j :: 0 <= j < |rs| && Carries(rs, fails, from, j) ==>
      Wrap(lost + Lost(rs[..j], fails, from)) == 0
  }

  lemma LostStep(rs: seq<Request>, fails: nat -> bool, from: nat, j: nat)
    requires 0 < j <= |rs|
    ensures
      var more := if fails(from) && Numbered(rs[0].bhs.opCode) then 1 else 0;
      Lost(rs[..j], fails, from) == more + Lost(rs[1..][..j - 1], fails, from + 1)
  {
    hide Numbered;
    assert rs[..j][1..] == rs[1..][..j - 1];
  }

  lemma NothingMissingStep(lost: nat, rs: seq<Request>, fails: nat -> bool, from: nat)
    requires rs != []
    ensures
      var more := if fails(from) && Numbered(rs[0].bhs.opCode) then 1 else 0;
      NothingMissing(lost, rs, fails, from) <==>
        (Carries(rs, fails, from, 0) ==> Wrap(lost) == 0) &&
        NothingMissing(lost + more, rs[1..], fails, from + 1)
  {
    hide Numbered, Wrap, Lost, Carries;
    var more := if fails(from) && Numbered(rs[0].bhs.opCode) then 1 else 0;
    var rest := rs[1..];
    LostNothing(fails, from);
    assert rs[..0] == [];
    forall k | 0 <= k < |rest|
      ensures Carries(rs, fails, from, k + 1) <==> Carries(rest, fails, from + 1, k)
      ensures lost + Lost(rs[..k + 1], fails, from) == lost + more + Lost(rest[..k], fails, from + 1)
    {
      LostStep(rs, fails, from, k + 1);
      CarriesBehind(rs, fails, from, k);
    }
    if NothingMissing(lost + more, rest, fails, from + 1) {
      forall j | 0 < j < |rs| && Carries(rs, fails, from, j)
        ensures Wrap(lost + Lost(rs[..j], fails, from)) == 0
      {
        LostStep(rs, fails, from, j);
        CarriesBehind(rs, fails, from, j - 1);
        assert Carries(rest, fails, from + 1, j - 1);
      }
    }
  }

  lemma CarriesBehind(rs: seq<Request>, fails: nat -> bool, from: nat, k: nat)
    requires k + 1 < |rs|
    ensures Carries(rs, fails, from, k + 1) <==> Carries(rs[1..], fails, from + 1, k)
  {}

  lemma LostNothing(fails: nat -> bool, from: nat)
    ensures Lost([], fails, from) == 0
  {}

  lemma SameNumber(e: u32, lost: nat)
    ensures Wrap(e + lost) == e <==> Wrap(lost) == 0
  {}

  lemma NextWithLost(opCode: byte, e: u32, lost: nat, refused: bool)
    ensures
      var more := if refused && Numbered(opCode) then 1 else 0;
      var next := if refused then e else NextCmdSN(opCode, e);
      NextCmdSN(opCode, Wrap(e + lost)) == Wrap(next + (lost + more))
  {
    hide Numbered, NextCmdSN, Wrap;
    NextNumbered(opCode, Wrap(e + lost));
    NextNumbered(opCode, e);
    WrapSum(e, lost, 1);
    WrapSum(e, 1, lost);
    assert e + 1 + lost == e + lost + 1 == e + (lost + 1);
  }

  /** The receiver's view of the first request of a run, and of the rest. */
  lemma InSequenceStep(e: u32, c: u32, rs: seq<Request>, fails: nat -> bool, from: nat)
    requires rs != []
    ensures
      var op := rs[0].bhs.opCode;
      var next := if fails(from) then e else NextCmdSN(op, e);
      InSequence(e, Through(SendAll(c, rs), fails, from)) <==>
        (Carries(rs, fails, from, 0) ==> c == e) &&
        InSequence(next, Through(SendAll(NextCmdSN(op, c), rs[1..]), fails, from + 1))
  {
    hide Numbered, Completed, NextCmdSN, Through, SendAll, Wire;
    RunStep(c, rs, fails, from, Digests(false, false));
    CompletedHeader(rs[0], c);
  }

  lemma {:induction false} InSequenceFrom(e: u32, lost: nat, rs: seq<Request>, fails: nat -> bool, from: nat)
    ensures
      InSequence(e, Through(SendAll(Wrap(e + lost), rs), fails, from)) <==>
      NothingMissing(lost, rs, fails, from)
    decreases |rs|
  {
    hide Numbered, NothingMissing, Lost, NextCmdSN, Wrap, InSequence, Through, SendAll, Carries;
    if rs == [] {
      NothingMissingAtEnd(lost, fails, from);
      InSequenceAtEnd(e, Wrap(e + lost), fails, from);
    } else {
      var op, c := rs[0].bhs.opCode, Wrap(e + lost);
      var more := if fails(from) && Numbered(op) then 1 else 0;
      InSequenceStep(e, c, rs, fails, from);
      NextWithLost(op, e, lost, fails(from));
      NothingMissingStep(lost, rs, fails, from);
      InSequenceFrom(if fails(from) then e else NextCmdSN(op, e), lost + more, rs[1..], fails, from + 1);
      SameNumber(e, lost);
    }
  }

  lemma InSequenceAtEnd(e: u32, c: u32, fails: nat -> bool, from: nat)
    ensures InSequence(e, Through(SendAll(c, []), fails, from))
  {}

  lemma CompletedHeader(r: Request, cmdSN: u32)
    ensures Completed(r, cmdSN).bhs.opCode == r.bhs.opCode
    ensures r.bhs.opCode != DATA_OUT ==> Completed(r, cmdSN).bhs.cmdSN == cmdSN
  {
    hide DataSegmentLengthField;
  }

  lemma NothingMissingAtEnd(lost: nat, fails: nat -> bool, from: nat)
    ensures NothingMissing(lost, [], fails, from)
  {}

  /** No numbered request is refused before an accepted one that carries a number. */
  ghost predicate NoneRefusedBefore(rs: seq<Request>, fails: nat -> bool, from: nat) {
    forall j :: 0 <= j < |rs| && Carries(rs, fails, from, j) ==> Lost(rs[..j], fails, from) == 0
  }

  lemma {:induction false} LostNothingIff(rs: seq<Request>, fails: nat -> bool, from: nat)
    ensures Lost(rs, fails, from) == 0 <==>
      forall i :: 0 <= i < |rs| && Numbered(rs[i].bhs.opCode) ==> !fails(from + i)
    decreases |rs|
  {
    hide Numbered;
    if rs != [] {
      LostNothingIff(rs[1..], fails, from + 1);
      forall i | 0 < i < |rs|
        ensures rs[i] == rs[1..][i - 1]
      {}
    }
  }

  /** The numbers on the wire have neither gap nor repeat exactly when, before each accepted request
      that carries one, the refused requests have used up a multiple of 2^32 numbers: in runs of fewer
      requests than that, exactly when they have used up none. */
  lemma NumbersOnTheWire(cmdSN: u32, rs: seq<Request>, fails: nat -> bool, from: nat)
    ensures InSequence(cmdSN, Through(SendAll(cmdSN, rs), fails, from)) <==> NothingMissing(0, rs, fails, from)
    ensures |rs| < 0x1_0000_0000 ==>
      (InSequence(cmdSN, Through(SendAll(cmdSN, rs), fails, from)) <==> NoneRefusedBefore(rs, fails, from))
  {
    hide InSequence, Through, SendAll, Lost, Carries, Wrap;
    InSequenceFrom(cmdSN, 0, rs, fails, from);
    WrapSmall(cmdSN);
    if |rs| < 0x1_0000_0000 {
      forall j | 0 <= j < |rs|
        ensures Wrap(0 + Lost(rs[..j], fails, from)) == Lost(rs[..j], fails, from)
      {
        WrapSmall(Lost(rs[..j], fails, from));
      }
    }
  }

  // ----- the numbers that a target sends -----

  /** The later of two numbers in the serial arithmetic of section 3.2.2.1 of RFC 3720. */
  function Later(a: u32, b: u32): u32 {
    if 0 < (b - a) % 0x1_0000_0000 < 0x8000_0000 then b else a
  }

  /** RecvPDUHeader keeps the greater of two numbers: it is the later one exactly when they differ by less
      than 2^31, or the new one is smaller by just that much. */
  lemma KeptIsLaterIff(kept: u32, received: u32)
    ensures
      MaxOf(kept, received) == Later(kept, received) <==>
      received - kept < 0x8000_0000 && kept - received <= 0x8000_0000
  {}

  /** What is kept after receiving numbers that count ns, each modulo 2^32. */
  function KeptAfter(kept: u32, ns: seq<nat>): u32
    decreases |ns|
  {
    if ns == [] then kept else KeptAfter(MaxOf(kept, Wrap(ns[0])), ns[1..])
  }

  lemma {:induction false} KeptBounds(kept: u32, ns: seq<nat>, top: u32)
    ensures kept <= KeptAfter(kept, ns)
    ensures ns != [] ==> Wrap(ns[|ns| - 1]) <= KeptAfter(kept, ns)
    ensures kept <= top && (forall i :: 0 <= i < |ns| ==> Wrap(ns[i]) <= top) ==> KeptAfter(kept, ns) <= top
    decreases |ns|
  {
    hide Wrap;
    if ns != [] {
      KeptBounds(MaxOf(kept, Wrap(ns[0])), ns[1..], top);
      assert forall i :: 0 <= i < |ns| - 1 ==> ns[1..][i] == ns[i + 1];
    }
  }

  lemma WrapKeepsOrder(a: nat, b: nat)
    requires a <= b
    ensures a / 0x1_0000_0000 == b / 0x1_0000_0000 ==> Wrap(a) <= Wrap(b)
    ensures a / 0x1_0000_0000 != b / 0x1_0000_0000 && b - a < 0x1_0000_0000 ==> Wrap(b) < Wrap(a)
    ensures a / 0x1_0000_0000 <= b / 0x1_0000_0000
  {}

  /** Counted without wrapping round, no number of a target is below the first or above the last. */
  ghost predicate Rising(first: nat, ns: seq<nat>) {
    forall i :: 0 <= i < |ns| ==> first <= ns[i] <= ns[|ns| - 1]
  }

  /** Over any run in which the target moves on by less than 2^32, what is kept is the target's latest number
      exactly when the count has not wrapped round; once it has, an older number stays. */
  lemma KeptIsLatestIff(first: nat, ns: seq<nat>)
    requires ns != [] && Rising(first, ns) && ns[|ns| - 1] - first < 0x1_0000_0000
    ensures
      var last := ns[|ns| - 1];
      KeptAfter(Wrap(first), ns) == Wrap(last) <==> first / 0x1_0000_0000 == last / 0x1_0000_0000
  {
    hide Wrap, KeptAfter;
    var last := ns[|ns| - 1];
    WrapKeepsOrder(first, last);
    KeptBounds(Wrap(first), ns, Wrap(last));
    if first / 0x1_0000_0000 == last / 0x1_0000_0000 {
      forall i | 0 <= i < |ns|
        ensures Wrap(ns[i]) <= Wrap(last)
      {
        WrapKeepsOrder(first, ns[i]);
        WrapKeepsOrder(ns[i], last);
      }
    }
  }
}
