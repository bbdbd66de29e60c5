/** Session and connection slots of the virtual HBA, the index from target names to sessions, and the
    count of active connections that decides whether the SCSI target exists. */
module Sessions {
  import opened Hba
  import opened Wrappers

  const MAX_SESSIONS: nat := 16
  const MAX_CONNECTIONS: nat := 2

  /** A session: its connection slots, each saying whether the connection's task queue is enabled, and
      the number of active connections. */
  datatype Record = Record(connections: seq<Option<bool>>, numActive: u32)

  type Entry = r: Record | |r.connections| == MAX_CONNECTIONS witness Record([None, None], 0)

  const NEW_SESSION: Entry := Record([None, None], 0)

  /** The session slots, the name index, and the SCSI targets that exist. */
  datatype Tables = Tables(sessions: seq<Option<Entry>>, names: map<string, nat>, targets: set<nat>)

  type State = t: Tables | |t.sessions| == MAX_SESSIONS witness Tables(NoSessions(MAX_SESSIONS), map[], {})

  function NoSessions(n: nat): seq<Option<Entry>> {
    seq(n, _ => None)
  }

  const INITIAL: State := Tables(NoSessions(MAX_SESSIONS), map[], {})

  type SessionId = n: nat | n < MAX_SESSIONS
  type ConnectionId = n: nat | n < MAX_CONNECTIONS

  // ----- the operations as functions -----

  /** The first free slot, or the number of slots. */
  function FirstFree<T>(slots: seq<Option<T>>): (k: nat)
    ensures k <= |slots|
    ensures k < |slots| ==> slots[k] == None
    ensures forall i :: 0 <= i < k ==> slots[i] != None
  {
    if slots == [] || slots[0] == None then 0 else 1 + FirstFree(slots[1..])
  }

  predicate Live(t: State, sid: SessionId) {
    t.sessions[sid] != None
  }

  predicate Connected(t: State, sid: SessionId, cid: ConnectionId) {
    Live(t, sid) && t.sessions[sid].value.connections[cid] != None
  }

  predicate Enabled(t: State, sid: SessionId, cid: ConnectionId) {
    Connected(t, sid, cid) && t.sessions[sid].value.connections[cid].value
  }

  function WithSession(t: State, sid: SessionId, e: Option<Entry>): State {
    t.(sessions := t.sessions[sid := e])
  }

  function WithConnection(t: State, sid: SessionId, cid: ConnectionId, c: Option<bool>, numActive: u32): State
    requires Live(t, sid)
  {
    WithSession(t, sid, Some(Record(t.sessions[sid].value.connections[cid := c], numActive)))
  }

  /** CreateConnection; fault is an allocation or socket error met on the way. */
  function ConnectionCreated(t: State, sid: SessionId, fault: Errno): (State, Errno) {
    if !Live(t, sid) then (t, EINVAL)
    else
      var index := FirstFree(t.sessions[sid].value.connections);
      if index == MAX_CONNECTIONS then (t, EAGAIN)
      else if fault != Ok then (t, fault)
      else (WithConnection(t, sid, index, Some(false), t.sessions[sid].value.numActive), Ok)
  }

  /** CreateSession; noMemory is a failed allocation of the session, fault one met by the connection. */
  function SessionCreated(t: State, name: string, noMemory: bool, fault: Errno): (State, Errno) {
    var sid := FirstFree(t.sessions);
    if sid == MAX_SESSIONS || noMemory then (t, EAGAIN)
    else
      var added := WithSession(t, sid, Some(NEW_SESSION)).(names := t.names[name := sid]);
      var (connected, error) := ConnectionCreated(added, sid, fault);
      if error != Ok then (WithSession(connected, sid, None).(names := connected.names - {name}), error)
      else (connected, Ok)
  }

  /** ActivateConnection; noTarget means that the SCSI target could not be created. */
  function Activated(t: State, sid: SessionId, cid: ConnectionId, noTarget: bool): (State, Errno) {
    if !Connected(t, sid, cid) then (t, EINVAL)
    else
      var n := t.sessions[sid].value.numActive;
      if n == 0 && noTarget then (WithConnection(t, sid, cid, Some(false), n), EAGAIN)
      else
        var enabled := WithConnection(t, sid, cid, Some(true), (n + 1) % 0x1_0000_0000);
        (if n == 0 then enabled.(targets := t.targets + {sid}) else enabled, Ok)
  }

  /** DeactivateConnection, as far as the slots and the target go. */
  function Deactivated(t: State, sid: SessionId, cid: ConnectionId): (State, Errno) {
    if !Connected(t, sid, cid) then (t, EINVAL)
    else
      var n: u32 := (t.sessions[sid].value.numActive - 1) % 0x1_0000_0000;
      (WithConnection(t, sid, cid, Some(false), n).(targets := if n == 0 then t.targets - {sid} else t.targets), Ok)
  }

  function ConnectionReleased(t: State, sid: SessionId, cid: ConnectionId): State {
    if !Connected(t, sid, cid) then t
    else
      var u := if Enabled(t, sid, cid) then Deactivated(t, sid, cid).0 else t;
      WithConnection(u, sid, cid, None, u.sessions[sid].value.numActive)
  }

  function ConnectionsReleased(t: State, sid: SessionId, n: nat): (r: State)
    requires n <= MAX_CONNECTIONS && Live(t, sid)
    ensures Live(r, sid) && r.names == t.names
    ensures forall s :: 0 <= s < MAX_SESSIONS && s != sid ==> r.sessions[s] == t.sessions[s]
  {
    if n == 0 then t else ConnectionReleased(ConnectionsReleased(t, sid, n - 1), sid, n - 1)
  }

  function SessionReleased(t: State, sid: SessionId): State {
    if !Live(t, sid) then t
    else
      var u := ConnectionsReleased(t, sid, MAX_CONNECTIONS);
      WithSession(u, sid, None).(names := map name | name in u.names && u.names[name] != sid :: u.names[name])
  }

  function SessionsReleased(t: State, n: nat): State
    requires n <= MAX_SESSIONS
  {
    if n == 0 then t else SessionReleased(SessionsReleased(t, n - 1), n - 1)
  }

  // ----- what the calls do, as far as it can be observed -----

  /** The connection in a slot: none, or whether its queue is enabled. */
  function ConnectionAt(t: State, sid: SessionId, cid: ConnectionId): Option<bool> {
    if Live(t, sid) then t.sessions[sid].value.connections[cid] else None
  }

  /** The other sessions, their connections and their SCSI targets are as before. */
  ghost predicate OthersSame(t: State, r: State, sid: SessionId) {
    forall s: SessionId :: s != sid ==> r.sessions[s] == t.sessions[s] && (s in r.targets <==> s in t.targets)
  }

  lemma {:induction false} FirstFreeIff<T>(slots: seq<Option<T>>)
    ensures FirstFree(slots) == |slots| <==> forall i :: 0 <= i < |slots| ==> slots[i] != None
    decreases |slots|
  {
    if slots != [] && slots[0] != None {
      FirstFreeIff(slots[1..]);
      assert forall i :: 0 < i < |slots| ==> slots[i] == slots[1..][i - 1];
      assert forall i :: 0 <= i < |slots| - 1 ==> slots[1..][i] == slots[i + 1];
    }
  }

  /** A create succeeds exactly when a slot is free and nothing goes wrong.  Then the name leads to the
      first free slot, which holds a session with one connection, not yet enabled; every other name and
      every other slot is as before. */
  lemma CreateSessionEffect(t: State, name: string, noMemory: bool, fault: Errno)
    ensures
      var (r, error) := SessionCreated(t, name, noMemory, fault);
      var full := forall s: SessionId :: Live(t, s);
      (full || noMemory ==> error == EAGAIN && r == t) &&
      (!full && !noMemory ==> error == fault) &&
      (error == Ok ==>
        name in r.names && r.names[name] < 16 && r.names - {name} == t.names - {name} &&
        var sid: SessionId := r.names[name];
        !Live(t, sid) && (forall s: SessionId :: s < sid ==> Live(t, s)) &&
        Live(r, sid) && ConnectionAt(r, sid, 0) == Some(false) && ConnectionAt(r, sid, 1) == None &&
        r.sessions[sid].value.numActive == 0 && OthersSame(t, r, sid) && r.targets == t.targets)
  {
    FirstFreeIff(t.sessions);
    FirstSlotFree();
    var sid := FirstFree(t.sessions);
    assert (forall s: SessionId :: Live(t, s)) ==> forall i :: 0 <= i < MAX_SESSIONS ==> Live(t, i);
    if sid == MAX_SESSIONS {
      forall s: SessionId
        ensures Live(t, s)
      {
        assert t.sessions[s] != None;
      }
    }
    if sid < MAX_SESSIONS && !noMemory {
      assert !Live(t, sid);
      var added := WithSession(t, sid, Some(NEW_SESSION)).(names := t.names[name := sid]);
      assert added.sessions[sid] == Some(NEW_SESSION);
      assert t.names[name := sid] - {name} == t.names - {name};
    }
  }

  /** A connection goes to the first free slot of its session, not yet enabled. */
  lemma CreateConnectionEffect(t: State, sid: SessionId, fault: Errno)
    ensures
      var (r, error) := ConnectionCreated(t, sid, fault);
      error == (if !Live(t, sid) then EINVAL
        else if Connected(t, sid, 0) && Connected(t, sid, 1) then EAGAIN else fault) &&
      (error != Ok ==> r == t) &&
      (error == Ok ==>
        var cid := if Connected(t, sid, 0) then 1 else 0;
        Live(r, sid) && ConnectionAt(r, sid, cid) == Some(false) &&
        ConnectionAt(r, sid, 1 - cid) == ConnectionAt(t, sid, 1 - cid) &&
        r.sessions[sid].value.numActive == t.sessions[sid].value.numActive &&
        OthersSame(t, r, sid) && r.names == t.names && r.targets == t.targets)
  {
    if Live(t, sid) {
      var cs := t.sessions[sid].value.connections;
      FirstFreeIff(cs);
    }
  }

  /** Activating enables the connection, and mounts the SCSI target if no connection was active. */
  lemma ActivateEffect(t: State, sid: SessionId, cid: ConnectionId, noTarget: bool)
    ensures
      var (r, error) := Activated(t, sid, cid, noTarget);
      (error == EINVAL <==> !Connected(t, sid, cid)) &&
      (error == EAGAIN <==> Connected(t, sid, cid) && noTarget && t.sessions[sid].value.numActive == 0) &&
      (error == Ok || error == EINVAL || error == EAGAIN) &&
      (error == EINVAL ==> r == t) &&
      (error != EINVAL ==>
        ConnectionAt(r, sid, cid) == Some(error == Ok) &&
        ConnectionAt(r, sid, 1 - cid) == ConnectionAt(t, sid, 1 - cid)) &&
      (error == Ok ==>
        (sid in r.targets <==> sid in t.targets || t.sessions[sid].value.numActive == 0)) &&
      OthersSame(t, r, sid) && r.names == t.names && (Live(r, sid) <==> Live(t, sid))
  {}

  /** Deactivating disables the connection, and takes the SCSI target down if no connection is left. */
  lemma DeactivateEffect(t: State, sid: SessionId, cid: ConnectionId)
    ensures
      var (r, error) := Deactivated(t, sid, cid);
      error == (if Connected(t, sid, cid) then Ok else EINVAL) && (error == EINVAL ==> r == t) &&
      (error == Ok ==>
        ConnectionAt(r, sid, cid) == Some(false) &&
        ConnectionAt(r, sid, 1 - cid) == ConnectionAt(t, sid, 1 - cid) &&
        (sid in r.targets <==> sid in t.targets && t.sessions[sid].value.numActive != 1)) &&
      OthersSame(t, r, sid) && r.names == t.names && (Live(r, sid) <==> Live(t, sid))
  {}

  /** Releasing a connection frees its slot and no other. */
  lemma ReleaseConnectionEffect(t: State, sid: SessionId, cid: ConnectionId)
    ensures
      var r := ConnectionReleased(t, sid, cid);
      ConnectionAt(r, sid, cid) == None && ConnectionAt(r, sid, 1 - cid) == ConnectionAt(t, sid, 1 - cid) &&
      OthersSame(t, r, sid) && r.names == t.names && (Live(r, sid) <==> Live(t, sid))
  {}

  /** Releasing a session frees its slot and takes away its names; the others stay, names and slots. */
  lemma ReleaseSessionEffect(t: State, sid: SessionId)
    ensures
      var r := SessionReleased(t, sid);
      !Live(r, sid) && OthersSame(t, r, sid) &&
      (Live(t, sid) ==> forall name :: name in r.names <==> name in t.names && t.names[name] != sid) &&
      (Live(t, sid) ==> forall name :: name in r.names ==> r.names[name] == t.names[name]) &&
      (!Live(t, sid) ==> r == t)
  {
    hide ConnectionReleased;
    if Live(t, sid) {
      var u := ConnectionsReleased(t, sid, 1);
      ReleaseConnectionEffect(t, sid, 0);
      ReleaseConnectionEffect(u, sid, 1);
      assert ConnectionsReleased(t, sid, 2) == ConnectionReleased(u, sid, 1);
      assert u == ConnectionReleased(ConnectionsReleased(t, sid, 0), sid, 0);
    }
  }

  // ----- the name index -----

  /** Every name points to a live session, and no two names to the same one. */
  ghost predicate Indexed(t: State) {
    (forall name :: name in t.names ==> t.names[name] < MAX_SESSIONS && Live(t, t.names[name])) &&
    (forall a, b :: a in t.names && b in t.names && t.names[a] == t.names[b] ==> a == b)
  }

  lemma CreateConnectionKeepsIndex(t: State, sid: SessionId, fault: Errno)
    requires Indexed(t)
    ensures Indexed(ConnectionCreated(t, sid, fault).0)
  {}

  lemma NewNameKeepsIndex(t: State, sid: SessionId, name: string)
    requires Indexed(t) && !Live(t, sid)
    ensures Indexed(WithSession(t, sid, Some(NEW_SESSION)).(names := t.names[name := sid]))
  {}

  lemma DroppedNameKeepsIndex(t: State, sid: SessionId, name: string)
    requires Indexed(t) && name in t.names && t.names[name] == sid
    ensures Indexed(WithSession(t, sid, None).(names := t.names - {name}))
  {}

  lemma CreateSessionKeepsIndex(t: State, name: string, noMemory: bool, fault: Errno)
    requires Indexed(t)
    ensures Indexed(SessionCreated(t, name, noMemory, fault).0)
  {
    hide Indexed;
    var sid := FirstFree(t.sessions);
    if sid < MAX_SESSIONS && !noMemory {
      var added := WithSession(t, sid, Some(NEW_SESSION)).(names := t.names[name := sid]);
      NewNameKeepsIndex(t, sid, name);
      CreateConnectionKeepsIndex(added, sid, fault);
      DroppedNameKeepsIndex(ConnectionCreated(added, sid, fault).0, sid, name);
    }
  }

  lemma FirstSlotFree()
    ensures FirstFree(NEW_SESSION.connections) == 0
  {}

  /** A create that fails in its connection restores both tables exactly when the name was not in use:
      otherwise the older session of that name loses it. */
  lemma FailedCreateRestores(t: State, name: string, fault: Errno)
    requires Indexed(t) && fault != Ok && FirstFree(t.sessions) < MAX_SESSIONS
    ensures SessionCreated(t, name, false, fault).1 == fault
    ensures SessionCreated(t, name, false, fault).0 == t <==> name !in t.names
    ensures SessionCreated(t, name, false, fault).0 == t.(names := t.names - {name})
  {
    var sid := FirstFree(t.sessions);
    FirstSlotFree();
    hide FirstFree;
    assert t.sessions[sid := Some(NEW_SESSION)][sid := None] == t.sessions;
    assert t.names[name := sid] - {name} == t.names - {name};
    assert name !in t.names ==> t.names - {name} == t.names;
  }

  lemma ReleaseSessionKeepsIndex(t: State, sid: SessionId)
    requires Indexed(t)
    ensures Indexed(SessionReleased(t, sid))
    ensures !Live(SessionReleased(t, sid), sid)
    ensures forall s: SessionId :: !Live(t, s) ==> !Live(SessionReleased(t, sid), s)
  {
    hide ConnectionsReleased;
  }

  lemma {:induction false} ReleaseSessionsEmpties(t: State, n: nat)
    requires Indexed(t) && n <= MAX_SESSIONS
    ensures Indexed(SessionsReleased(t, n))
    ensures forall s: SessionId :: s < n ==> !Live(SessionsReleased(t, n), s)
  {
    hide SessionReleased, Indexed;
    if n > 0 {
      ReleaseSessionsEmpties(t, n - 1);
      ReleaseSessionKeepsIndex(SessionsReleased(t, n - 1), n - 1);
    }
  }

  /** Releasing all sessions empties the slots and the index. */
  lemma ReleaseAllEmpties(t: State)
    requires Indexed(t)
    ensures
      var r := SessionsReleased(t, MAX_SESSIONS);
      r.sessions == NoSessions(MAX_SESSIONS) && r.names == map[]
  {
    hide SessionsReleased;
    ReleaseSessionsEmpties(t, MAX_SESSIONS);
    var r := SessionsReleased(t, MAX_SESSIONS);
    forall s | 0 <= s < MAX_SESSIONS
      ensures r.sessions[s] == None
    {
      assert !Live(r, s);
    }
    assert r.names.Keys == {};
  }

  /** The part of a name that fits a buffer. */
  function Cut(name: string, size: nat): (r: string)
    ensures |r| <= size && r <= name && (|name| <= size ==> r == name) && (|name| > size ==> |r| == size)
  {
    if size < |name| then name[..size] else name
  }

  /** A possible answer to the question for the name of a session, in a buffer of that size: any name of
      a live session will do, and there is no answer only if there is no such name. */
  ghost predicate IsNameOf(t: State, sid: SessionId, size: nat, r: Option<string>) {
    match r
    case Some(cut) => Live(t, sid) && exists name :: name in t.names && t.names[name] == sid && cut == Cut(name, size)
    case None => Live(t, sid) ==> forall name :: name in t.names ==> t.names[name] != sid
  }

  /** On every run, the answer for the session of a name is that name, as far as the buffer goes: from a
      name to its session and from there to a name leads back. */
  lemma LookupsAreInverse(cs: seq<Call>, name: string, size: nat, r: Option<string>)
    ensures
      var t := Run(INITIAL, cs);
      name in t.names ==>
        t.names[name] < MAX_SESSIONS && (IsNameOf(t, t.names[name], size, r) ==> r == Some(Cut(name, size)))
  {
    RunsAreIndexed(cs);
  }

  // ----- active connections -----

  function Active(cs: seq<Option<bool>>): nat {
    if cs == [] then 0 else (if cs[0] == Some(true) then 1 else 0) + Active(cs[1..])
  }

  /** The count of a session is right, and its SCSI target exists exactly when the count is positive. */
  ghost predicate CountedAt(t: State, sid: SessionId) {
    if Live(t, sid) then
      t.sessions[sid].value.numActive == Active(t.sessions[sid].value.connections) &&
      (sid in t.targets <==> t.sessions[sid].value.numActive > 0)
    else sid !in t.targets
  }

  ghost predicate Counted(t: State) {
    forall sid: SessionId :: CountedAt(t, sid)
  }

  lemma ActiveOfTwo(cs: seq<Option<bool>>)
    requires |cs| == MAX_CONNECTIONS
    ensures Active(cs) == (if cs[0] == Some(true) then 1 else 0) + (if cs[1] == Some(true) then 1 else 0)
  {
    assert Active(cs[1..]) == (if cs[1] == Some(true) then 1 else 0) + Active(cs[1..][1..]);
  }

  /** Changing one connection changes the count by the difference that connection makes. */
  lemma ActiveAfter(cs: seq<Option<bool>>, cid: ConnectionId, c: Option<bool>)
    requires |cs| == MAX_CONNECTIONS
    ensures
      Active(cs[cid := c]) ==
      Active(cs) - (if cs[cid] == Some(true) then 1 else 0) + (if c == Some(true) then 1 else 0)
    ensures Active(cs) <= MAX_CONNECTIONS
    ensures cs[cid] == Some(true) ==> Active(cs) > 0
  {
    ActiveOfTwo(cs);
    ActiveOfTwo(cs[cid := c]);
  }

  lemma ElsewhereCounted(t: State, r: State, sid: SessionId)
    requires Counted(t) && CountedAt(r, sid)
    requires forall s: SessionId :: s != sid ==> r.sessions[s] == t.sessions[s] && (s in r.targets <==> s in t.targets)
    ensures Counted(r)
  {
    forall s: SessionId
      ensures CountedAt(r, s)
    {
      assert CountedAt(t, s);
    }
  }

  /** Activating a connection keeps the count right exactly when it was not enabled already, or the
      connection does not exist; a target that cannot be created leaves everything as it was. */
  lemma ActivateKeepsCount(t: State, sid: SessionId, cid: ConnectionId, noTarget: bool)
    requires Counted(t)
    ensures Counted(Activated(t, sid, cid, noTarget).0) <==> !Enabled(t, sid, cid)
    ensures
      Activated(t, sid, cid, noTarget).1 == EAGAIN && !Enabled(t, sid, cid) ==>
      Activated(t, sid, cid, noTarget).0 == t
  {
    var r := Activated(t, sid, cid, noTarget).0;
    assert CountedAt(t, sid);
    if Connected(t, sid, cid) {
      var cs := t.sessions[sid].value.connections;
      ActiveAfter(cs, cid, Some(true));
      ActiveAfter(cs, cid, Some(false));
      if Enabled(t, sid, cid) {
        assert !CountedAt(r, sid);
      } else {
        assert cs[cid := Some(false)] == cs;
        assert t.sessions[sid := t.sessions[sid]] == t.sessions;
        ElsewhereCounted(t, r, sid);
      }
    }
  }

  /** Deactivating a connection keeps the count right exactly when it was enabled, or the connection
      does not exist. */
  lemma DeactivateKeepsCount(t: State, sid: SessionId, cid: ConnectionId)
    requires Counted(t)
    ensures Counted(Deactivated(t, sid, cid).0) <==> Enabled(t, sid, cid) || !Connected(t, sid, cid)
  {
    var r := Deactivated(t, sid, cid).0;
    assert CountedAt(t, sid);
    if Connected(t, sid, cid) {
      var cs := t.sessions[sid].value.connections;
      ActiveAfter(cs, cid, Some(false));
      if Enabled(t, sid, cid) {
        ElsewhereCounted(t, r, sid);
      } else {
        assert !CountedAt(r, sid);
      }
    }
  }

  lemma ReleaseConnectionKeepsCount(t: State, sid: SessionId, cid: ConnectionId)
    requires Counted(t)
    ensures Counted(ConnectionReleased(t, sid, cid))
  {
    hide Counted;
    if Connected(t, sid, cid) {
      var u := if Enabled(t, sid, cid) then Deactivated(t, sid, cid).0 else t;
      DeactivateKeepsCount(t, sid, cid);
      RemovedNotCounted(u, sid, cid);
    }
  }

  lemma RemovedNotCounted(u: State, sid: SessionId, cid: ConnectionId)
    requires Counted(u) && Connected(u, sid, cid) && !Enabled(u, sid, cid)
    ensures Counted(WithConnection(u, sid, cid, None, u.sessions[sid].value.numActive))
  {
    assert CountedAt(u, sid);
    ActiveAfter(u.sessions[sid].value.connections, cid, None);
    ElsewhereCounted(u, WithConnection(u, sid, cid, None, u.sessions[sid].value.numActive), sid);
  }

  lemma {:induction false} ReleaseConnectionsKeepsCount(t: State, sid: SessionId, n: nat)
    requires Counted(t) && Live(t, sid) && n <= MAX_CONNECTIONS
    ensures Counted(ConnectionsReleased(t, sid, n))
    ensures forall c: ConnectionId :: c < n ==> !Connected(ConnectionsReleased(t, sid, n), sid, c)
  {
    hide Counted, Connected, ConnectionReleased;
    if n > 0 {
      var u := ConnectionsReleased(t, sid, n - 1);
      ReleaseConnectionsKeepsCount(t, sid, n - 1);
      ReleaseConnectionKeepsCount(u, sid, n - 1);
      OneReleased(u, sid, n - 1);
    }
  }

  lemma OneReleased(t: State, sid: SessionId, cid: ConnectionId)
    ensures
      var r := ConnectionReleased(t, sid, cid);
      !Connected(r, sid, cid) && forall c: ConnectionId :: !Connected(t, sid, c) ==> !Connected(r, sid, c)
  {}

  lemma ReleaseSessionKeepsCount(t: State, sid: SessionId)
    requires Counted(t)
    ensures Counted(SessionReleased(t, sid))
  {
    if Live(t, sid) {
      var u := ConnectionsReleased(t, sid, MAX_CONNECTIONS);
      ReleaseConnectionsKeepsCount(t, sid, MAX_CONNECTIONS);
      assert !Connected(u, sid, 0) && !Connected(u, sid, 1);
      assert CountedAt(u, sid);
      ActiveOfTwo(u.sessions[sid].value.connections);
      ElsewhereCounted(u, SessionReleased(t, sid), sid);
    }
  }

  lemma CreateConnectionKeepsCount(t: State, sid: SessionId, fault: Errno)
    requires Counted(t)
    ensures Counted(ConnectionCreated(t, sid, fault).0)
  {
    if Live(t, sid) {
      var cs := t.sessions[sid].value.connections;
      var index := FirstFree(cs);
      if index < MAX_CONNECTIONS {
        assert CountedAt(t, sid);
        ActiveAfter(cs, index, Some(false));
        ElsewhereCounted(t, ConnectionCreated(t, sid, fault).0, sid);
      }
    }
  }

  lemma CreateSessionKeepsCount(t: State, name: string, noMemory: bool, fault: Errno)
    requires Counted(t)
    ensures Counted(SessionCreated(t, name, noMemory, fault).0)
  {
    var sid := FirstFree(t.sessions);
    if sid < MAX_SESSIONS && !noMemory {
      var added := WithSession(t, sid, Some(NEW_SESSION)).(names := t.names[name := sid]);
      assert CountedAt(t, sid);
      ActiveOfTwo(NEW_SESSION.connections);
      ElsewhereCounted(t, added, sid);
      if fault == Ok {
        CreateConnectionKeepsCount(added, sid, fault);
      } else {
        ElsewhereCounted(t, SessionCreated(t, name, noMemory, fault).0, sid);
      }
    }
  }

  // ----- runs -----

  /** A call that reaches the HBA, with the faults the environment answers it with. */
  datatype Call =
    | CreatesSession(name: string, noMemory: bool, fault: Errno)
    | CreatesConnection(sid: SessionId, fault: Errno)
    | Activates(sid: SessionId, cid: ConnectionId, noTarget: bool)
    | Deactivates(sid: SessionId, cid: ConnectionId)
    | ReleasesConnection(sid: SessionId, cid: ConnectionId)
    | ReleasesSession(sid: SessionId)
    | ReleasesAll

  function Step(t: State, c: Call): State {
    match c
    case CreatesSession(name, noMemory, fault) => SessionCreated(t, name, noMemory, fault).0
    case CreatesConnection(sid, fault) => ConnectionCreated(t, sid, fault).0
    case Activates(sid, cid, noTarget) => Activated(t, sid, cid, noTarget).0
    case Deactivates(sid, cid) => Deactivated(t, sid, cid).0
    case ReleasesConnection(sid, cid) => ConnectionReleased(t, sid, cid)
    case ReleasesSession(sid) => SessionReleased(t, sid)
    case ReleasesAll => SessionsReleased(t, MAX_SESSIONS)
  }

  function Run(t: State, cs: seq<Call>): State
    decreases |cs|
  {
    if cs == [] then t else Run(Step(t, cs[0]), cs[1..])
  }

  lemma StepKeepsIndex(t: State, c: Call)
    requires Indexed(t)
    ensures Indexed(Step(t, c))
  {
    hide SessionsReleased;
    match c
    case CreatesSession(name, noMemory, fault) => CreateSessionKeepsIndex(t, name, noMemory, fault);
    case CreatesConnection(sid, fault) => CreateConnectionKeepsIndex(t, sid, fault);
    case ReleasesSession(sid) => ReleaseSessionKeepsIndex(t, sid);
    case ReleasesAll => ReleaseSessionsEmpties(t, MAX_SESSIONS);
    case _ =>
  }

  lemma {:induction false} RunKeepsIndex(t: State, cs: seq<Call>)
    requires Indexed(t)
    ensures Indexed(Run(t, cs))
    decreases |cs|
  {
    hide Indexed, Step;
    if cs != [] {
      StepKeepsIndex(t, cs[0]);
      RunKeepsIndex(Step(t, cs[0]), cs[1..]);
    }
  }

  /** On every run, names point to live sessions and no two names share one. */
  lemma RunsAreIndexed(cs: seq<Call>)
    ensures Indexed(Run(INITIAL, cs))
  {
    RunKeepsIndex(INITIAL, cs);
  }

  /** The call activates only a disabled connection and deactivates only an enabled one. */
  predicate Orderly(t: State, c: Call) {
    match c
    case Activates(sid, cid, _) => !Enabled(t, sid, cid)
    case Deactivates(sid, cid) => Enabled(t, sid, cid) || !Connected(t, sid, cid)
    case _ => true
  }

  predicate OrderlyRun(t: State, cs: seq<Call>)
    decreases |cs|
  {
    cs == [] || (Orderly(t, cs[0]) && OrderlyRun(Step(t, cs[0]), cs[1..]))
  }

  /** The count is right at the start of the run and after every call. */
  ghost predicate CountedThroughout(t: State, cs: seq<Call>)
    decreases |cs|
  {
    Counted(t) && (cs == [] || CountedThroughout(Step(t, cs[0]), cs[1..]))
  }

  lemma {:induction false} ReleaseSessionsKeepsCount(t: State, n: nat)
    requires Counted(t) && n <= MAX_SESSIONS
    ensures Counted(SessionsReleased(t, n))
    decreases n
  {
    hide Counted, SessionReleased;
    if n > 0 {
      ReleaseSessionsKeepsCount(t, n - 1);
      ReleaseSessionKeepsCount(SessionsReleased(t, n - 1), n - 1);
    }
  }

  lemma StepKeepsCount(t: State, c: Call)
    requires Counted(t)
    ensures Counted(Step(t, c)) <==> Orderly(t, c)
  {
    hide Counted, Enabled, Connected;
    match c
    case CreatesSession(name, noMemory, fault) => CreateSessionKeepsCount(t, name, noMemory, fault);
    case CreatesConnection(sid, fault) => CreateConnectionKeepsCount(t, sid, fault);
    case Activates(sid, cid, noTarget) => ActivateKeepsCount(t, sid, cid, noTarget);
    case Deactivates(sid, cid) => DeactivateKeepsCount(t, sid, cid);
    case ReleasesConnection(sid, cid) => ReleaseConnectionKeepsCount(t, sid, cid);
    case ReleasesSession(sid) => ReleaseSessionKeepsCount(t, sid);
    case ReleasesAll => ReleaseSessionsKeepsCount(t, MAX_SESSIONS);
  }

  lemma {:induction false} RunKeepsCount(t: State, cs: seq<Call>)
    requires Counted(t)
    ensures CountedThroughout(t, cs) <==> OrderlyRun(t, cs)
    decreases |cs|
  {
    hide Counted, Orderly, Step;
    if cs != [] {
      StepKeepsCount(t, cs[0]);
      if Counted(Step(t, cs[0])) {
        RunKeepsCount(Step(t, cs[0]), cs[1..]);
      }
    }
  }

  /** Over a whole run, the number of active connections is the number of enabled ones and a SCSI
      target exists exactly when that number is positive, exactly if the run is orderly. */
  lemma RunsAreCountedIffOrderly(cs: seq<Call>)
    ensures CountedThroughout(INITIAL, cs) <==> OrderlyRun(INITIAL, cs)
  {
    RunKeepsCount(INITIAL, cs);
  }

  /** Deactivating a connection that was never activated: the count becomes 2^32 - 1. */
  lemma DisorderlyRun()
    ensures
      var t := Run(INITIAL, [CreatesSession("t", false, Ok), Deactivates(0, 0)]);
      t.sessions[0] == Some(Record([Some(false), None], 0xffff_ffff))
  {
    var calls := [CreatesSession("t", false, Ok), Deactivates(0, 0)];
    assert FirstFree(INITIAL.sessions) == 0;
    assert FirstFree(NEW_SESSION.connections) == 0;
    var added: State := WithSession(INITIAL, 0, Some(NEW_SESSION)).(names := INITIAL.names["t" := 0]);
    assert added.sessions[0] == Some(NEW_SESSION);
    var t := Step(INITIAL, calls[0]);
    assert t == ConnectionCreated(added, 0, Ok).0;
    assert NEW_SESSION.connections[0 := Some(false)] == [Some(false), None];
    assert t.sessions[0] == Some(Record([Some(false), None], 0));
    assert [Some(false), None][0 := Some(false)] == [Some(false), None];
    assert Run(INITIAL, calls) == Run(Step(t, calls[1]), calls[1..][1..]);
  }

  // ----- the class -----

  type Slots = s: seq<Option<Entry>> | |s| == MAX_SESSIONS witness NoSessions(MAX_SESSIONS)

  class VirtualHBA {
    var sessionList: Slots
    var targetList: map<string, nat>
    var scsiTargets: set<nat>

    ghost function Value(): State
      reads this
    {
      Tables(sessionList, targetList, scsiTargets)
    }

    constructor ()
      ensures Value() == INITIAL
    {
      sessionList, targetList, scsiTargets := NoSessions(MAX_SESSIONS), map[], {};
    }

    method FindSlot<T(==)>(slots: seq<Option<T>>) returns (k: nat)
      ensures k == FirstFree(slots)
    {
      k := 0;
      while k < |slots| && slots[k] != None
        invariant k <= |slots| && FirstFree(slots) == k + FirstFree(slots[k..])
      {
        k := k + 1;
      }
    }

    method CreateConnection(sid: SessionId, fault: Errno) returns (error: Errno)
      modifies this
      ensures (Value(), error) == ConnectionCreated(old(Value()), sid, fault)
    {
      if sessionList[sid] == None {
        return EINVAL;
      }
      var session: Entry := sessionList[sid].value;
      var index := FindSlot(session.connections);
      if index == MAX_CONNECTIONS {
        return EAGAIN;
      }
      sessionList := sessionList[sid := Some(session.(connections := session.connections[index := Some(false)]))];
      if fault != Ok {
        sessionList := sessionList[sid := Some(session)];
        assert sessionList == old(sessionList);
        return fault;
      }
      error := Ok;
    }

    method CreateSession(name: string, noMemory: bool, fault: Errno) returns (error: Errno)
      modifies this
      ensures (Value(), error) == SessionCreated(old(Value()), name, noMemory, fault)
    {
      var sid := FindSlot(sessionList);
      if sid == MAX_SESSIONS || noMemory {
        return EAGAIN;
      }
      sessionList := sessionList[sid := Some(NEW_SESSION)];
      targetList := targetList[name := sid];
      error := CreateConnection(sid, fault);
      if error != Ok {
        targetList := targetList - {name};
        sessionList := sessionList[sid := None];
      }
    }

    /** session and connection are what the slots hold, as the data path sees it; the limit on immediate
        data is set before anything can fail. */
    method ActivateConnection(sid: SessionId, cid: ConnectionId, noTarget: bool,
        session: Session, connection: Connection)
      returns (error: Errno)
      modifies this, connection`immediateDataLength
      ensures (Value(), error) == Activated(old(Value()), sid, cid, noTarget)
      ensures
        if Connected(old(Value()), sid, cid) then connection.LimitSet(session)
        else connection.immediateDataLength == old(connection.immediateDataLength)
    {
      if sessionList[sid] == None {
        return EINVAL;
      }
      if sessionList[sid].value.connections[cid] == None {
        return EINVAL;
      }
      connection.immediateDataLength := MinOf(connection.maxSendDataSegmentLength, session.firstBurstLength);
      var entry: Entry := sessionList[sid].value;
      entry := entry.(connections := entry.connections[cid := Some(true)]);
      if entry.numActive == 0 {
        if noTarget {
          entry := entry.(connections := entry.connections[cid := Some(false)]);
          assert entry.connections == sessionList[sid].value.connections[cid := Some(false)];
          sessionList := sessionList[sid := Some(entry)];
          return EAGAIN;
        }
        scsiTargets := scsiTargets + {sid};
      }
      entry := entry.(numActive := (entry.numActive + 1) % 0x1_0000_0000);
      sessionList := sessionList[sid := Some(entry)];
      error := Ok;
    }

    method DeactivateConnection(sid: SessionId, cid: ConnectionId) returns (error: Errno)
      modifies this
      ensures (Value(), error) == Deactivated(old(Value()), sid, cid)
    {
      if sessionList[sid] == None {
        return EINVAL;
      }
      if sessionList[sid].value.connections[cid] == None {
        return EINVAL;
      }
      var session: Entry := sessionList[sid].value;
      session := session.(connections := session.connections[cid := Some(false)]);
      session := session.(numActive := (session.numActive - 1) % 0x1_0000_0000);
      sessionList := sessionList[sid := Some(session)];
      if session.numActive == 0 {
        scsiTargets := scsiTargets - {sid};
      }
      error := Ok;
    }

    method ReleaseConnection(sid: SessionId, cid: ConnectionId)
      modifies this
      ensures Value() == ConnectionReleased(old(Value()), sid, cid)
    {
      if sessionList[sid] == None {
        return;
      }
      if sessionList[sid].value.connections[cid] == None {
        return;
      }
      if sessionList[sid].value.connections[cid].value {
        var _ := DeactivateConnection(sid, cid);
      }
      var session: Entry := sessionList[sid].value;
      sessionList := sessionList[sid := Some(session.(connections := session.connections[cid := None]))];
    }

    /** The end of ReleaseSession: the search through the index stops at the first name found. */
    method RemoveName(sid: SessionId)
      requires forall a, b :: a in targetList && b in targetList && targetList[a] == targetList[b] ==> a == b
      modifies this`targetList
      ensures targetList == map name | name in old(targetList) && old(targetList)[name] != sid :: old(targetList)[name]
    {
      var names := targetList.Keys;
      while names != {}
        invariant names <= targetList.Keys && targetList == old(targetList)
        invariant forall name :: name in targetList && name !in names ==> targetList[name] != sid
        decreases |names|
      {
        var name :| name in names;
        names := names - {name};
        if targetList[name] == sid {
          targetList := targetList - {name};
          return;
        }
      }
    }

    method ReleaseSession(sid: SessionId)
      requires Indexed(Value())
      modifies this
      ensures Value() == SessionReleased(old(Value()), sid)
    {
      if sessionList[sid] == None {
        return;
      }
      for cid := 0 to MAX_CONNECTIONS
        invariant Value() == ConnectionsReleased(old(Value()), sid, cid)
      {
        if sessionList[sid].value.connections[cid] != None {
          ReleaseConnection(sid, cid);
        }
      }
      hide ConnectionsReleased;
      sessionList := sessionList[sid := None];
      RemoveName(sid);
    }

    method ReleaseAllSessions()
      requires Indexed(Value())
      modifies this
      ensures Value() == SessionsReleased(old(Value()), MAX_SESSIONS)
    {
      for sid := 0 to MAX_SESSIONS
        invariant Indexed(Value())
        invariant Value() == SessionsReleased(old(Value()), sid)
      {
        ReleaseSessionKeepsIndex(Value(), sid);
        if sessionList[sid] != None {
          ReleaseSession(sid);
        }
      }
    }

    /** GetSessionIdForTargetIQN */
    method GetSessionIdForTargetIQN(name: string) returns (r: Option<nat>)
      ensures r == if name in targetList then Some(targetList[name]) else None
    {
      if name in targetList {
        return Some(targetList[name]);
      }
      return None;
    }

    /** GetTargetIQNForSessionId: searches the index for a name of a live session, and copies as much of
        it as the caller's buffer holds. */
    method GetTargetIQNForSessionId(sid: SessionId, bufferSize: nat) returns (r: Option<string>)
      ensures IsNameOf(Value(), sid, bufferSize, r)
    {
      r := None;
      if sessionList[sid] != None {
        var names := targetList.Keys;
        while names != {}
          invariant names <= targetList.Keys
          invariant forall name :: name in targetList && name !in names ==> targetList[name] != sid
          decreases |names|
        {
          var name :| name in names;
          names := names - {name};
          if targetList[name] == sid {
            return Some(Cut(name, bufferSize));
          }
        }
      }
    }
  }
}
