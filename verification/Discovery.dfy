/** iSCSIDiscovery.c: reconciling the configured targets with what a discovery portal reported. */
module Discovery {
  import opened Preferences
  import opened Hba
  import opened Wrappers

  /** A target of a discovery record, with its portal groups in the order of enumeration. */
  datatype Found = Found(iqn: string, groups: seq<seq<Portal>>)

  function Flatten(groups: seq<seq<Portal>>): seq<Portal> {
    if groups == [] then [] else groups[0] + Flatten(groups[1..])
  }

  /** A record is a dictionary: no name occurs twice. */
  ghost predicate Distinct(rec: seq<Found>) {
    forall i, j :: 0 <= i < j < |rec| ==> rec[i].iqn != rec[j].iqn
  }

  function Names(rec: seq<Found>): set<string> {
    set i | 0 <= i < |rec| :: rec[i].iqn
  }

  // ----- the update as functions -----

  /** iSCSIDiscoveryAddTargetForSendTargets, over the portals of all groups. */
  function Merge(p: Prefs, iqn: string, portals: seq<Portal>, manager: string): (r: Prefs)
    requires manager in p.discovery
    ensures r.discovery.Keys == p.discovery.Keys
    decreases |portals|
  {
    if portals == [] then p
    else
      var q := if iqn in p.targets then SetPortal(p, iqn, portals[0]) else AddDynamic(p, iqn, portals[0], manager);
      Merge(q, iqn, portals[1..], manager)
  }

  /** One target of the record: a target that is configured otherwise is left alone, except that a
      missing configuration type is repaired. */
  function Visit(p: Prefs, f: Found, manager: string): (r: Prefs)
    requires manager in p.discovery
    ensures r.discovery.Keys == p.discovery.Keys
  {
    var q := Repaired(p, f.iqn);
    if f.iqn in q.targets && q.targets[f.iqn].config != Some(SendTargets) then q
    else Merge(q, f.iqn, Flatten(f.groups), manager)
  }

  function VisitAll(p: Prefs, rec: seq<Found>, manager: string): (r: Prefs)
    requires manager in p.discovery
    ensures r.discovery.Keys == p.discovery.Keys
    decreases |rec|
  {
    if rec == [] then p else VisitAll(Visit(p, rec[0], manager), rec[1..], manager)
  }

  /** Removing the listed targets that the record does not name. */
  function Prune(p: Prefs, list: seq<string>, found: set<string>): (r: Prefs)
    ensures r.discovery == p.discovery
    decreases |list|
  {
    if list == [] then p
    else Prune(if list[0] in found then p else Without(p, list[0]), list[1..], found)
  }

  function Update(p: Prefs, manager: string, rec: seq<Found>): Prefs
    requires manager in p.discovery
  {
    var q := VisitAll(p, rec, manager);
    Prune(q, q.discovery[manager], Names(rec))
  }

  // ----- what one target goes through -----

  function Lookup(p: Prefs, iqn: string): Option<Target> {
    if iqn in p.targets then Some(p.targets[iqn]) else None
  }

  function AddPortals(m: Portals, ps: seq<Portal>): Portals
    decreases |ps|
  {
    if ps == [] then m else AddPortals(m[ps[0].address := ps[0]], ps[1..])
  }

  function WithPortals(t: Target, ps: seq<Portal>): Target {
    if t.portals.Some? then t.(portals := Some(AddPortals(t.portals.value, ps))) else t
  }

  /** What becomes of a target that the record reports with portals ps. */
  function After(t: Option<Target>, ps: seq<Portal>, manager: string): Option<Target> {
    match t
    case None =>
      if ps == [] then None else Some(Target(Some(SendTargets), Some(manager), Some(AddPortals(map[], ps))))
    case Some(t) =>
      if t.config == None then Some(t.(config := Some(Static)))
      else if t.config == Some(SendTargets) then Some(WithPortals(t, ps))
      else Some(t)
  }

  /** The list of the portal after the visit. */
  function ListAfter(p: Prefs, f: Found, manager: string): seq<string>
    requires manager in p.discovery
  {
    if f.iqn in p.targets || Flatten(f.groups) == [] then p.discovery[manager] else Listed(p.discovery[manager], f.iqn)
  }

  lemma {:induction false} MergeExisting(p: Prefs, iqn: string, ps: seq<Portal>, manager: string)
    requires manager in p.discovery && iqn in p.targets
    ensures Merge(p, iqn, ps, manager) == p.(targets := p.targets[iqn := WithPortals(p.targets[iqn], ps)])
    decreases |ps|
  {
    if ps == [] {
      assert p.targets[iqn := p.targets[iqn]] == p.targets;
    } else {
      var q := SetPortal(p, iqn, ps[0]);
      assert p.targets[iqn := p.targets[iqn]] == p.targets;
      MergeExisting(q, iqn, ps[1..], manager);
      var last := WithPortals(p.targets[iqn], ps);
      assert q.targets[iqn := WithPortals(q.targets[iqn], ps[1..])] == p.targets[iqn := last];
    }
  }

  lemma FirstPortal(ps: seq<Portal>)
    requires ps != []
    ensures AddPortals(map[], ps) == AddPortals(map[ps[0].address := ps[0]], ps[1..])
  {
    assert map[][ps[0].address := ps[0]] == map[ps[0].address := ps[0]];
  }

  /** A visit changes nothing but the target visited and the list of the portal. */
  lemma VisitEffect(p: Prefs, f: Found, manager: string)
    requires manager in p.discovery
    ensures
      var r := Visit(p, f, manager);
      var t := After(Lookup(p, f.iqn), Flatten(f.groups), manager);
      r.targets == (if t.Some? then p.targets[f.iqn := t.value] else p.targets) &&
      r.discovery == p.discovery[manager := ListAfter(p, f, manager)]
  {
    hide Flatten, AddPortals;
    var ps := Flatten(f.groups);
    assert p.discovery[manager := p.discovery[manager]] == p.discovery;
    if f.iqn in p.targets {
      assert p.targets[f.iqn := p.targets[f.iqn]] == p.targets;
      if p.targets[f.iqn].config == Some(SendTargets) {
        MergeExisting(p, f.iqn, ps, manager);
      }
    } else if ps != [] {
      var q := AddDynamic(p, f.iqn, ps[0], manager);
      MergeExisting(q, f.iqn, ps[1..], manager);
      FirstPortal(ps);
      var t := Target(Some(SendTargets), Some(manager), Some(AddPortals(map[], ps)));
      assert WithPortals(q.targets[f.iqn], ps[1..]) == t;
      assert q.targets[f.iqn := t] == p.targets[f.iqn := t];
    }
  }

  // ----- the first phase -----

  lemma {:induction false} VisitAllSkips(p: Prefs, rec: seq<Found>, manager: string, iqn: string)
    requires manager in p.discovery && iqn !in Names(rec)
    ensures Lookup(VisitAll(p, rec, manager), iqn) == Lookup(p, iqn)
    ensures iqn in VisitAll(p, rec, manager).discovery[manager] <==> iqn in p.discovery[manager]
    decreases |rec|
  {
    if rec != [] {
      assert rec[0].iqn in Names(rec);
      VisitEffect(p, rec[0], manager);
      NamesTail(rec);
      VisitAllSkips(Visit(p, rec[0], manager), rec[1..], manager, iqn);
    }
  }

  lemma NamesTail(rec: seq<Found>)
    requires rec != []
    ensures Names(rec) == {rec[0].iqn} + Names(rec[1..])
    ensures Distinct(rec) ==> Distinct(rec[1..]) && rec[0].iqn !in Names(rec[1..])
  {
    forall x | x in Names(rec)
      ensures x in {rec[0].iqn} + Names(rec[1..])
    {
      var i :| 0 <= i < |rec| && rec[i].iqn == x;
      assert i > 0 ==> rec[1..][i - 1].iqn == x;
    }
    forall x | x in Names(rec[1..])
      ensures x in Names(rec) && (Distinct(rec) ==> x != rec[0].iqn)
    {
      var i :| 0 <= i < |rec[1..]| && rec[1..][i].iqn == x;
      assert rec[i + 1].iqn == x;
    }
  }

  /** Every reported target ends up as its own report says, whatever else the record holds. */
  lemma {:induction false} VisitAllEffect(p: Prefs, rec: seq<Found>, manager: string, k: nat)
    requires manager in p.discovery && Distinct(rec) && k < |rec|
    ensures
      Lookup(VisitAll(p, rec, manager), rec[k].iqn) ==
      After(Lookup(p, rec[k].iqn), Flatten(rec[k].groups), manager)
    decreases |rec|
  {
    hide Visit, After;
    var f, q := rec[0], Visit(p, rec[0], manager);
    VisitEffect(p, f, manager);
    NamesTail(rec);
    if k == 0 {
      VisitAllSkips(q, rec[1..], manager, f.iqn);
      AfterNone(Lookup(p, f.iqn), Flatten(f.groups), manager);
    } else {
      VisitAllEffect(q, rec[1..], manager, k - 1);
    }
  }

  lemma AfterNone(t: Option<Target>, ps: seq<Portal>, manager: string)
    ensures After(t, ps, manager) == None <==> t == None && ps == []
  {}

  /** The first phase only appends to the list, and only names of the record that it has configured. */
  lemma {:induction false} VisitAllList(p: Prefs, rec: seq<Found>, manager: string)
    requires manager in p.discovery
    ensures
      var r := VisitAll(p, rec, manager);
      p.discovery[manager] <= r.discovery[manager] &&
      r.discovery == p.discovery[manager := r.discovery[manager]]
    decreases |rec|
  {
    if rec == [] {
      assert p.discovery[manager := p.discovery[manager]] == p.discovery;
    } else {
      hide Visit;
      var q := Visit(p, rec[0], manager);
      VisitEffect(p, rec[0], manager);
      VisitAllList(q, rec[1..], manager);
    }
  }

  // ----- the second phase -----

  lemma {:induction false} PruneEffect(p: Prefs, list: seq<string>, found: set<string>)
    ensures Prune(p, list, found).targets == p.targets - ((set x | x in list) - found)
    decreases |list|
  {
    if list == [] {
      assert p.targets - ((set x | x in list) - found) == p.targets;
    } else {
      var q := if list[0] in found then p else Without(p, list[0]);
      PruneEffect(q, list[1..], found);
      assert (set x | x in list) == {list[0]} + (set x | x in list[1..]);
      assert q.targets - ((set x | x in list[1..]) - found) == p.targets - ((set x | x in list) - found);
    }
  }

  // ----- the whole update -----

  /** What an update does to every target: one that the record names is treated as reported; one that
      only the portal's list names is removed; any other is unchanged. */
  lemma UpdateEffect(p: Prefs, manager: string, rec: seq<Found>, iqn: string)
    requires manager in p.discovery && Distinct(rec)
    ensures forall k :: 0 <= k < |rec| && rec[k].iqn == iqn ==>
      Lookup(Update(p, manager, rec), iqn) == After(Lookup(p, iqn), Flatten(rec[k].groups), manager)
    ensures iqn !in Names(rec) ==>
      Lookup(Update(p, manager, rec), iqn) == if iqn in p.discovery[manager] then None else Lookup(p, iqn)
  {
    hide VisitAll, Prune, After;
    var q := VisitAll(p, rec, manager);
    PruneEffect(q, q.discovery[manager], Names(rec));
    if iqn in Names(rec) {
      forall k | 0 <= k < |rec| && rec[k].iqn == iqn
        ensures Lookup(Update(p, manager, rec), iqn) == After(Lookup(p, iqn), Flatten(rec[k].groups), manager)
      {
        VisitAllEffect(p, rec, manager, k);
      }
    } else {
      VisitAllSkips(p, rec, manager, iqn);
    }
  }

  /** After an update, every configured target in the portal's list is in the record; every target of
      the record with at least one portal is configured; statically configured targets of the record,
      and targets in neither the record nor the list, are unchanged. */
  lemma UpdateConverges(p: Prefs, manager: string, rec: seq<Found>)
    requires manager in p.discovery && Distinct(rec)
    ensures manager in Update(p, manager, rec).discovery
    ensures
      var r := Update(p, manager, rec);
      forall iqn :: iqn in r.targets && iqn in r.discovery[manager] ==> iqn in Names(rec)
    ensures forall k :: 0 <= k < |rec| && Flatten(rec[k].groups) != [] ==> rec[k].iqn in Update(p, manager, rec).targets
    ensures forall iqn :: iqn in p.targets && iqn in Names(rec) && p.targets[iqn].config == Some(Static) ==>
      Lookup(Update(p, manager, rec), iqn) == Lookup(p, iqn)
    ensures forall iqn :: iqn !in Names(rec) && iqn !in p.discovery[manager] ==>
      Lookup(Update(p, manager, rec), iqn) == Lookup(p, iqn)
  {
    hide VisitAll, Prune, Flatten;
    var q := VisitAll(p, rec, manager);
    var r := Update(p, manager, rec);
    forall iqn | iqn in r.targets && iqn in r.discovery[manager]
      ensures iqn in Names(rec)
    {
      UpdateEffect(p, manager, rec, iqn);
      if iqn !in Names(rec) {
        VisitAllSkips(p, rec, manager, iqn);
      }
    }
    forall k | 0 <= k < |rec| && Flatten(rec[k].groups) != []
      ensures rec[k].iqn in r.targets
    {
      UpdateEffect(p, manager, rec, rec[k].iqn);
    }
    forall iqn | iqn in p.targets && iqn in Names(rec) && p.targets[iqn].config == Some(Static)
      ensures Lookup(r, iqn) == Lookup(p, iqn)
    {
      UpdateEffect(p, manager, rec, iqn);
    }
    forall iqn | iqn !in Names(rec) && iqn !in p.discovery[manager]
      ensures Lookup(r, iqn) == Lookup(p, iqn)
    {
      UpdateEffect(p, manager, rec, iqn);
    }
  }

  /** A configured target is removed exactly when the list names it and the record does not, whatever
      its own configuration type and managing portal are. */
  lemma UpdateRemovesIff(p: Prefs, manager: string, rec: seq<Found>, iqn: string)
    requires manager in p.discovery && Distinct(rec) && iqn in p.targets
    ensures iqn !in Update(p, manager, rec).targets <==> iqn in p.discovery[manager] && iqn !in Names(rec)
  {
    hide Update, Flatten;
    UpdateEffect(p, manager, rec, iqn);
    if iqn in Names(rec) {
      var k :| 0 <= k < |rec| && rec[k].iqn == iqn;
      AfterNone(Lookup(p, iqn), Flatten(rec[k].groups), manager);
    }
  }

  /** A target left behind in a portal's list by its removal, and configured statically since then, is
      removed by the portal's next update. */
  lemma StaleListingRemovesStatic(portal: Portal)
    ensures
      var es := [AddsDiscoveryPortal("p"), AddsDynamic("t", portal, "p"), RemovesTarget("t"), AddsStatic("t", portal)];
      AllAllowed(EMPTY, es) &&
      var p := ApplyAll(EMPTY, es);
      "p" in p.discovery && "t" in p.targets && p.targets["t"].config == Some(Static) &&
      "t" !in Update(p, "p", []).targets
  {
    hide Update;
    var p0 := Apply(EMPTY, AddsDiscoveryPortal("p"));
    var p1 := Apply(p0, AddsDynamic("t", portal, "p"));
    var p2 := Apply(p1, RemovesTarget("t"));
    var p3 := Apply(p2, AddsStatic("t", portal));
    var es := [AddsDiscoveryPortal("p"), AddsDynamic("t", portal, "p"), RemovesTarget("t"), AddsStatic("t", portal)];
    var es1 := es[1..];
    var es2 := es1[1..];
    var es3 := es2[1..];
    assert es3 == [AddsStatic("t", portal)] && es3[1..] == [];
    assert AllAllowed(p3, es3[1..]) && ApplyAll(p3, es3[1..]) == p3;
    assert AllAllowed(p2, es3) && ApplyAll(p2, es3) == p3;
    assert AllAllowed(p1, es2) && ApplyAll(p1, es2) == p3;
    assert AllAllowed(p0, es1) && ApplyAll(p0, es1) == p3;
    assert p3.discovery["p"] == ["t"];
    UpdateRemovesIff(p3, "p", [], "t");
  }

  // ----- a second update changes nothing -----

  /** The last portal of ps with address a. */
  function Last(ps: seq<Portal>, a: string): Option<Portal> {
    if ps == [] then None
    else
      var l := Last(ps[1..], a);
      if l.Some? then l else if ps[0].address == a then Some(ps[0]) else None
  }

  lemma {:induction false} AddPortalsAt(m: Portals, ps: seq<Portal>, a: string)
    ensures a in AddPortals(m, ps) <==> a in m || Last(ps, a).Some?
    ensures Last(ps, a).Some? ==> AddPortals(m, ps)[a] == Last(ps, a).value
    ensures Last(ps, a).None? && a in m ==> AddPortals(m, ps)[a] == m[a]
    decreases |ps|
  {
    if ps != [] {
      AddPortalsAt(m[ps[0].address := ps[0]], ps[1..], a);
    }
  }

  lemma AddPortalsTwice(m: Portals, ps: seq<Portal>)
    ensures AddPortals(AddPortals(m, ps), ps) == AddPortals(m, ps)
  {
    hide AddPortals;
    var once := AddPortals(m, ps);
    var twice := AddPortals(once, ps);
    forall a
      ensures a in twice <==> a in once
      ensures a in twice ==> twice[a] == once[a]
    {
      AddPortalsAt(m, ps, a);
      AddPortalsAt(once, ps, a);
    }
  }

  lemma AfterTwice(t: Option<Target>, ps: seq<Portal>, manager: string)
    ensures After(After(t, ps, manager), ps, manager) == After(t, ps, manager)
  {
    hide AddPortals;
    AddPortalsTwice(map[], ps);
    if t.Some? && t.value.portals.Some? {
      AddPortalsTwice(t.value.portals.value, ps);
    }
  }

  lemma VisitStable(r: Prefs, f: Found, manager: string)
    requires manager in r.discovery
    requires After(Lookup(r, f.iqn), Flatten(f.groups), manager) == Lookup(r, f.iqn)
    ensures Visit(r, f, manager) == r
  {
    hide After, Visit;
    VisitEffect(r, f, manager);
    AfterNone(Lookup(r, f.iqn), Flatten(f.groups), manager);
    assert f.iqn in r.targets ==> r.targets[f.iqn := r.targets[f.iqn]] == r.targets;
    assert r.discovery[manager := r.discovery[manager]] == r.discovery;
  }

  lemma {:induction false} VisitAllStable(r: Prefs, rec: seq<Found>, manager: string)
    requires manager in r.discovery
    requires forall k :: 0 <= k < |rec| ==> Visit(r, rec[k], manager) == r
    ensures VisitAll(r, rec, manager) == r
    decreases |rec|
  {
    hide Visit;
    if rec != [] {
      assert Visit(r, rec[0], manager) == r;
      forall k | 0 <= k < |rec[1..]|
        ensures Visit(r, rec[1..][k], manager) == r
      {
        assert rec[1..][k] == rec[k + 1];
      }
      VisitAllStable(r, rec[1..], manager);
    }
  }

  /** A second update with the same record changes nothing. */
  lemma UpdateIdempotent(p: Prefs, manager: string, rec: seq<Found>)
    requires manager in p.discovery && Distinct(rec)
    ensures manager in Update(p, manager, rec).discovery
    ensures Update(Update(p, manager, rec), manager, rec) == Update(p, manager, rec)
  {
    hide VisitAll, Prune, After, Visit;
    var r := Update(p, manager, rec);
    UpdateConverges(p, manager, rec);
    forall k | 0 <= k < |rec|
      ensures Visit(r, rec[k], manager) == r
    {
      UpdateEffect(p, manager, rec, rec[k].iqn);
      AfterTwice(Lookup(p, rec[k].iqn), Flatten(rec[k].groups), manager);
      VisitStable(r, rec[k], manager);
    }
    VisitAllStable(r, rec, manager);
    PruneEffect(r, r.discovery[manager], Names(rec));
    assert Prune(r, r.discovery[manager], Names(rec)).targets == r.targets;
  }

  // ----- what is reported is configured -----

  /** Portal i of a report is the last one with its address. */
  ghost predicate IsLast(ps: seq<Portal>, i: nat) {
    i < |ps| && forall j :: i < j < |ps| ==> ps[j].address != ps[i].address
  }

  lemma {:induction false} LastIs(ps: seq<Portal>, i: nat)
    requires IsLast(ps, i)
    ensures Last(ps, ps[i].address) == Some(ps[i])
    decreases |ps|
  {
    if i > 0 {
      assert forall j :: i - 1 < j < |ps[1..]| ==> ps[1..][j] == ps[j + 1];
      LastIs(ps[1..], i - 1);
    } else {
      assert forall j :: 0 <= j < |ps[1..]| ==> ps[1..][j] == ps[j + 1];
      LastIsNone(ps[1..], ps[0].address);
    }
  }

  lemma {:induction false} LastIsNone(ps: seq<Portal>, a: string)
    requires forall i :: 0 <= i < |ps| ==> ps[i].address != a
    ensures Last(ps, a) == None
    decreases |ps|
  {
    if ps != [] {
      assert forall i :: 0 <= i < |ps[1..]| ==> ps[1..][i] == ps[i + 1];
      assert ps[0].address != a;
      LastIsNone(ps[1..], a);
    }
  }

  /** A reported target that is new, or dynamic with a portal dictionary, is dynamic afterwards, belongs
      to the portal that reported it if it is new, and has of the portals with one address the last one
      reported; portals that the report does not mention stay. */
  lemma UpdateReports(p: Prefs, manager: string, rec: seq<Found>, k: nat, i: nat, a: string)
    requires manager in p.discovery && Distinct(rec) && k < |rec|
    requires
      var iqn := rec[k].iqn;
      iqn in p.targets ==> p.targets[iqn].config == Some(SendTargets) && p.targets[iqn].portals.Some?
    requires IsLast(Flatten(rec[k].groups), i)
    ensures
      var iqn, ps := rec[k].iqn, Flatten(rec[k].groups);
      var r := Update(p, manager, rec);
      iqn in r.targets &&
      var t := r.targets[iqn];
      t.config == Some(SendTargets) && t.portals.Some? &&
      t.manager == (if iqn in p.targets then p.targets[iqn].manager else Some(manager)) &&
      ps[i].address in t.portals.value && t.portals.value[ps[i].address] == ps[i] &&
      ((forall j :: 0 <= j < |ps| ==> ps[j].address != a) ==>
        (a in t.portals.value <==> iqn in p.targets && a in p.targets[iqn].portals.value) &&
        (a in t.portals.value ==> t.portals.value[a] == p.targets[iqn].portals.value[a]))
  {
    hide Update, Flatten, AddPortals, Last;
    var iqn, ps := rec[k].iqn, Flatten(rec[k].groups);
    var before := if iqn in p.targets then p.targets[iqn].portals.value else map[];
    UpdateEffect(p, manager, rec, iqn);
    LastIs(ps, i);
    AddPortalsAt(before, ps, ps[i].address);
    AddPortalsAt(before, ps, a);
    if forall j :: 0 <= j < |ps| ==> ps[j].address != a {
      LastIsNone(ps, a);
    }
  }

  /** The portal's list afterwards names what it named, and the reported targets that are new. */
  lemma UpdateLists(p: Prefs, manager: string, rec: seq<Found>, iqn: string)
    requires manager in p.discovery && Distinct(rec)
    ensures
      var r := Update(p, manager, rec);
      r.discovery - {manager} == p.discovery - {manager} && manager in r.discovery &&
      (iqn in r.discovery[manager] <==>
        iqn in p.discovery[manager] ||
        exists k :: 0 <= k < |rec| && rec[k].iqn == iqn && iqn !in p.targets && Flatten(rec[k].groups) != [])
  {
    hide VisitAll, Prune, Flatten;
    VisitAllList(p, rec, manager);
    if iqn in Names(rec) {
      var k :| 0 <= k < |rec| && rec[k].iqn == iqn;
      VisitAllLists(p, rec, manager, k);
    } else {
      VisitAllSkips(p, rec, manager, iqn);
    }
  }

  lemma {:induction false} VisitAllLists(p: Prefs, rec: seq<Found>, manager: string, k: nat)
    requires manager in p.discovery && Distinct(rec) && k < |rec|
    ensures
      var iqn := rec[k].iqn;
      iqn in VisitAll(p, rec, manager).discovery[manager] <==>
      iqn in p.discovery[manager] || (iqn !in p.targets && Flatten(rec[k].groups) != [])
    decreases |rec|
  {
    hide Visit, After, Flatten;
    var f, q := rec[0], Visit(p, rec[0], manager);
    VisitEffect(p, f, manager);
    NamesTail(rec);
    if k == 0 {
      VisitAllSkips(q, rec[1..], manager, f.iqn);
    } else {
      VisitAllLists(q, rec[1..], manager, k - 1);
    }
  }

  // ----- updates orphan nothing -----

  lemma {:induction false} MergeKeepsNoOrphans(p: Prefs, iqn: string, ps: seq<Portal>, manager: string)
    requires NoOrphans(p) && manager in p.discovery
    ensures NoOrphans(Merge(p, iqn, ps, manager))
    decreases |ps|
  {
    hide NoOrphans;
    if ps != [] {
      if iqn in p.targets {
        ApplyKeepsNoOrphans(p, SetsPortal(iqn, ps[0]));
        MergeKeepsNoOrphans(SetPortal(p, iqn, ps[0]), iqn, ps[1..], manager);
      } else {
        ApplyKeepsNoOrphans(p, AddsDynamic(iqn, ps[0], manager));
        MergeKeepsNoOrphans(AddDynamic(p, iqn, ps[0], manager), iqn, ps[1..], manager);
      }
    }
  }

  lemma {:induction false} VisitAllKeepsNoOrphans(p: Prefs, rec: seq<Found>, manager: string)
    requires NoOrphans(p) && manager in p.discovery
    ensures NoOrphans(VisitAll(p, rec, manager))
    decreases |rec|
  {
    hide NoOrphans, Merge;
    if rec != [] {
      RepairKeepsNoOrphans(p, rec[0].iqn);
      MergeKeepsNoOrphans(Repaired(p, rec[0].iqn), rec[0].iqn, Flatten(rec[0].groups), manager);
      VisitAllKeepsNoOrphans(Visit(p, rec[0], manager), rec[1..], manager);
    }
  }

  lemma RepairKeepsNoOrphans(p: Prefs, iqn: string)
    requires NoOrphans(p)
    ensures NoOrphans(Repaired(p, iqn))
  {}

  lemma {:induction false} PruneKeepsNoOrphans(p: Prefs, list: seq<string>, found: set<string>)
    requires NoOrphans(p)
    ensures NoOrphans(Prune(p, list, found))
    decreases |list|
  {
    hide NoOrphans;
    if list != [] {
      ApplyKeepsNoOrphans(p, RemovesTarget(list[0]));
      PruneKeepsNoOrphans(if list[0] in found then p else Without(p, list[0]), list[1..], found);
    }
  }

  lemma UpdateKeepsNoOrphans(p: Prefs, manager: string, rec: seq<Found>)
    requires NoOrphans(p) && manager in p.discovery
    ensures NoOrphans(Update(p, manager, rec))
  {
    hide NoOrphans, VisitAll, Prune;
    VisitAllKeepsNoOrphans(p, rec, manager);
    var q := VisitAll(p, rec, manager);
    PruneKeepsNoOrphans(q, q.discovery[manager], Names(rec));
  }

  /** What can happen to the preferences: an edit, or the result of a discovery. */
  datatype Change = Edited(edit: Edit) | Discovered(manager: string, rec: seq<Found>)

  predicate Possible(p: Prefs, c: Change) {
    match c
    case Edited(e) => Allowed(p, e)
    case Discovered(manager, _) => manager in p.discovery
  }

  function Changed(p: Prefs, c: Change): Prefs
    requires Possible(p, c)
  {
    match c
    case Edited(e) => Apply(p, e)
    case Discovered(manager, rec) => Update(p, manager, rec)
  }

  predicate AllPossible(p: Prefs, cs: seq<Change>)
    decreases |cs|
  {
    cs == [] || (Possible(p, cs[0]) && AllPossible(Changed(p, cs[0]), cs[1..]))
  }

  function AfterAll(p: Prefs, cs: seq<Change>): Prefs
    requires AllPossible(p, cs)
    decreases |cs|
  {
    if cs == [] then p else AfterAll(Changed(p, cs[0]), cs[1..])
  }

  /** No run of edits and discoveries orphans a dynamic target. */
  lemma {:induction false} NoRunOrphans(p: Prefs, cs: seq<Change>)
    requires NoOrphans(p) && AllPossible(p, cs)
    ensures NoOrphans(AfterAll(p, cs))
    decreases |cs|
  {
    hide NoOrphans, Apply, Update;
    if cs != [] {
      match cs[0] {
        case Edited(e) => ApplyKeepsNoOrphans(p, e);
        case Discovered(manager, rec) => UpdateKeepsNoOrphans(p, manager, rec);
      }
      NoRunOrphans(Changed(p, cs[0]), cs[1..]);
    }
  }

  lemma ReachableByDiscoveryHasNoOrphans(cs: seq<Change>)
    requires AllPossible(EMPTY, cs)
    ensures NoOrphans(AfterAll(EMPTY, cs))
  {
    NoRunOrphans(EMPTY, cs);
  }

  // ----- the loops -----

  lemma {:induction false} MergeAppend(p: Prefs, iqn: string, a: seq<Portal>, b: seq<Portal>, manager: string)
    requires manager in p.discovery
    ensures Merge(p, iqn, a + b, manager) == Merge(Merge(p, iqn, a, manager), iqn, b, manager)
    decreases |a|
  {
    if a == [] {
      assert a + b == b;
    } else {
      assert (a + b)[1..] == a[1..] + b;
      var q := if iqn in p.targets then SetPortal(p, iqn, a[0]) else AddDynamic(p, iqn, a[0], manager);
      MergeAppend(q, iqn, a[1..], b, manager);
    }
  }

  lemma {:induction false} FlattenAppend(a: seq<seq<Portal>>, g: seq<Portal>)
    ensures Flatten(a + [g]) == Flatten(a) + g
    decreases |a|
  {
    if a == [] {
      assert a + [g] == [g] && [g][1..] == [];
      assert Flatten([g]) == g + Flatten([]);
    } else {
      assert (a + [g])[1..] == a[1..] + [g];
      FlattenAppend(a[1..], g);
    }
  }

  /** The inner loop of iSCSIDiscoveryAddTargetForSendTargets: the portals of one group. */
  method AddGroup(store: Store, iqn: string, portals: seq<Portal>, manager: string)
    requires manager in store.discovery
    modifies store
    ensures store.Value() == Merge(old(store.Value()), iqn, portals, manager)
  {
    for portalIdx := 0 to |portals|
      invariant manager in store.discovery
      invariant
        Merge(old(store.Value()), iqn, portals, manager) ==
        Merge(store.Value(), iqn, portals[portalIdx..], manager)
    {
      var portal := portals[portalIdx];
      if iqn in store.targets {
        store.SetPortalForTarget(iqn, portal);
      } else {
        store.AddDynamicTarget(iqn, portal, manager);
      }
    }
  }

  /** iSCSIDiscoveryAddTargetForSendTargets */
  method AddTargetForSendTargets(store: Store, iqn: string, groups: seq<seq<Portal>>, manager: string)
    requires manager in store.discovery
    modifies store
    ensures store.Value() == Merge(old(store.Value()), iqn, Flatten(groups), manager)
  {
    hide Merge;
    ghost var p := store.Value();
    MergeNothing(p, iqn, manager);
    for groupIdx := 0 to |groups|
      invariant manager in store.discovery
      invariant store.Value() == Merge(p, iqn, Flatten(groups[..groupIdx]), manager)
    {
      AddGroup(store, iqn, groups[groupIdx], manager);
      FlattenAppend(groups[..groupIdx], groups[groupIdx]);
      MergeAppend(p, iqn, Flatten(groups[..groupIdx]), groups[groupIdx], manager);
      assert groups[..groupIdx + 1] == groups[..groupIdx] + [groups[groupIdx]];
    }
    assert groups[..|groups|] == groups;
  }

  lemma MergeNothing(p: Prefs, iqn: string, manager: string)
    requires manager in p.discovery
    ensures Merge(p, iqn, [], manager) == p
  {}

  /** One pass of the first loop of the update. */
  method VisitTarget(store: Store, f: Found, manager: string)
    requires manager in store.discovery
    modifies store
    ensures store.Value() == Visit(old(store.Value()), f, manager)
  {
    hide Merge;
    if f.iqn in store.targets {
      var t := store.GetTargetConfigType(f.iqn);
      if t != Some(SendTargets) {
        return;
      }
    }
    AddTargetForSendTargets(store, f.iqn, f.groups, manager);
  }

  /** iSCSIDiscoveryUpdatePreferencesWithDiscoveredTargets, for a discovery portal that is configured;
      logging out of a removed target is not part of the model. */
  method UpdatePreferences(store: Store, manager: string, record: Option<seq<Found>>) returns (error: Errno)
    requires manager in store.discovery
    modifies store
    ensures error == if record == None then EINVAL else Ok
    ensures record == None ==> store.Value() == old(store.Value())
    ensures record.Some? ==> store.Value() == Update(old(store.Value()), manager, record.value)
  {
    hide Visit;
    if record == None {
      return EINVAL;
    }
    var rec := record.value;
    ghost var p := store.Value();
    var discTargets: set<string> := {};
    for targetIdx := 0 to |rec|
      invariant manager in store.discovery
      invariant VisitAll(p, rec, manager) == VisitAll(store.Value(), rec[targetIdx..], manager)
      invariant discTargets == set i | 0 <= i < targetIdx :: rec[i].iqn
    {
      VisitTarget(store, rec[targetIdx], manager);
      discTargets := discTargets + {rec[targetIdx].iqn};
    }
    ghost var q := store.Value();
    var existingTargets := store.discovery[manager];
    for targetIdx := 0 to |existingTargets|
      invariant
        Prune(q, existingTargets, discTargets) ==
        Prune(store.Value(), existingTargets[targetIdx..], discTargets)
    {
      var iqn := existingTargets[targetIdx];
      if iqn !in discTargets {
        store.RemoveTarget(iqn);
      }
    }
    error := Ok;
  }
}
