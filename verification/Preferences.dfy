/** iSCSIPreferences.c: configured targets and discovery portals, and the cross-index between a
    dynamic target's managing portal and that portal's list of targets. */
module Preferences {
  import opened Wrappers

  datatype Portal = Portal(address: string, port: string, hostInterface: string)

  /** The configuration type strings; Other is any string that is neither of the two known ones. */
  datatype ConfigType = Static | SendTargets | Other

  type Portals = map<string, Portal>

  /** The entries of a target's dictionary that this file keeps consistent; any of them may be absent. */
  datatype Target = Target(config: Option<ConfigType>, manager: Option<string>, portals: Option<Portals>)

  /** The targets by name, and for every discovery portal the list of targets found through it. */
  datatype Prefs = Prefs(targets: map<string, Target>, discovery: map<string, seq<string>>)

  const EMPTY: Prefs := Prefs(map[], map[])

  // ----- the operations as functions -----

  function Without(p: Prefs, iqn: string): Prefs {
    p.(targets := p.targets - {iqn})
  }

  /** iSCSIPreferencesSetPortalForTarget: does nothing for a target without a portal dictionary. */
  function SetPortal(p: Prefs, iqn: string, portal: Portal): Prefs {
    if iqn in p.targets && p.targets[iqn].portals.Some?
    then p.(targets := p.targets[iqn := WithPortal(p.targets[iqn], portal)])
    else p
  }

  function WithPortal(t: Target, portal: Portal): Target
    requires t.portals.Some?
  {
    t.(portals := Some(t.portals.value[portal.address := portal]))
  }

  function AddStatic(p: Prefs, iqn: string, portal: Portal): Prefs {
    if iqn in p.targets then p
    else p.(targets := p.targets[iqn := Target(Some(Static), None, Some(map[portal.address := portal]))])
  }

  function NewDynamic(portal: Portal, manager: string): Target {
    Target(Some(SendTargets), Some(manager), Some(map[portal.address := portal]))
  }

  function Listed(list: seq<string>, iqn: string): seq<string> {
    if iqn in list then list else list + [iqn]
  }

  /** iSCSIPreferencesAddDynamicTargetForSendTargets: an existing target is left as it is, but is still
      added to the portal's list. */
  function AddDynamic(p: Prefs, iqn: string, portal: Portal, manager: string): Prefs
    requires manager in p.discovery
  {
    Prefs(
      if iqn in p.targets then p.targets else p.targets[iqn := NewDynamic(portal, manager)],
      p.discovery[manager := Listed(p.discovery[manager], iqn)])
  }

  /** iSCSIPreferencesRemovePortalForTarget: with one portal left the target goes, whatever the
      address says. */
  function RemovePortal(p: Prefs, iqn: string, address: string): Prefs {
    if iqn !in p.targets || p.targets[iqn].portals.None? then p
    else if |p.targets[iqn].portals.value| == 1 then Without(p, iqn)
    else p.(targets := p.targets[iqn := p.targets[iqn].(portals := Some(p.targets[iqn].portals.value - {address}))])
  }

  /** iSCSIPreferencesGetTargetConfigType repairs a target without a type: it becomes static. */
  function Repaired(p: Prefs, iqn: string): Prefs {
    if iqn in p.targets && p.targets[iqn].config.None?
    then p.(targets := p.targets[iqn := p.targets[iqn].(config := Some(Static))])
    else p
  }

  /** iSCSIPreferencesSetTargetIQN: only static targets are renamed; the entry is stored under the new
      name first and removed under the old one afterwards. */
  function Rename(p: Prefs, iqn: string, newIQN: string): Prefs {
    var q := Repaired(p, iqn);
    if iqn !in q.targets || q.targets[iqn].config != Some(Static) then q
    else q.(targets := q.targets[newIQN := q.targets[iqn]] - {iqn})
  }

  function AddDiscoveryPortal(p: Prefs, address: string): Prefs {
    if address in p.discovery then p else p.(discovery := p.discovery[address := []])
  }

  function WithoutAll(p: Prefs, iqns: seq<string>): (r: Prefs)
    ensures r.discovery == p.discovery
    decreases |iqns|
  {
    if iqns == [] then p else WithoutAll(Without(p, iqns[0]), iqns[1..])
  }

  /** iSCSIPreferencesRemoveSendTargetsDiscoveryPortal: every listed target goes with the portal. */
  function RemoveDiscoveryPortal(p: Prefs, address: string): Prefs {
    if address !in p.discovery then p
    else
      var q := WithoutAll(p, p.discovery[address]);
      q.(discovery := q.discovery - {address})
  }

  // ----- no orphans -----

  ghost predicate NoDuplicates(list: seq<string>) {
    forall i, j :: 0 <= i < j < |list| ==> list[i] != list[j]
  }

  /** Every dynamic target has a managing portal that exists and lists it, and no list repeats a name. */
  ghost predicate NoOrphans(p: Prefs) {
    (forall iqn :: iqn in p.targets && p.targets[iqn].config == Some(SendTargets) ==> Managed(p, iqn)) &&
    (forall a :: a in p.discovery ==> NoDuplicates(p.discovery[a]))
  }

  ghost predicate Managed(p: Prefs, iqn: string)
    requires iqn in p.targets
  {
    var m := p.targets[iqn].manager;
    m.Some? && m.value in p.discovery && iqn in p.discovery[m.value]
  }

  lemma {:induction false} RemovedTargets(p: Prefs, iqns: seq<string>)
    ensures WithoutAll(p, iqns).targets == p.targets - (set x | x in iqns)
    decreases |iqns|
  {
    if iqns == [] {
      assert p.targets - (set x | x in iqns) == p.targets;
    } else {
      RemovedTargets(Without(p, iqns[0]), iqns[1..]);
      assert (set x | x in iqns) == {iqns[0]} + (set x | x in iqns[1..]);
    }
  }

  lemma RemoveDiscoveryPortalKeepsNoOrphans(p: Prefs, address: string)
    requires NoOrphans(p)
    ensures NoOrphans(RemoveDiscoveryPortal(p, address))
    ensures address in p.discovery ==>
      var r := RemoveDiscoveryPortal(p, address);
      forall iqn :: iqn in p.targets ==> (iqn in r.targets <==> iqn !in p.discovery[address])
  {
    if address in p.discovery {
      RemovedTargets(p, p.discovery[address]);
      var r := RemoveDiscoveryPortal(p, address);
      forall x | x in r.targets && r.targets[x].config == Some(SendTargets)
        ensures Managed(r, x)
      {
        assert Managed(p, x);
      }
    }
  }

  // ----- what the operations do -----

  /** All targets but one, and all lists, are as before. */
  ghost predicate OnlyTarget(p: Prefs, r: Prefs, iqn: string) {
    r.targets - {iqn} == p.targets - {iqn} && r.discovery == p.discovery
  }

  lemma RemoveTargetEffect(p: Prefs, iqn: string)
    ensures iqn !in Without(p, iqn).targets && OnlyTarget(p, Without(p, iqn), iqn)
  {}

  /** The portal takes the place of the one with its address; everything else about the target stays. */
  lemma SetPortalEffect(p: Prefs, iqn: string, portal: Portal)
    ensures
      var r := SetPortal(p, iqn, portal);
      OnlyTarget(p, r, iqn) && (iqn in r.targets <==> iqn in p.targets) &&
      (iqn in p.targets ==>
        var t, u := p.targets[iqn], r.targets[iqn];
        u.config == t.config && u.manager == t.manager && (u.portals.Some? <==> t.portals.Some?) &&
        (t.portals.Some? ==>
          var a := portal.address;
          a in u.portals.value && u.portals.value[a] == portal && u.portals.value - {a} == t.portals.value - {a}))
  {
    if iqn in p.targets && p.targets[iqn].portals.Some? {
      var m, a := p.targets[iqn].portals.value, portal.address;
      assert m[a := portal] - {a} == m - {a};
    }
  }

  lemma AddStaticEffect(p: Prefs, iqn: string, portal: Portal)
    ensures
      var r := AddStatic(p, iqn, portal);
      OnlyTarget(p, r, iqn) && iqn in r.targets &&
      (if iqn in p.targets then r.targets[iqn] == p.targets[iqn]
      else r.targets[iqn] == Target(Some(Static), None, Some(map[portal.address := portal])))
  {}

  /** A new target gets the portal and the manager, an existing one is left alone; in any case the manager
      lists it, behind what it listed before, and other lists are as before. */
  lemma AddDynamicEffect(p: Prefs, iqn: string, portal: Portal, manager: string)
    requires manager in p.discovery
    ensures
      var r := AddDynamic(p, iqn, portal, manager);
      r.targets - {iqn} == p.targets - {iqn} && iqn in r.targets &&
      (if iqn in p.targets then r.targets[iqn] == p.targets[iqn]
      else r.targets[iqn] == Target(Some(SendTargets), Some(manager), Some(map[portal.address := portal]))) &&
      manager in r.discovery && r.discovery - {manager} == p.discovery - {manager} &&
      iqn in r.discovery[manager] &&
      (iqn in p.discovery[manager] ==> r.discovery[manager] == p.discovery[manager]) &&
      (iqn !in p.discovery[manager] ==> r.discovery[manager] == p.discovery[manager] + [iqn])
  {}

  /** The last portal takes the target with it, whatever the address; otherwise the portal with the address
      goes, and no other. */
  lemma RemovePortalEffect(p: Prefs, iqn: string, address: string)
    ensures
      var r := RemovePortal(p, iqn, address);
      OnlyTarget(p, r, iqn) &&
      (iqn in p.targets && p.targets[iqn].portals.Some? ==>
        var m := p.targets[iqn].portals.value;
        (iqn in r.targets <==> |m| != 1) &&
        (|m| != 1 ==>
          var u := r.targets[iqn];
          u.config == p.targets[iqn].config && u.manager == p.targets[iqn].manager &&
          u.portals.Some? && address !in u.portals.value && u.portals.value == m - {address})) &&
      (iqn in p.targets && p.targets[iqn].portals.None? ==> r == p) && (iqn !in p.targets ==> r == p)
  {}

  /** Only a missing type is filled in. */
  lemma RepairEffect(p: Prefs, iqn: string)
    ensures
      var r := Repaired(p, iqn);
      OnlyTarget(p, r, iqn) && (iqn in r.targets <==> iqn in p.targets) &&
      (iqn in p.targets ==>
        r.targets[iqn].config == (if p.targets[iqn].config.None? then Some(Static) else p.targets[iqn].config) &&
        r.targets[iqn].manager == p.targets[iqn].manager && r.targets[iqn].portals == p.targets[iqn].portals)
  {}

  /** A target of another type than static keeps its name, its entry and its place in the lists. */
  lemma RenameLeavesOthers(p: Prefs, iqn: string, newIQN: string)
    requires iqn in p.targets ==> p.targets[iqn].config == Some(SendTargets) || p.targets[iqn].config == Some(Other)
    ensures Rename(p, iqn, newIQN) == p
  {}

  /** A new portal lists nothing yet, a known one keeps its list. */
  lemma AddDiscoveryPortalEffect(p: Prefs, address: string)
    ensures
      var r := AddDiscoveryPortal(p, address);
      r.targets == p.targets && r.discovery - {address} == p.discovery - {address} && address in r.discovery &&
      r.discovery[address] == if address in p.discovery then p.discovery[address] else []
  {}

  /** The portal goes, and with it exactly the targets that it lists; other portals keep their lists. */
  lemma RemoveDiscoveryPortalEffect(p: Prefs, address: string)
    ensures
      var r := RemoveDiscoveryPortal(p, address);
      r.discovery == p.discovery - {address} &&
      r.targets == if address in p.discovery then p.targets - (set x | x in p.discovery[address]) else p.targets
  {
    if address in p.discovery {
      RemovedTargets(p, p.discovery[address]);
    }
  }

  // ----- runs -----

  datatype Edit =
    | AddsStatic(iqn: string, portal: Portal)
    | AddsDynamic(iqn: string, portal: Portal, manager: string)
    | SetsPortal(iqn: string, portal: Portal)
    | RemovesTarget(iqn: string)
    | RemovesPortal(iqn: string, address: string)
    | Renames(iqn: string, newIQN: string)
    | AddsDiscoveryPortal(address: string)
    | RemovesDiscoveryPortal(address: string)

  /** A dynamic target can only be added through a discovery portal that exists: the driver looks up
      the portal's list without checking that there is one. */
  predicate Allowed(p: Prefs, e: Edit) {
    e.AddsDynamic? ==> e.manager in p.discovery
  }

  function Apply(p: Prefs, e: Edit): Prefs
    requires Allowed(p, e)
  {
    match e
    case AddsStatic(iqn, portal) => AddStatic(p, iqn, portal)
    case AddsDynamic(iqn, portal, manager) => AddDynamic(p, iqn, portal, manager)
    case SetsPortal(iqn, portal) => SetPortal(p, iqn, portal)
    case RemovesTarget(iqn) => Without(p, iqn)
    case RemovesPortal(iqn, address) => RemovePortal(p, iqn, address)
    case Renames(iqn, newIQN) => Rename(p, iqn, newIQN)
    case AddsDiscoveryPortal(address) => AddDiscoveryPortal(p, address)
    case RemovesDiscoveryPortal(address) => RemoveDiscoveryPortal(p, address)
  }

  predicate AllAllowed(p: Prefs, es: seq<Edit>)
    decreases |es|
  {
    es == [] || (Allowed(p, es[0]) && AllAllowed(Apply(p, es[0]), es[1..]))
  }

  function ApplyAll(p: Prefs, es: seq<Edit>): Prefs
    requires AllAllowed(p, es)
    decreases |es|
  {
    if es == [] then p else ApplyAll(Apply(p, es[0]), es[1..])
  }

  lemma ApplyKeepsNoOrphans(p: Prefs, e: Edit)
    requires NoOrphans(p) && Allowed(p, e)
    ensures NoOrphans(Apply(p, e))
  {
    match e
    case RemovesDiscoveryPortal(address) => RemoveDiscoveryPortalKeepsNoOrphans(p, address);
    case _ =>
  }

  lemma {:induction false} ApplyAllKeepsNoOrphans(p: Prefs, es: seq<Edit>)
    requires NoOrphans(p) && AllAllowed(p, es)
    ensures NoOrphans(ApplyAll(p, es))
    decreases |es|
  {
    hide NoOrphans, Apply;
    if es != [] {
      ApplyKeepsNoOrphans(p, es[0]);
      ApplyAllKeepsNoOrphans(Apply(p, es[0]), es[1..]);
    }
  }

  /** No reachable preferences orphan a dynamic target. */
  lemma ReachableHasNoOrphans(es: seq<Edit>)
    requires AllAllowed(EMPTY, es)
    ensures NoOrphans(ApplyAll(EMPTY, es))
  {
    ApplyAllKeepsNoOrphans(EMPTY, es);
  }

  /** Renaming a static target keeps its entry under the new name, exactly when the name is new: a
      rename to the same name deletes the target. */
  lemma RenameKeepsTargetIff(p: Prefs, iqn: string, newIQN: string)
    requires iqn in p.targets && p.targets[iqn].config == Some(Static)
    ensures newIQN in Rename(p, iqn, newIQN).targets <==> newIQN != iqn
    ensures newIQN != iqn ==> Rename(p, iqn, newIQN).targets == p.targets[newIQN := p.targets[iqn]] - {iqn}
  {}

  // ----- the preferences object -----

  class Store {
    var targets: map<string, Target>
    var discovery: map<string, seq<string>>

    ghost function Value(): Prefs
      reads this
    {
      Prefs(targets, discovery)
    }

    constructor ()
      ensures Value() == EMPTY
    {
      targets, discovery := map[], map[];
    }

    /** iSCSIPreferencesGetTargetConfigType: None stands for a missing target or an unknown string. */
    method GetTargetConfigType(iqn: string) returns (t: Option<ConfigType>)
      modifies this`targets
      ensures Value() == Repaired(old(Value()), iqn)
      ensures t == if iqn !in targets || targets[iqn].config == Some(Other) then None else targets[iqn].config
    {
      t := None;
      if iqn in targets {
        if targets[iqn].config == None {
          t := Some(Static);
          targets := targets[iqn := targets[iqn].(config := Some(Static))];
        } else if targets[iqn].config != Some(Other) {
          t := targets[iqn].config;
        }
      }
    }

    /** iSCSIPreferencesGetPortalsList with createIfMissing: the target and its portal dictionary come
        into being if needed. */
    method EnsurePortalsList(iqn: string)
      modifies this`targets
      ensures
        var t := if iqn in old(targets) then old(targets)[iqn] else Target(None, None, None);
        targets == old(targets)[iqn := if t.portals.Some? then t else t.(portals := Some(map[]))]
    {
      if iqn !in targets {
        targets := targets[iqn := Target(None, None, None)];
      }
      if targets[iqn].portals == None {
        targets := targets[iqn := targets[iqn].(portals := Some(map[]))];
      }
    }

    method SetPortalForTarget(iqn: string, portal: Portal)
      modifies this`targets
      ensures Value() == SetPortal(old(Value()), iqn, portal)
    {
      if iqn in targets && targets[iqn].portals.Some? {
        targets := targets[iqn := WithPortal(targets[iqn], portal)];
      }
    }

    method AddStaticTarget(iqn: string, portal: Portal)
      modifies this`targets
      ensures Value() == AddStatic(old(Value()), iqn, portal)
    {
      if iqn !in targets {
        EnsurePortalsList(iqn);
        targets := targets[iqn := WithPortal(targets[iqn], portal)];
        targets := targets[iqn := targets[iqn].(config := Some(Static))];
        assert targets == old(targets)[iqn := targets[iqn]];
      }
    }

    method AddDynamicTarget(iqn: string, portal: Portal, manager: string)
      requires manager in discovery
      modifies this
      ensures Value() == AddDynamic(old(Value()), iqn, portal, manager)
    {
      if iqn !in targets {
        targets := targets[iqn := Target(None, Some(manager), None)];
        EnsurePortalsList(iqn);
        targets := targets[iqn := WithPortal(targets[iqn], portal)];
        targets := targets[iqn := targets[iqn].(config := Some(SendTargets))];
        assert targets == old(targets)[iqn := targets[iqn]];
      }
      var targetList := discovery[manager];
      var idx := 0;
      while idx < |targetList| && targetList[idx] != iqn
        invariant idx <= |targetList| && iqn !in targetList[..idx]
      {
        idx := idx + 1;
      }
      if idx == |targetList| {
        assert targetList[..idx] == targetList;
        discovery := discovery[manager := targetList + [iqn]];
      } else {
        assert discovery[manager := targetList] == discovery;
      }
    }

    method RemoveTarget(iqn: string)
      modifies this`targets
      ensures Value() == Without(old(Value()), iqn)
    {
      targets := targets - {iqn};
    }

    method RemovePortalForTarget(iqn: string, address: string)
      modifies this`targets
      ensures Value() == RemovePortal(old(Value()), iqn, address)
    {
      if iqn in targets && targets[iqn].portals.Some? {
        var portals := targets[iqn].portals.value;
        if |portals| == 1 {
          RemoveTarget(iqn);
        } else {
          targets := targets[iqn := targets[iqn].(portals := Some(portals - {address}))];
        }
      }
    }

    method SetTargetIQN(iqn: string, newIQN: string)
      modifies this`targets
      ensures Value() == Rename(old(Value()), iqn, newIQN)
    {
      var t := GetTargetConfigType(iqn);
      if t != Some(Static) {
        return;
      }
      targets := targets[newIQN := targets[iqn]];
      targets := targets - {iqn};
    }

    method AddSendTargetsDiscoveryPortal(address: string)
      modifies this`discovery
      ensures Value() == AddDiscoveryPortal(old(Value()), address)
    {
      if address !in discovery {
        discovery := discovery[address := []];
      }
    }

    method RemoveSendTargetsDiscoveryPortal(address: string)
      modifies this
      ensures Value() == RemoveDiscoveryPortal(old(Value()), address)
    {
      if address !in discovery {
        return;
      }
      var targetsList := discovery[address];
      for idx := 0 to |targetsList|
        invariant discovery == old(discovery)
        invariant WithoutAll(old(Value()), targetsList) == WithoutAll(Value(), targetsList[idx..])
      {
        RemoveTarget(targetsList[idx]);
      }
      discovery := discovery - {address};
    }
  }
}
