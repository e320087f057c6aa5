/** The selected installation: the fallback policy, and how a saved choice outlives scans that cannot see it. */
module InstanceRegistry {
  import opened Bytes
  import opened Instances
  import opened Wrappers

  datatype Decision = Decision(selectedId: Id, changed: bool)

  /** The first instance with a property, searched in order. */
  function First(instances: seq<Instance>, p: Instance -> bool): (r: Option<Instance>)
    ensures r.Some? ==> exists k :: 0 <= k < |instances| && instances[k] == r.value && p(instances[k])
                                    && forall m :: 0 <= m < k ==> !p(instances[m])
    ensures r == None ==> forall k :: 0 <= k < |instances| ==> !p(instances[k])
  {
    if instances == [] then None
    else if p(instances[0]) then Some(instances[0])
    else
      var r := First(instances[1..], p);
      assert r.Some? ==> exists k :: 0 <= k < |instances[1..]| && instances[1..][k] == instances[k + 1] == r.value && p(r.value)
                                     && forall m :: 0 <= m < k ==> !p(instances[1..][m]);
      assert forall k :: 0 < k < |instances| ==> instances[k] == instances[1..][k - 1];
      r
  }

  function OfKind(instances: seq<Instance>, kind: Kind): Option<Instance> {
    First(instances, (i: Instance) => i.kind == kind)
  }

  /** `validateSelection`. */
  function ValidateSelection(instances: seq<Instance>, savedId: Id): (d: Decision)
    ensures !d.changed ==> d.selectedId == savedId
    ensures d.selectedId == [] || IsListed(instances, d.selectedId)
    ensures savedId != [] && IsListed(instances, savedId) ==> d == Decision(savedId, false)
  {
    if savedId != [] && First(instances, (i: Instance) => i.id == savedId).Some? then Decision(savedId, false)
    else if OfKind(instances, Native).Some? then Decision(OfKind(instances, Native).value.id, true)
    else if OfKind(instances, Flatpak).Some? then Decision(OfKind(instances, Flatpak).value.id, true)
    else if OfKind(instances, Snap).Some? then Decision(OfKind(instances, Snap).value.id, true)
    else Decision([], savedId != [])
  }

  predicate IsListed(instances: seq<Instance>, id: Id) {
    exists k :: 0 <= k < |instances| && instances[k].id == id
  }

  function Rank(kind: Kind): nat {
    match kind
    case Native => 0
    case Flatpak => 1
    case Snap => 2
  }

  /** The instance at `k` is the first one of the best kind there is. */
  ghost predicate IsFallback(instances: seq<Instance>, k: nat) {
    && k < |instances|
    && (forall m :: 0 <= m < |instances| ==> Rank(instances[k].kind) <= Rank(instances[m].kind))
    && (forall m :: 0 <= m < k ==> Rank(instances[k].kind) < Rank(instances[m].kind))
  }

  lemma FirstOfBestKind(instances: seq<Instance>, best: Kind)
    requires OfKind(instances, best).Some?
    requires forall kind :: Rank(kind) < Rank(best) ==> OfKind(instances, kind) == None
    ensures exists k: nat :: IsFallback(instances, k) && instances[k] == OfKind(instances, best).value
  {
    hide First;
    var k :| 0 <= k < |instances| && instances[k] == OfKind(instances, best).value && instances[k].kind == best
             && forall m :: 0 <= m < k ==> instances[m].kind != best;
    forall m | 0 <= m < |instances|
      ensures Rank(best) <= Rank(instances[m].kind)
      ensures m < k ==> Rank(best) < Rank(instances[m].kind)
    {
      assert OfKind(instances, instances[m].kind).Some?;
    }
    assert IsFallback(instances, k);
  }

  /**
    The fallback, whenever the saved id is not listed: the first among the instances of the best kind
    there is, reported as a change; with no instances nothing is selected, and that is a change only if
    something was saved.
   */
  lemma FallbackIsBest(instances: seq<Instance>, savedId: Id)
    requires savedId == [] || !IsListed(instances, savedId)
    ensures var d := ValidateSelection(instances, savedId);
            if instances == [] then d == Decision([], savedId != [])
            else d.changed && exists k: nat :: IsFallback(instances, k) && instances[k].id == d.selectedId
  {
    hide First;
    NothingIsFirst();
    if instances != [] {
      var kind := instances[0].kind;
      assert OfKind(instances, kind).Some?;
      var best := if OfKind(instances, Native).Some? then Native
                  else if OfKind(instances, Flatpak).Some? then Flatpak else Snap;
      assert OfKind(instances, best).Some?;
      FirstOfBestKind(instances, best);
      assert ValidateSelection(instances, savedId).selectedId == OfKind(instances, best).value.id;
    }
  }

  lemma NothingIsFirst()
    ensures forall p :: First([], p) == None
  {
  }

  // ---- Backends ----

  datatype Backend = FlatpakBackend | SnapBackend

  const FLATPAK_PREFIX: ByteString := Ascii("flatpak:")
  const SNAP_PREFIX: ByteString := Ascii("snap:")

  function BackendForStableId(id: Id): Option<Backend> {
    if FLATPAK_PREFIX <= id then Some(FlatpakBackend)
    else if SNAP_PREFIX <= id then Some(SnapBackend)
    else None
  }

  /** An id tells its backend by how it begins; other ids have none. */
  lemma BackendExactly(id: Id)
    ensures BackendForStableId(id) == Some(FlatpakBackend) <==> exists rest :: id == Ascii("flatpak:") + rest
    ensures BackendForStableId(id) == Some(SnapBackend) <==> exists rest :: id == Ascii("snap:") + rest
  {
    assert FLATPAK_PREFIX[0] != SNAP_PREFIX[0];
    assert FLATPAK_PREFIX <= id ==> id == FLATPAK_PREFIX + id[|FLATPAK_PREFIX|..];
    assert SNAP_PREFIX <= id ==> id == SNAP_PREFIX + id[|SNAP_PREFIX|..];
  }

  datatype Scan = Scan(instances: seq<Instance>, failedBackends: seq<Backend>)

  datatype Snapshot = Snapshot(instances: seq<Instance>, selectedId: Id, failedBackends: seq<Backend>)

  /** Whether the saved id belongs to a backend that the scan could not ask. */
  ghost predicate IsTemporarilyMissing(scan: Scan, savedId: Id) {
    || (FlatpakBackend in scan.failedBackends && exists rest :: savedId == Ascii("flatpak:") + rest)
    || (SnapBackend in scan.failedBackends && exists rest :: savedId == Ascii("snap:") + rest)
  }

  /** Whether a scan gives no reason to give up the saved id: it lists it, or could not ask its backend. */
  ghost predicate Spares(scan: Scan, savedId: Id) {
    || (savedId != [] && IsListed(scan.instances, savedId))
    || IsTemporarilyMissing(scan, savedId)
  }

  datatype RegistryCall = Rescan(scan: Scan) | Choose(id: Id)

  /** What is stored and selected, and whether both are known to be the same. */
  datatype State = State(savedId: Id, snapshot: Snapshot, isSynchronized: bool)

  /** The state is what a call may leave, whether or not the store takes what is written. */
  ghost predicate MayFollow(before: State, call: RegistryCall, after: State) {
    match call
    case Rescan(scan) =>
      && after.snapshot == Snapshot(scan.instances, ValidateSelection(scan.instances, before.savedId).selectedId, scan.failedBackends)
      && (Spares(scan, before.savedId) || !after.isSynchronized ==> after.savedId == before.savedId)
      && (after.isSynchronized ==> after.savedId == after.snapshot.selectedId)
      && (before.savedId != [] && IsListed(scan.instances, before.savedId) ==> after.isSynchronized)
    case Choose(id) =>
      || after == before
      || (id != [] && IsListed(before.snapshot.instances, id)
          && after == State(id, before.snapshot.(selectedId := id), true))
  }

  ghost predicate AreStates(states: seq<State>, calls: seq<RegistryCall>) {
    |states| == |calls| + 1 && forall k :: 0 <= k < |calls| ==> MayFollow(states[k], calls[k], states[k + 1])
  }

  /**
    In every run a saved choice survives any number of scans that list it or could not ask its backend,
    however the writes of fallbacks go, and the next scan that lists it selects it again.
   */
  lemma {:induction false} SavedChoiceSurvives(states: seq<State>, calls: seq<RegistryCall>, n: nat)
    requires AreStates(states, calls) && n <= |calls| && states[0].savedId != []
    requires forall k :: 0 <= k < n ==> calls[k].Rescan? && Spares(calls[k].scan, states[0].savedId)
    ensures states[n].savedId == states[0].savedId
    ensures n > 0 && IsListed(calls[n - 1].scan.instances, states[0].savedId) ==>
              states[n].isSynchronized && states[n].snapshot.selectedId == states[0].savedId
  {
    hide Spares, ValidateSelection;
    if n > 0 {
      SavedChoiceSurvives(states, calls, n - 1);
      assert MayFollow(states[n - 1], calls[n - 1], states[n]);
    }
  }

  class Registry {
    var storedId: Id                 // the persisted selection
    var snapshot: Snapshot
    var selectionSynchronized: bool  // whether the snapshot's selection is known to be the stored one
    ghost var attempts: seq<(Id, bool)>    // the writes asked of the store, and whether they succeeded

    ghost predicate Valid()
      reads this
    {
      && (selectionSynchronized ==> storedId == snapshot.selectedId)
      && (snapshot.selectedId == [] || IsListed(snapshot.instances, snapshot.selectedId))
    }

    constructor (storedId: Id)
      ensures Valid() && this.storedId == storedId && snapshot == Snapshot([], [], [])
    {
      this.storedId := storedId;
      snapshot, selectionSynchronized, attempts := Snapshot([], [], []), false, [];
    }

    ghost function Now(): State
      reads this
    {
      State(storedId, snapshot, selectionSynchronized)
    }

    /** The store takes a new id, or fails and keeps the old one. */
    method WriteSelectedId(id: Id) returns (ok: bool)
      modifies this`storedId, this`attempts
      ensures storedId == if ok then id else old(storedId)
      ensures attempts == old(attempts) + [(id, ok)]
    {
      ok := *;
      attempts := attempts + [(id, ok)];
      if ok {
        storedId := id;
      }
    }

    /** `rescanAndRepair`, given what the scan found. */
    method RescanAndRepair(scan: Scan)
      modifies this
      ensures Valid()
      ensures snapshot == Snapshot(scan.instances, ValidateSelection(scan.instances, old(storedId)).selectedId, scan.failedBackends)
      ensures storedId == old(storedId) || storedId == snapshot.selectedId
      ensures if !ValidateSelection(scan.instances, old(storedId)).changed
              then attempts == old(attempts) && selectionSynchronized
              else if IsTemporarilyMissing(scan, old(storedId))
              then attempts == old(attempts) && !selectionSynchronized
              else attempts == old(attempts) + [(snapshot.selectedId, selectionSynchronized)]
      ensures Spares(scan, old(storedId)) ==> storedId == old(storedId)
      ensures old(storedId) != [] && IsListed(scan.instances, old(storedId)) ==>
                snapshot.selectedId == old(storedId) && selectionSynchronized
      ensures MayFollow(old(Now()), Rescan(scan), Now())
    {
      var savedId := storedId;
      var selection := ValidateSelection(scan.instances, savedId);
      if !selection.changed {
        selectionSynchronized := true;
      } else {
        var failedSavedBackend := BackendForStableId(savedId);
        BackendExactly(savedId);
        var savedMayBeTemporarilyUnavailable := failedSavedBackend.Some? && failedSavedBackend.value in scan.failedBackends;
        selectionSynchronized := false;
        if !savedMayBeTemporarilyUnavailable {
          selectionSynchronized := WriteSelectedId(selection.selectedId);
        }
      }
      snapshot := Snapshot(scan.instances, selection.selectedId, scan.failedBackends);
    }

    /** `select`. */
    method Select(id: Id) returns (ok: bool)
      requires Valid()
      modifies this
      ensures Valid()
      ensures ok ==> id != [] && storedId == snapshot.selectedId == id && selectionSynchronized
      ensures !ok ==> storedId == old(storedId) && snapshot == old(snapshot) && selectionSynchronized == old(selectionSynchronized)
      ensures snapshot == old(snapshot).(selectedId := snapshot.selectedId)
      ensures ok ==> IsListed(snapshot.instances, id)
      ensures MayFollow(old(Now()), Choose(id), Now())
      ensures if id == [] || !IsListed(old(snapshot).instances, id) then !ok && attempts == old(attempts)
              else if old(snapshot).selectedId == id && old(selectionSynchronized) then ok && attempts == old(attempts)
              else attempts == old(attempts) + [(id, ok)]
    {
      if id == [] {
        return false;
      }
      var present := false;
      for k := 0 to |snapshot.instances|
        invariant !present
        invariant forall m :: 0 <= m < k ==> snapshot.instances[m].id != id
        invariant snapshot == old(snapshot) && storedId == old(storedId) && selectionSynchronized == old(selectionSynchronized)
        invariant attempts == old(attempts)
      {
        if snapshot.instances[k].id == id {
          present := true;
          break;
        }
      }
      if !present {
        return false;
      }
      if snapshot.selectedId == id && selectionSynchronized {
        return true;
      }
      var written := WriteSelectedId(id);
      if !written {
        return false;
      }
      snapshot := snapshot.(selectedId := id);
      selectionSynchronized := true;
      return true;
    }

    /** Any mix of scans and selections goes through states that may follow each other, and keeps the flag honest. */
    method RunMany(calls: seq<RegistryCall>) returns (ghost states: seq<State>)
      requires Valid()
      modifies this
      ensures Valid() && AreStates(states, calls)
      ensures states[0] == old(Now()) && states[|calls|] == Now()
    {
      hide MayFollow, IsListed;
      states := [Now()];
      for k := 0 to |calls|
        invariant Valid() && AreStates(states, calls[..k]) && states[0] == old(Now()) && states[k] == Now()
      {
        assert calls[..k + 1] == calls[..k] + [calls[k]];
        match calls[k] {
          case Rescan(scan) =>
            RescanAndRepair(scan);
          case Choose(id) =>
            var ok := Select(id);
        }
        states := states + [Now()];
      }
      assert calls[..|calls|] == calls;
    }
  }

  /** A choice that a scan neither lists nor spares gives way to a different one. */
  lemma UnsparedIsReplaced(scan: Scan, savedId: Id)
    requires !Spares(scan, savedId) && savedId != []
    ensures var d := ValidateSelection(scan.instances, savedId);
            d.changed && d.selectedId != savedId
  {
    FallbackIsBest(scan.instances, savedId);
  }
}
