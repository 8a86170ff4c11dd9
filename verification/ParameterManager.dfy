/** The manager that schedules, applies, rolls back and cancels parameter changes
    (rusty-governance/src/parameter_manager.rs). The parameter record the program passes by mutable
    reference is passed in and returned. */
module ParameterManager {
  import opened Wrappers
  import opened Sorting
  import opened Parameters

  type Pending = map<ProposalId, Change>

  ghost predicate Filed(pending: Pending) {
    forall id :: id in pending ==> pending[id].id == id
  }

  function ReadyIds(pending: Pending, height: nat): set<ProposalId> {
    set id | id in pending && pending[id].activation <= height
  }

  ghost function ReadyChanges(pending: Pending, height: nat): set<Change> {
    set id | id in pending && pending[id].activation <= height :: pending[id]
  }

  /** The index with more changes filed under a height. */
  function Filing(index: Index, height: nat, cs: seq<Change>): Index {
    if cs == [] then index else index[height := (if height in index then index[height] else []) + cs]
  }

  class Manager {
    var pending: Pending
    var history: seq<Change>
    var byHeight: Index

    ghost predicate Valid()
      reads this
    {
      Filed(pending)
    }

    constructor ()
      ensures Valid() && pending == map[] && history == [] && byHeight == map[]
    {
      pending, history, byHeight := map[], [], map[];
    }

    /** Refused exactly when some pending change targets the same parameter at the same height. */
    method ScheduleParameterChange(change: Change, activation: nat) returns (r: Result<bool>)
      requires Valid()
      modifies this`pending
      ensures Valid()
      ensures r.Ok? <==> forall id :: id in old(pending) && old(pending)[id].name == change.name ==>
        old(pending)[id].activation != activation
      ensures pending == if r.Ok? then old(pending)[change.id := change.(activation := activation)] else old(pending)
    {
      var order := Enumerate(pending.Keys);
      for i := 0 to |order|
        invariant forall k :: 0 <= k < i ==> order[k] in pending
        invariant forall k :: 0 <= k < i && pending[order[k]].name == change.name ==>
          pending[order[k]].activation != activation
      {
        assert order[i] in order;
        var other := pending[order[i]];
        if other.name == change.name && other.activation == activation { return Err("conflicting parameter change"); }
      }
      assert forall id :: id in pending ==> id in order;
      pending := pending[change.id := change.(activation := activation)];
      return Ok(true);
    }

    method CancelPendingChange(id: ProposalId) returns (r: Option<Change>)
      requires Valid()
      modifies this`pending
      ensures Valid()
      ensures pending == old(pending) - {id}
      ensures r == if id in old(pending) then Some(old(pending)[id]) else None
    {
      if id in pending {
        r := Some(pending[id]);
      } else {
        r := None;
      }
      pending := pending - {id};
    }

    /** apply_pending_changes: the changes that are due are applied in map order. It succeeds exactly
        when all of them can be applied; otherwise it stops at the first that cannot, keeping what it
        has done and dropping that change. */
    method ApplyPendingChanges(height: nat, params: Params) returns (ok: bool, after: Params, applied: seq<Change>)
      requires Valid()
      modifies this
      ensures Valid()
      ensures ok <==> forall c :: c in ReadyChanges(old(pending), height) ==> Applicable(c)
      ensures after == SetAll(params, applied)
      ensures history == old(history) + applied
      ensures byHeight == Filing(old(byHeight), height, applied)
      ensures ok ==> Lists(applied, ReadyChanges(old(pending), height))
      ensures ok ==> pending == old(pending) - ReadyIds(old(pending), height)
      ensures !ok ==> exists ids, id :: Stopped(old(pending), height, ids, id, applied, pending)
    {
      hide SetAll, Applicable;
      var before := pending;
      var ready := Enumerate(ReadyIds(pending, height));
      ok, after, applied := true, params, [];
      SetNone(params);
      assert before - {} == before;
      for i := 0 to |ready|
        invariant pending == before - Taken(ready, i)
        invariant |applied| == i
        invariant forall k :: 0 <= k < i ==> ready[k] in before && applied[k] == before[ready[k]]
        invariant forall k :: 0 <= k < i ==> Applicable(applied[k])
        invariant after == SetAll(params, applied)
        invariant history == old(history) + applied
        invariant byHeight == Filing(old(byHeight), height, applied)
      {
        var id := ready[i];
        assert id in ready && id in before;
        TakeNext(before, ready, i);
        var change := pending[id];
        pending := pending - {id};
        if !Applicable(change) {
          assert change in ReadyChanges(before, height);
          assert Stopped(before, height, ready[..i], id, applied, pending);
          return false, after, applied;
        }
        SetAllStep(params, applied, change);
        FilingStep(old(byHeight), height, applied, change);
        after := Set(after, change);
        history := history + [change];
        applied := applied + [change];
        byHeight := byHeight[height := (if height in byHeight then byHeight[height] else []) + [change]];
      }
      AppliedAll(before, height, ready, applied);
    }

    /** rollback_changes_from_height: the heights come in map order. It succeeds exactly when every
        recorded old value has its parameter's type; on failure neither the index nor the history changes. */
    method RollbackChangesFromHeight(from: nat, params: Params) returns (ok: bool, after: Params, reverted: seq<Change>)
      requires Valid()
      modifies this`history, this`byHeight
      ensures Valid()
      ensures ok <==> forall c :: Recorded(old(byHeight), from, c) ==> Revertible(c)
      ensures after == RevertAll(params, reverted)
      ensures ok ==>
        exists order :: Lists(order, From(old(byHeight), from)) && reverted == Flatten(old(byHeight), order)
      ensures ok ==> byHeight == old(byHeight) - From(old(byHeight), from) && history == Retain(old(history), from)
      ensures !ok ==> byHeight == old(byHeight) && history == old(history)
    {
      hide SetAll, Revertible, Retain;
      var order: seq<nat> := Enumerate<nat>(From(byHeight, from));
      ok, after, reverted := true, params, [];
      RevertNone(params);
      for i := 0 to |order|
        invariant byHeight == old(byHeight) && history == old(history)
        invariant reverted == Flatten(byHeight, order[..i])
        invariant after == RevertAll(params, reverted)
        invariant forall k, c :: 0 <= k < i && order[k] in byHeight && c in byHeight[order[k]] ==> Revertible(c)
      {
        var height := order[i];
        assert height in order && height in byHeight;
        var changes := byHeight[height];
        for j := 0 to |changes|
          invariant byHeight == old(byHeight) && history == old(history)
          invariant reverted == Flatten(byHeight, order[..i]) + changes[..j]
          invariant after == RevertAll(params, reverted)
          invariant forall k :: 0 <= k < j ==> Revertible(changes[k])
        {
          var change := changes[j];
          if !Revertible(change) {
            assert Recorded(byHeight, from, change);
            return false, after, reverted;
          }
          RevertStep(params, reverted, change);
          after := after[change.name := change.oldValue];
          reverted := reverted + [change];
          assert changes[..j + 1] == changes[..j] + [change];
        }
        assert changes[..|changes|] == changes;
        assert order[..i + 1][..i] == order[..i];
      }
      assert order[..|order|] == order;
      forall c | Recorded(byHeight, from, c) ensures Revertible(c) {
        var h :| h in byHeight && h >= from && c in byHeight[h];
        assert h in order;
      }
      byHeight := byHeight - From(byHeight, from);
      history := Retain(history, from);
    }
  }

  // ------------------------------------------------------------------ the loops' lemmas

  ghost function Taken(ids: seq<ProposalId>, i: nat): set<ProposalId>
    requires i <= |ids|
  {
    set k | 0 <= k < i :: ids[k]
  }

  /** Where a failed application stopped: some due changes applied, one inapplicable change dropped. */
  ghost predicate Stopped(before: Pending, height: nat, ids: seq<ProposalId>, id: ProposalId, applied: seq<Change>,
                          after: Pending) {
    && (forall k :: 0 <= k < |ids| ==> ids[k] in ReadyIds(before, height))
    && NoDuplicates(ids + [id])
    && |applied| == |ids|
    && (forall k :: 0 <= k < |ids| ==> ids[k] in before && applied[k] == before[ids[k]])
    && id in ReadyIds(before, height) && !Applicable(before[id])
    && after == before - Taken(ids, |ids|) - {id}
  }

  lemma SetNone(params: Params)
    ensures SetAll(params, []) == params
  {
  }

  lemma RevertNone(params: Params)
    ensures RevertAll(params, []) == params
  {
    assert FlipAll([]) == [];
  }

  lemma RevertStep(params: Params, cs: seq<Change>, c: Change)
    ensures RevertAll(params, cs + [c]) == RevertAll(params, cs)[c.name := c.oldValue]
  {
    assert FlipAll(cs + [c]) == FlipAll(cs) + [Flip(c)];
    SetAllStep(params, FlipAll(cs), Flip(c));
  }

  lemma TakeNext(before: Pending, ids: seq<ProposalId>, i: nat)
    requires NoDuplicates(ids) && i < |ids|
    ensures ids[i] !in Taken(ids, i) && before - Taken(ids, i + 1) == before - Taken(ids, i) - {ids[i]}
    ensures Taken(ids[..i], |ids[..i]|) == Taken(ids, i) && ids[..i] + [ids[i]] == ids[..i + 1]
  {
    assert Taken(ids, i + 1) == Taken(ids, i) + {ids[i]};
  }

  lemma FilingStep(index: Index, height: nat, cs: seq<Change>, c: Change)
    ensures var f := Filing(index, height, cs);
      Filing(index, height, cs + [c]) == f[height := (if height in f then f[height] else []) + [c]]
  {
    var prior := if height in index then index[height] else [];
    assert prior + (cs + [c]) == prior + cs + [c];
    if cs == [] { assert prior + cs == prior; }
  }

  lemma AppliedAll(before: Pending, height: nat, ready: seq<ProposalId>, applied: seq<Change>)
    requires Filed(before) && Lists(ready, ReadyIds(before, height)) && |applied| == |ready|
    requires forall k :: 0 <= k < |ready| ==> ready[k] in before && applied[k] == before[ready[k]]
    requires forall k :: 0 <= k < |ready| ==> Applicable(applied[k])
    ensures Lists(applied, ReadyChanges(before, height))
    ensures forall c :: c in ReadyChanges(before, height) ==> Applicable(c)
    ensures Taken(ready, |ready|) == ReadyIds(before, height)
  {
    hide Applicable;
    forall c ensures c in applied <==> c in ReadyChanges(before, height) {
      if c in applied {
        var k :| 0 <= k < |applied| && applied[k] == c;
        assert ready[k] in ready;
      }
      if c in ReadyChanges(before, height) {
        var id :| id in before && before[id].activation <= height && before[id] == c;
        assert id in ready;
        var k :| 0 <= k < |ready| && ready[k] == id;
        assert applied[k] == c;
      }
    }
    forall c | c in ReadyChanges(before, height) ensures Applicable(c) {
      assert c in applied;
    }
    forall id ensures id in Taken(ready, |ready|) <==> id in ReadyIds(before, height) {
      assert id in Taken(ready, |ready|) <==> id in ready;
    }
    forall i, j | 0 <= i < j < |applied| ensures applied[i] != applied[j] {
      assert applied[i].id == ready[i] && applied[j].id == ready[j];
    }
  }

  // --------------------------------------------------- changes applied height by height

  /** Every pending change is still to come, can be applied and reverted, and no two target the same
      parameter at the same height. */
  ghost predicate Ahead(pending: Pending, now: nat) {
    && Filed(pending)
    && (forall id :: id in pending ==> Applicable(pending[id]) && Revertible(pending[id]))
    && (forall id :: id in pending ==> pending[id].activation >= now)
    && (forall i, j :: i in pending && j in pending && i != j && pending[i].name == pending[j].name ==>
          pending[i].activation != pending[j].activation)
  }

  ghost predicate Schedulable(pending: Pending, now: nat, change: Change, activation: nat) {
    && Applicable(change) && Revertible(change) && activation >= now
    && forall id :: id in pending && pending[id].name == change.name ==> pending[id].activation != activation
  }

  /** Scheduling a validated change strictly ahead, cancelling, and moving to the next height after
      applying the due changes all keep the pending changes ahead. */
  lemma AheadKept(pending: Pending, now: nat, change: Change, activation: nat, id: ProposalId)
    requires Ahead(pending, now)
    ensures Ahead(pending - {id}, now)
    ensures Ahead(pending - ReadyIds(pending, now), now + 1)
    ensures Schedulable(pending, now, change, activation) ==>
      Ahead(pending[change.id := change.(activation := activation)], now)
  {
    hide Applicable, Revertible;
    var c := change.(activation := activation);
    assert Applicable(change) ==> Applicable(c) by { ActivationIrrelevant(change, activation); }
    assert Revertible(change) ==> Revertible(c) by { ActivationIrrelevant(change, activation); }
  }

  lemma ActivationIrrelevant(c: Change, activation: nat)
    ensures Applicable(c.(activation := activation)) == Applicable(c)
    ensures Revertible(c.(activation := activation)) == Revertible(c)
  {
  }

  /** Applied at every height in turn, the due changes are exactly those of that height, each apply
      succeeds, and its result does not depend on the map order. */
  lemma ApplyInTurn(pending: Pending, height: nat, params: Params)
    requires Ahead(pending, height)
    ensures forall c :: c in ReadyChanges(pending, height) ==> Applicable(c) && Revertible(c) && c.activation == height
    ensures OrderIndependent(params, ReadyChanges(pending, height))
  {
    hide Applicable, Revertible, OrderIndependent;
    ReadyConsistent(pending, height);
    OrderIndependentIff(params, ReadyChanges(pending, height));
  }

  lemma ReadyConsistent(pending: Pending, height: nat)
    requires Ahead(pending, height)
    ensures var ready := ReadyChanges(pending, height);
      forall c, d :: c in ready && d in ready && c.name == d.name ==> c == d
    ensures Consistent(ReadyChanges(pending, height))
  {
    hide Applicable, Revertible;
    var ready := ReadyChanges(pending, height);
    forall c, d | c in ready && d in ready && c.name == d.name ensures c == d {
      var i :| i in pending && pending[i].activation <= height && pending[i] == c;
      var j :| j in pending && pending[j].activation <= height && pending[j] == d;
    }
  }

  /** Round trip: apply the changes of a height, then roll that height back. Parameters, history and
      height index are as before, provided each change recorded the value it replaced. The pending
      changes are not: they stay consumed. */
  lemma ApplyThenRollback(pending: Pending, index: Index, history: seq<Change>, params: Params, height: nat,
                          applied: seq<Change>)
    requires Ahead(pending, height) && Earlier(index, history, height) && WellTyped(params)
    requires Lists(applied, ReadyChanges(pending, height))
    ensures var now := Filing(index, height, applied);
      && now - From(now, height) == index
      && Retain(history + applied, height) == history
      && (Restores(now, height, SetAll(params, applied), params) <==>
          forall c :: c in applied ==> c.name in params && c.oldValue == params[c.name])
    ensures forall c :: Recorded(Filing(index, height, applied), height, c) ==> Revertible(c)
  {
    hide Applicable, Revertible, Restores, From, Retain, Ahead, ReadyChanges, Filing, Recorded, DistinctNames,
         LastOldValuesHeld, SetAll;
    DueChanges(pending, height, params, applied);
    FilingRecorded(index, height, applied);
    if applied == [] {
      NothingApplied(index, history, params, height);
    } else {
      RollbackOneHeight(index, history, params, height, applied);
      LastOfDistinct(applied, params);
    }
  }

  lemma FilingRecorded(index: Index, height: nat, applied: seq<Change>)
    requires forall h :: h in index ==> h < height
    ensures Filing(index, height, applied) == if applied == [] then index else index[height := applied]
    ensures forall c :: Recorded(Filing(index, height, applied), height, c) ==> c in applied
  {
    assert [] + applied == applied;
  }

  lemma DueChanges(pending: Pending, height: nat, params: Params, applied: seq<Change>)
    requires Ahead(pending, height) && WellTyped(params) && Lists(applied, ReadyChanges(pending, height))
    ensures DistinctNames(applied) && DueAt(applied, height) && Names(applied) <= params.Keys
    ensures forall c :: c in applied ==> Revertible(c)
  {
    ReadyConsistent(pending, height);
    forall i, j | 0 <= i < j < |applied| ensures applied[i].name != applied[j].name {
      assert applied[i] in applied && applied[j] in applied;
    }
    forall c | c in applied ensures c.activation == height && c.name in params && Revertible(c) {
      assert c in ReadyChanges(pending, height);
      assert Applicable(c) && SettableKind(c.name).Some?;
    }
  }

  lemma NothingApplied(index: Index, history: seq<Change>, params: Params, height: nat)
    requires Earlier(index, history, height)
    ensures index - From(index, height) == index && Retain(history + [], height) == history
    ensures Restores(index, height, SetAll(params, []), params)
  {
    assert history + [] == history;
    RetainAll(history, height);
    forall order | Lists(order, From(index, height)) ensures RevertAll(params, Flatten(index, order)) == params {
      assert From(index, height) == {};
      ListingLength(order, From(index, height));
      RevertNone(params);
    }
  }

  // ------------------------------------------------------------- the manager's own runs

  /** What governance asks of the manager between two blocks. */
  datatype Request = Schedule(change: Change, activation: nat) | Cancel(id: ProposalId)

  /** Changes are validated and scheduled ahead. */
  ghost predicate Proper(requests: seq<Request>, now: nat) {
    forall i :: 0 <= i < |requests| && requests[i].Schedule? ==>
      Applicable(requests[i].change) && Revertible(requests[i].change) && requests[i].activation >= now
  }

  method Serve(manager: Manager, requests: seq<Request>, ghost now: nat)
    requires manager.Valid() && Ahead(manager.pending, now) && Proper(requests, now)
    modifies manager`pending
    ensures manager.Valid() && Ahead(manager.pending, now)
  {
    hide Ahead, Applicable, Revertible;
    for i := 0 to |requests|
      invariant manager.Valid() && Ahead(manager.pending, now)
    {
      ghost var before := manager.pending;
      match requests[i] {
        case Schedule(change, activation) =>
          AheadKept(before, now, change, activation, 0);
          var _ := manager.ScheduleParameterChange(change, activation);
        case Cancel(id) =>
          AheadKept(before, now, Change(Other(""), U64(0), U64(0), 0, 0), 0, id);
          var _ := manager.CancelPendingChange(id);
      }
    }
  }

  /** The manager over any number of consecutive heights, with any proper requests served before each:
      every apply succeeds, and history, height index and parameters are those of the run of applied
      lists, to which the rollback laws apply. */
  method ApplyHeights(manager: Manager, from: nat, requests: seq<seq<Request>>, params: Params)
    returns (after: Params, run: seq<seq<Change>>)
    requires manager.Valid() && Ahead(manager.pending, from) && WellTyped(params)
    requires forall i :: 0 <= i < |requests| ==> Proper(requests[i], from + i)
    requires Earlier(manager.byHeight, manager.history, from)
    modifies manager
    ensures manager.Valid() && Ahead(manager.pending, from + |requests|)
    ensures |run| == |requests| && RunOk(from, run) && Names(Concat(run)) <= params.Keys
    ensures manager.byHeight == IndexAfter(old(manager.byHeight), from, run)
    ensures manager.history == old(manager.history) + Concat(run)
    ensures after == SetAll(params, Concat(run))
    ensures forall c :: c in Concat(run) ==> Revertible(c)
  {
    hide Ahead, Applicable, Revertible, SetAll, WellTyped, Filing, RunOk;
    after, run := params, [];
    RunStart(manager.byHeight, manager.history, params, from);
    for i := 0 to |requests|
      invariant manager.Valid() && Ahead(manager.pending, from + i)
      invariant |run| == i && RunOk(from, run) && Names(Concat(run)) <= params.Keys
      invariant manager.byHeight == IndexAfter(old(manager.byHeight), from, run)
      invariant manager.history == old(manager.history) + Concat(run)
      invariant after == SetAll(params, Concat(run))
      invariant forall c :: c in Concat(run) ==> Revertible(c)
    {
      Serve(manager, requests[i], from + i);
      ghost var pending, index, history := manager.pending, manager.byHeight, manager.history;
      ApplyInTurn(pending, from + i, params);
      var ok, now, applied := manager.ApplyPendingChanges(from + i, after);
      AheadKept(pending, from + i, Change(Other(""), U64(0), U64(0), 0, 0), 0, 0);
      DueChanges(pending, from + i, params, applied);
      RunExtends(old(manager.byHeight), old(manager.history), params, from, run, applied);
      after := now;
      run := run + [applied];
    }
  }

  lemma RunStart(index: Index, history: seq<Change>, params: Params, from: nat)
    ensures RunOk(from, []) && Concat([]) == [] && index == IndexAfter(index, from, [])
    ensures history == history + Concat([]) && params == SetAll(params, Concat([]))
  {
  }

  lemma RunExtends(index: Index, history: seq<Change>, params: Params, from: nat, run: seq<seq<Change>>,
                   applied: seq<Change>)
    requires Earlier(index, history, from) && RunOk(from, run) && Names(Concat(run)) <= params.Keys
    requires DistinctNames(applied) && DueAt(applied, from + |run|) && Names(applied) <= params.Keys
    ensures Concat(run + [applied]) == Concat(run) + applied
    ensures RunOk(from, run + [applied]) && Names(Concat(run + [applied])) <= params.Keys
    ensures Filing(IndexAfter(index, from, run), from + |run|, applied) == IndexAfter(index, from, run + [applied])
    ensures history + Concat(run) + applied == history + Concat(run + [applied])
    ensures SetAll(SetAll(params, Concat(run)), applied) == SetAll(params, Concat(run + [applied]))
  {
    hide DistinctNames, DueAt, IndexAfter, Filing, RunOk, SetAll, Names, Concat;
    ConcatSnoc(run, applied);
    RunOkSnoc(from, run, applied);
    IndexSnoc(index, from, run, applied);
    NamesConcat(Concat(run), applied);
    SetAllConcat(params, Concat(run), applied);
  }

  lemma ConcatSnoc(run: seq<seq<Change>>, applied: seq<Change>)
    ensures Concat(run + [applied]) == Concat(run) + applied
  {
    assert (run + [applied])[..|run|] == run;
  }

  lemma RunOkSnoc(from: nat, run: seq<seq<Change>>, applied: seq<Change>)
    requires RunOk(from, run) && DistinctNames(applied) && DueAt(applied, from + |run|)
    ensures RunOk(from, run + [applied])
  {
    hide DistinctNames, DueAt;
  }

  lemma IndexSnoc(index: Index, from: nat, run: seq<seq<Change>>, applied: seq<Change>)
    requires forall h :: h in index ==> h < from
    ensures Filing(IndexAfter(index, from, run), from + |run|, applied) == IndexAfter(index, from, run + [applied])
  {
    assert (run + [applied])[..|run|] == run;
    IndexBelow(index, from, run);
    assert [] + applied == applied;
  }

  /** Apply any number of heights and roll all of them back: history and height index are as before,
      and so are the parameters when every change recorded the value it replaced and none changed twice. */
  method ApplyAndRollBack(manager: Manager, from: nat, requests: seq<seq<Request>>, params: Params)
    returns (after: Params, run: seq<seq<Change>>)
    requires manager.Valid() && Ahead(manager.pending, from) && WellTyped(params)
    requires forall i :: 0 <= i < |requests| ==> Proper(requests[i], from + i)
    requires Earlier(manager.byHeight, manager.history, from)
    modifies manager
    ensures manager.byHeight == old(manager.byHeight) && manager.history == old(manager.history)
    ensures Faithful(params, Concat(run)) && DistinctNames(Concat(run)) ==> after == params
  {
    hide Ahead, Applicable, Revertible, WellTyped, Proper, RunOk, Faithful, DistinctNames;
    var now: Params;
    now, run := ApplyHeights(manager, from, requests, params);
    ghost var index := manager.byHeight;
    DueInRun(from, run);
    DeepRollback(old(manager.byHeight), old(manager.history), params, from, run);
    forall c | Recorded(index, from, c) ensures Revertible(c) {
      RecordedInRun(old(manager.byHeight), from, run, c);
    }
    var ok: bool;
    var reverted: seq<Change>;
    ok, after, reverted := manager.RollbackChangesFromHeight(from, now);
  }
}
