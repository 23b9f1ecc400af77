/** Several reloaders at work on one registry, each operation on a single key being atomic. */
module ReloadConcurrency {
  import opened Sql
  import opened Reload
  import opened ReloadRuns

  // ---------------------------------------------------------------- the operations of a reloader

  function RemoveOps<S>(ids: seq<Id>): seq<Op<S>> {
    seq(|ids|, i requires 0 <= i < |ids| => Remove(ids[i]))
  }

  /** The operations of an advisory: updates, additions, and the removals in some order. */
  ghost predicate IsAdvisoryOps<S>(ops: seq<Op<S>>, advisory: ReloadAdvisory<S>) {
    exists order: seq<Id> :: IsOrder(order, advisory.removals)
      && ops == InsertOps(advisory.updates) + InsertOps(advisory.additions) + RemoveOps(order)
  }

  ghost predicate IsOrder(order: seq<Id>, ids: set<Id>) {
    forall id :: id in order <==> id in ids
  }

  lemma {:induction false} PerformConcat<S>(registry: map<Id, S>, a: seq<Op<S>>, b: seq<Op<S>>)
    ensures PerformAll(registry, a + b) == PerformAll(PerformAll(registry, a), b)
  {
    if b == [] {
      assert a + b == a;
    } else {
      assert (a + b)[..|a + b| - 1] == a + b[..|b| - 1];
      PerformConcat(registry, a, b[..|b| - 1]);
    }
  }

  lemma {:induction false} RemovesAll<S>(registry: map<Id, S>, order: seq<Id>, ids: set<Id>)
    requires IsOrder(order, ids)
    ensures PerformAll(registry, RemoveOps(order)) == registry - ids
  {
    if order == [] {
      assert forall id :: id !in ids by {
        forall id
          ensures id !in ids
        {
          assert id in order <==> id in ids;
        }
      }
    } else {
      var init, last := order[..|order| - 1], order[|order| - 1];
      var rest := set id | id in init;
      RemovesAll(registry, init, rest);
      assert order == init + [last];
      assert RemoveOps<S>(order)[..|order| - 1] == RemoveOps(init);
      assert ids == rest + {last};
    }
  }

  /** Performing the operations of an advisory one by one is applying it. */
  lemma AdvisoryOpsApply<S>(registry: map<Id, S>, ops: seq<Op<S>>, advisory: ReloadAdvisory<S>)
    requires IsAdvisoryOps(ops, advisory)
    ensures PerformAll(registry, ops) == Applied(registry, advisory)
  {
    var order: seq<Id> :| IsOrder(order, advisory.removals)
                          && ops == InsertOps(advisory.updates) + InsertOps(advisory.additions) + RemoveOps(order);
    var updates, additions := InsertOps(advisory.updates), InsertOps(advisory.additions);
    PerformConcat(registry, updates, additions);
    PerformConcat(registry, updates + additions, RemoveOps(order));
    RemovesAll(PerformAll(registry, updates + additions), order, advisory.removals);
  }

  /** The operations of one tick: none unless it compares two scans. */
  ghost predicate IsTickOps<S(!new)>(ops: seq<Op<S>>, baseline: Option<map<Id, Version>>, tick: Tick<S>) {
    if tick.scan.None? || baseline.None? then ops == []
    else
      exists advisory ::
        IsAdvisory(advisory, baseline.value, tick.scan.value, tick.build) && IsAdvisoryOps(ops, advisory)
  }

  /** The operations of a whole run under Warn. */
  ghost predicate IsRunOps<S(!new)>(ops: seq<Op<S>>, baseline: Option<map<Id, Version>>, ticks: seq<Tick<S>>)
    decreases |ticks|
  {
    if ticks == [] then ops == []
    else exists before, tickOps :: ops == before + tickOps
           && IsRunOps(before, baseline, ticks[..|ticks| - 1])
           && IsTickOps(tickOps, LastScan(baseline, ticks[..|ticks| - 1]), ticks[|ticks| - 1])
  }

  lemma SplitRunOps<S(!new)>(ops: seq<Op<S>>, baseline: Option<map<Id, Version>>, ticks: seq<Tick<S>>)
    returns (before: seq<Op<S>>, tickOps: seq<Op<S>>)
    requires ticks != [] && IsRunOps(ops, baseline, ticks)
    ensures ops == before + tickOps
    ensures IsRunOps(before, baseline, ticks[..|ticks| - 1])
    ensures IsTickOps(tickOps, LastScan(baseline, ticks[..|ticks| - 1]), ticks[|ticks| - 1])
  {
    before, tickOps :| ops == before + tickOps
      && IsRunOps(before, baseline, ticks[..|ticks| - 1])
      && IsTickOps(tickOps, LastScan(baseline, ticks[..|ticks| - 1]), ticks[|ticks| - 1]);
  }

  /** Alone, the operations of a run are the run. */
  lemma {:induction false} RunOpsApply<S(!new)>(start: RunState<S>, ops: seq<Op<S>>, ticks: seq<Tick<S>>)
    requires IsRunOps(ops, start.baseline, ticks)
    ensures PerformAll(start.registry, ops) == After(start, ticks).registry
    decreases |ticks|
  {
    if ticks == [] {
    } else {
      var init, last := ticks[..|ticks| - 1], ticks[|ticks| - 1];
      var before, tickOps := SplitRunOps(ops, start.baseline, ticks);
      RunOpsApply(start, before, init);
      BaselineIsLastScan(start, init);
      PerformConcat(start.registry, before, tickOps);
      TickOpsApply(After(start, init), tickOps, last);
    }
  }

  lemma TickOpsApply<S(!new)>(state: RunState<S>, ops: seq<Op<S>>, tick: Tick<S>)
    requires IsTickOps(ops, state.baseline, tick)
    ensures PerformAll(state.registry, ops) == AfterTick(state, tick).registry
  {
    if tick.scan.Some? && state.baseline.Some? {
      var advisory :| IsAdvisory(advisory, state.baseline.value, tick.scan.value, tick.build)
          && IsAdvisoryOps(ops, advisory);
      AdvisoryOpsApply(state.registry, ops, advisory);
      AppliedIsTicked(state.registry, state.baseline.value, tick.scan.value, tick.build, advisory);
    }
  }

  /** Every run has its operations. */
  lemma {:induction false} SomeRunOps<S(!new)>(baseline: Option<map<Id, Version>>, ticks: seq<Tick<S>>)
    returns (ops: seq<Op<S>>)
    ensures IsRunOps(ops, baseline, ticks)
    decreases |ticks|
  {
    if ticks == [] {
      ops := [];
    } else {
      var init, last := ticks[..|ticks| - 1], ticks[|ticks| - 1];
      var before := SomeRunOps(baseline, init);
      var tickOps := SomeTickOps(LastScan(baseline, init), last);
      ops := before + tickOps;
    }
  }

  lemma SomeTickOps<S(!new)>(baseline: Option<map<Id, Version>>, tick: Tick<S>) returns (ops: seq<Op<S>>)
    ensures IsTickOps(ops, baseline, tick)
  {
    ops := [];
    if tick.scan.Some? && baseline.Some? {
      var previous, next := baseline.value, tick.scan.value;
      var updates := SomeBuilt(Changed(previous, next), tick.build);
      var additions := SomeBuilt(Added(previous, next), tick.build);
      var order := SomeOrder(Removed(previous, next));
      var advisory := ReloadAdvisory(additions, updates, Removed(previous, next));
      ops := InsertOps(updates) + InsertOps(additions) + RemoveOps(order);
      assert IsAdvisory(advisory, previous, next, tick.build) && IsAdvisoryOps(ops, advisory);
    }
  }

  lemma {:induction false} SomeBuilt<S>(ids: set<Id>, build: Id -> Option<S>) returns (news: seq<NewSource<S>>)
    ensures IsBuilt(news, ids, build)
  {
    if ids == {} {
      news := [];
    } else {
      var id :| id in ids;
      news := SomeBuilt(ids - {id}, build);
      BuildOneMore(news, ids - {id}, id, build);
      assert ids - {id} + {id} == ids;
      news := news + [NewSource(id, build(id))];
    }
  }

  lemma {:induction false} SomeOrder(ids: set<Id>) returns (order: seq<Id>)
    ensures IsOrder(order, ids)
  {
    if ids == {} {
      order := [];
    } else {
      var id :| id in ids;
      order := SomeOrder(ids - {id});
      forall other
        ensures other in order + [id] <==> other in ids
      {
        assert other in order <==> other in ids - {id};
      }
      order := order + [id];
    }
  }

  // ---------------------------------------------------------------- disjoint ids

  /** All the ids that a reloader ever sees are its own. */
  ghost predicate OwnsScans<S>(baseline: Option<map<Id, Version>>, ticks: seq<Tick<S>>, owner: Id -> nat,
                               reloader: nat) {
    forall id :: Known(baseline, ticks, id) ==> owner(id) == reloader
  }

  ghost predicate OpsOwned<S>(ops: seq<Op<S>>, owner: Id -> nat, reloader: nat) {
    forall i | 0 <= i < |ops| :: owner(ops[i].id) == reloader
  }

  lemma {:induction false} InsertOpsIds<S>(news: seq<NewSource<S>>, i: nat)
    requires i < |InsertOps(news)|
    ensures HasEntry(news, InsertOps(news)[i].id)
  {
    var init, last := news[..|news| - 1], |news| - 1;
    if i < |InsertOps(init)| {
      InsertOpsIds(init, i);
      var k :| 0 <= k < |init| && init[k].id == InsertOps(init)[i].id;
      assert news[k].id == InsertOps(news)[i].id;
    } else {
      assert news[last].id == InsertOps(news)[i].id;
    }
  }

  lemma AdvisoryOpsOwned<S>(ops: seq<Op<S>>, advisory: ReloadAdvisory<S>, owner: Id -> nat, reloader: nat)
    requires IsAdvisoryOps(ops, advisory)
    requires forall id | HasEntry(advisory.updates, id) || HasEntry(advisory.additions, id)
              || id in advisory.removals :: owner(id) == reloader
    ensures OpsOwned(ops, owner, reloader)
  {
    var order: seq<Id> :| IsOrder(order, advisory.removals)
                          && ops == InsertOps(advisory.updates) + InsertOps(advisory.additions) + RemoveOps(order);
    var updates, additions := InsertOps(advisory.updates), InsertOps(advisory.additions);
    forall i | 0 <= i < |ops|
      ensures owner(ops[i].id) == reloader
    {
      if i < |updates| {
        InsertOpsIds(advisory.updates, i);
      } else if i < |updates| + |additions| {
        InsertOpsIds(advisory.additions, i - |updates|);
      } else {
        assert ops[i].id == order[i - |updates| - |additions|];
        assert ops[i].id in order;
      }
    }
  }

  lemma TickOpsOwned<S(!new)>(ops: seq<Op<S>>, baseline: Option<map<Id, Version>>, tick: Tick<S>, owner: Id -> nat,
                              reloader: nat)
    requires IsTickOps(ops, baseline, tick)
    requires baseline.Some? ==> forall id | id in baseline.value :: owner(id) == reloader
    requires tick.scan.Some? ==> forall id | id in tick.scan.value :: owner(id) == reloader
    ensures OpsOwned(ops, owner, reloader)
  {
    if tick.scan.Some? && baseline.Some? {
      var advisory :| IsAdvisory(advisory, baseline.value, tick.scan.value, tick.build) && IsAdvisoryOps(ops, advisory);
      AdvisoryOpsOwned(ops, advisory, owner, reloader);
    }
  }

  /** The last tick and the ticks before it see only ids of the reloader, too. */
  lemma OwnsParts<S>(baseline: Option<map<Id, Version>>, ticks: seq<Tick<S>>, owner: Id -> nat, reloader: nat)
    requires ticks != [] && OwnsScans(baseline, ticks, owner, reloader)
    ensures var init, last := ticks[..|ticks| - 1], ticks[|ticks| - 1];
            && OwnsScans(baseline, init, owner, reloader)
            && (last.scan.Some? ==> forall id | id in last.scan.value :: owner(id) == reloader)
  {
    var n := |ticks| - 1;
    forall id
      ensures Known(baseline, ticks[..n], id) || ScannedAt(ticks, n, id) ==> owner(id) == reloader
    {
      KnownStep(baseline, ticks, id);
    }
    if ticks[n].scan.Some? {
      forall id | id in ticks[n].scan.value
        ensures owner(id) == reloader
      {
        assert ScannedAt(ticks, n, id);
      }
    }
  }

  lemma OwnsLastScan<S>(baseline: Option<map<Id, Version>>, ticks: seq<Tick<S>>, owner: Id -> nat, reloader: nat)
    requires OwnsScans(baseline, ticks, owner, reloader) && LastScan(baseline, ticks).Some?
    ensures forall id | id in LastScan(baseline, ticks).value :: owner(id) == reloader
  {
    forall id | id in LastScan(baseline, ticks).value
      ensures owner(id) == reloader
    {
      LatestIsKnown(baseline, ticks, id);
    }
  }

  /** A reloader that sees only its own ids operates only on its own ids. */
  lemma {:induction false} RunOpsOwned<S(!new)>(ops: seq<Op<S>>, baseline: Option<map<Id, Version>>,
                                                ticks: seq<Tick<S>>, owner: Id -> nat, reloader: nat)
    requires IsRunOps(ops, baseline, ticks) && OwnsScans(baseline, ticks, owner, reloader)
    ensures OpsOwned(ops, owner, reloader)
    decreases |ticks|
  {
    if ticks == [] {
    } else {
      var init, last := ticks[..|ticks| - 1], ticks[|ticks| - 1];
      var before, tickOps := SplitRunOps(ops, baseline, ticks);
      OwnsParts(baseline, ticks, owner, reloader);
      RunOpsOwned(before, baseline, init, owner, reloader);
      if LastScan(baseline, init).Some? {
        OwnsLastScan(baseline, init, owner, reloader);
      }
      TickOpsOwned(tickOps, LastScan(baseline, init), last, owner, reloader);
    }
  }

  // ---------------------------------------------------------------- interleavings

  /** The operations on one id. */
  function OnId<S>(ops: seq<Op<S>>, id: Id): seq<Op<S>> {
    if ops == [] then []
    else OnId(ops[..|ops| - 1], id) + if ops[|ops| - 1].id == id then [ops[|ops| - 1]] else []
  }

  /** What the registry holds for an id depends on the operations on that id alone. */
  lemma {:induction false} OnlyOwnOps<S>(registry: map<Id, S>, ops: seq<Op<S>>, id: Id)
    ensures id in PerformAll(registry, ops) <==> id in PerformAll(registry, OnId(ops, id))
    ensures id in PerformAll(registry, ops) ==> PerformAll(registry, ops)[id] == PerformAll(registry, OnId(ops, id))[id]
  {
    if ops == [] {
    } else {
      var init, last := ops[..|ops| - 1], ops[|ops| - 1];
      OnlyOwnOps(registry, init, id);
      if last.id == id {
        PerformAppend(registry, OnId(init, id), last);
      } else {
        assert OnId(init, id) + [] == OnId(init, id);
      }
    }
  }

  /** One step of one of several reloaders. */
  datatype Step<+S> = Step(reloader: nat, op: Op<S>)

  function Ops<S>(steps: seq<Step<S>>): seq<Op<S>> {
    seq(|steps|, i requires 0 <= i < |steps| => steps[i].op)
  }

  /** What one reloader contributed, in its own order. */
  function PartOf<S>(steps: seq<Step<S>>, reloader: nat): seq<Op<S>> {
    if steps == [] then []
    else
      PartOf(steps[..|steps| - 1], reloader)
      + if steps[|steps| - 1].reloader == reloader then [steps[|steps| - 1].op] else []
  }

  /** Each reloader touches only ids that it owns, and no id has two owners. */
  ghost predicate Owned<S>(steps: seq<Step<S>>, owner: Id -> nat) {
    forall i | 0 <= i < |steps| :: owner(steps[i].op.id) == steps[i].reloader
  }

  lemma {:induction false} OwnedOnId<S>(steps: seq<Step<S>>, owner: Id -> nat, id: Id)
    requires Owned(steps, owner)
    ensures OnId(Ops(steps), id) == OnId(PartOf(steps, owner(id)), id)
  {
    if steps == [] {
    } else {
      var init, last := steps[..|steps| - 1], steps[|steps| - 1];
      OwnedOnId(init, owner, id);
      assert Ops(steps)[..|steps| - 1] == Ops(init);
      var part := PartOf(init, owner(id));
      if last.reloader == owner(id) {
        assert (part + [last.op])[..|part|] == part;
      } else {
        assert part + [] == part;
        assert OnId(Ops(init), id) + [] == OnId(Ops(init), id);
      }
    }
  }

  /** A step is part of what its reloader contributed. */
  lemma {:induction false} StepInPart<S>(steps: seq<Step<S>>, i: nat)
    requires i < |steps|
    ensures steps[i].op in PartOf(steps, steps[i].reloader)
  {
    var n := |steps| - 1;
    if i == n {
    } else {
      StepInPart(steps[..n], i);
    }
  }

  /** Any two interleavings of the same steps on disjoint ids end in the same registry. */
  lemma InterleavingsAgree<S>(registry: map<Id, S>, steps: seq<Step<S>>, others: seq<Step<S>>, owner: Id -> nat)
    requires Owned(steps, owner) && Owned(others, owner)
    requires forall r :: PartOf(steps, r) == PartOf(others, r)
    ensures PerformAll(registry, Ops(steps)) == PerformAll(registry, Ops(others))
  {
    forall id
      ensures SameAt(PerformAll(registry, Ops(steps)), PerformAll(registry, Ops(others)), id)
    {
      OwnedOnId(steps, owner, id);
      OwnedOnId(others, owner, id);
      OnlyOwnOps(registry, Ops(steps), id);
      OnlyOwnOps(registry, Ops(others), id);
    }
    SameEverywhere(PerformAll(registry, Ops(steps)), PerformAll(registry, Ops(others)));
  }

  /** Both registries hold the same for an id. */
  predicate SameAt<S(==)>(a: map<Id, S>, b: map<Id, S>, id: Id) {
    (id in a <==> id in b) && (id in a ==> a[id] == b[id])
  }

  lemma SameEverywhere<S>(a: map<Id, S>, b: map<Id, S>)
    requires forall id :: SameAt(a, b, id)
    ensures a == b
  {
    forall id
      ensures id in a <==> id in b
      ensures id in a ==> a[id] == b[id]
    {
      assert SameAt(a, b, id);
    }
  }

  /** The steps are an interleaving of whole runs under Warn, one for each reloader, each over several
      ticks, and no id is seen by two reloaders. */
  ghost predicate IsInterleaving<S(!new)>(steps: seq<Step<S>>, baselines: nat -> Option<map<Id, Version>>,
                                          ticks: nat -> seq<Tick<S>>, owner: Id -> nat) {
    && (forall r: nat :: IsRunOps(PartOf(steps, r), baselines(r), ticks(r)))
    && (forall r: nat :: OwnsScans(baselines(r), ticks(r), owner, r))
  }

  lemma InterleavingIsOwned<S(!new)>(steps: seq<Step<S>>, baselines: nat -> Option<map<Id, Version>>,
                                     ticks: nat -> seq<Tick<S>>, owner: Id -> nat)
    requires IsInterleaving(steps, baselines, ticks, owner)
    ensures Owned(steps, owner)
  {
    forall i | 0 <= i < |steps|
      ensures owner(steps[i].op.id) == steps[i].reloader
    {
      var r := steps[i].reloader;
      assert IsRunOps(PartOf(steps, r), baselines(r), ticks(r)) && OwnsScans(baselines(r), ticks(r), owner, r);
      RunOpsOwned(PartOf(steps, r), baselines(r), ticks(r), owner, r);
      StepInPart(steps, i);
    }
  }

  /** Reloaders with disjoint ids need no lock. However their single operations interleave, and over any
      number of ticks, the registry holds for an id what the run of its own reloader alone would leave. */
  lemma InterleavingIsOwnRun<S(!new)>(registry: map<Id, S>, steps: seq<Step<S>>,
                                      baselines: nat -> Option<map<Id, Version>>, ticks: nat -> seq<Tick<S>>,
                                      owner: Id -> nat, id: Id)
    requires IsInterleaving(steps, baselines, ticks, owner)
    ensures var r := owner(id);
            SameAt(PerformAll(registry, Ops(steps)), After(RunState(baselines(r), registry), ticks(r)).registry, id)
  {
    var r := owner(id);
    assert IsRunOps(PartOf(steps, r), baselines(r), ticks(r));
    InterleavingIsOwned(steps, baselines, ticks, owner);
    OwnedOnId(steps, owner, id);
    OnlyOwnOps(registry, Ops(steps), id);
    OnlyOwnOps(registry, PartOf(steps, r), id);
    RunOpsApply(RunState(baselines(r), registry), PartOf(steps, r), ticks(r));
  }

  /** So the description of live sources survives concurrency. */
  lemma LiveIsLastInstallConcurrently<S(!new)>(registry: map<Id, S>, steps: seq<Step<S>>,
                                               baselines: nat -> Option<map<Id, Version>>, ticks: nat -> seq<Tick<S>>,
                                               owner: Id -> nat, id: Id, source: S)
    requires IsInterleaving(steps, baselines, ticks, owner)
    ensures var all, r := PerformAll(registry, Ops(steps)), owner(id);
            (id in all && all[id] == source) <==> Serves(RunState(baselines(r), registry), ticks(r), id, source)
  {
    var r := owner(id);
    InterleavingIsOwnRun(registry, steps, baselines, ticks, owner, id);
    LiveIsLastInstall(RunState(baselines(r), registry), ticks(r), id, source);
  }

  /** The first `n` reloaders run one after the other, each with all its ticks. */
  function RunInTurn<S>(registry: map<Id, S>, baselines: nat -> Option<map<Id, Version>>, ticks: nat -> seq<Tick<S>>,
                        n: nat): map<Id, S> {
    if n == 0 then registry
    else After(RunState(baselines(n - 1), RunInTurn(registry, baselines, ticks, n - 1)), ticks(n - 1)).registry
  }

  /** Running in turn does to an id what its owner does, once it had its turn. */
  lemma {:induction false} RunInTurnAt<S>(registry: map<Id, S>, baselines: nat -> Option<map<Id, Version>>,
                                          ticks: nat -> seq<Tick<S>>, owner: Id -> nat, n: nat, id: Id)
    requires forall r: nat :: OwnsScans(baselines(r), ticks(r), owner, r)
    ensures var r := owner(id);
            SameAt(RunInTurn(registry, baselines, ticks, n),
                   if r < n then After(RunState(baselines(r), registry), ticks(r)).registry else registry, id)
  {
    if n == 0 {
    } else {
      var r, before := n - 1, RunInTurn(registry, baselines, ticks, n - 1);
      RunInTurnAt(registry, baselines, ticks, owner, r, id);
      assert OwnsScans(baselines(r), ticks(r), owner, r);
      if owner(id) == r {
        SameStart(RunState(baselines(r), before), RunState(baselines(r), registry), ticks(r), id);
      } else {
        OthersUntouched(RunState(baselines(r), before), ticks(r), id);
      }
    }
  }

  /** What a run leaves for an id depends on nothing else that was there at the start. */
  lemma {:induction false} SameStart<S>(a: RunState<S>, b: RunState<S>, ticks: seq<Tick<S>>, id: Id)
    requires a.baseline == b.baseline && SameAt(a.registry, b.registry, id)
    ensures After(a, ticks).baseline == After(b, ticks).baseline
    ensures SameAt(After(a, ticks).registry, After(b, ticks).registry, id)
  {
    if ticks == [] {
    } else {
      SameStart(a, b, ticks[..|ticks| - 1], id);
    }
  }

  /** Every interleaving ends like running the reloaders one after the other. */
  lemma InterleavingIsSequential<S(!new)>(registry: map<Id, S>, steps: seq<Step<S>>,
                                          baselines: nat -> Option<map<Id, Version>>, ticks: nat -> seq<Tick<S>>,
                                          owner: Id -> nat, n: nat)
    requires IsInterleaving(steps, baselines, ticks, owner)
    requires forall r: nat | r >= n :: ticks(r) == []
    ensures PerformAll(registry, Ops(steps)) == RunInTurn(registry, baselines, ticks, n)
  {
    var all, turn := PerformAll(registry, Ops(steps)), RunInTurn(registry, baselines, ticks, n);
    forall id
      ensures SameAt(all, turn, id)
    {
      InterleavingIsOwnRun(registry, steps, baselines, ticks, owner, id);
      RunInTurnAt(registry, baselines, ticks, owner, n, id);
    }
    SameEverywhere(all, turn);
  }
}
