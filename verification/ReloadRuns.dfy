/** Whole runs of a reloader, and interleavings of several. */
module ReloadRuns {
  import opened Sql
  import opened Reload

  /** How a reloader starts: sources that are already live get their baseline from a first scan, others
      start from nothing. */
  datatype Baseline = StartupResolved | Empty

  /** The reconcile loop of one reloader. No baseline means that no scan has succeeded yet. */
  class ReloadDriver<S> {
    var baseline: Option<map<Id, Version>>
    const manager: TileSourceManager<S>

    constructor (manager: TileSourceManager<S>)
      ensures this.manager == manager && baseline == None
    {
      this.manager := manager;
      baseline := None;
    }

    /** Record the startup state without applying it; a failed scan defers the baseline. */
    method Seed(scan: Option<map<Id, Version>>)
      modifies this
      ensures baseline == if scan.Some? then scan else old(baseline)
    {
      if scan.Some? {
        baseline := scan;
      }
    }

    /** One tick: a failed scan changes nothing, the first scan is only recorded, any other scan is
        compared and applied; the baseline moves on only when applying succeeded. */
    method Reconcile(scan: Option<map<Id, Version>>, build: Id -> Option<S>)
      modifies this, manager
      ensures scan.None? ==> baseline == old(baseline)
      ensures scan.Some? && old(baseline).None? ==> baseline == scan
      ensures scan.None? || old(baseline).None? ==>
                manager.sources == old(manager.sources) && manager.cached == old(manager.cached)
      ensures scan.Some? && old(baseline).Some? && baseline == scan ==>
                && manager.sources == Ticked(old(manager.sources), old(baseline).value, scan.value, build)
                && manager.cached == Without(old(manager.cached), Stale(old(baseline).value, scan.value, build))
      ensures scan.Some? && old(baseline).Some? && baseline != scan ==>
                && baseline == old(baseline)
                && exists advisory :: IsAdvisory(advisory, old(baseline).value, scan.value, build)
                     && manager.sources == AbortedRegistry(old(manager.sources), advisory)
                     && manager.cached == Without(old(manager.cached), BuiltIds(Leading(advisory.updates)))
      ensures scan.Some? && old(baseline).Some? ==>
                (baseline == scan <==> manager.onInvalid == Warn || AllBuild(old(baseline).value, scan.value, build))
      ensures scan.Some? && old(baseline).Some? && baseline == scan ==>
                forall id ::
                  && (id in manager.sources <==>
                      if id !in scan.value then id in old(manager.sources) && id !in old(baseline).value
                      else id in old(manager.sources)
                           || (build(id).Some?
                               && (id in old(baseline).value ==> old(baseline).value[id] != scan.value[id])))
                  && (id in manager.sources ==>
                        manager.sources[id] ==
                        if id in scan.value && (id in old(baseline).value ==> old(baseline).value[id] != scan.value[id])
                           && build(id).Some?
                        then build(id).value else old(manager.sources)[id])
      ensures scan.Some? && old(baseline).Some? && baseline == scan ==>
                forall key ::
                  key in manager.cached <==>
                  && key in old(manager.cached)
                  && (key.sourceId in old(baseline).value ==>
                      && key.sourceId in scan.value
                      && (scan.value[key.sourceId] == old(baseline).value[key.sourceId]
                          || build(key.sourceId).None?))
      ensures scan.Some? && old(baseline).Some? && baseline != scan ==>
                forall key ::
                  key in old(manager.cached) && key !in manager.cached ==>
                  && key.sourceId in manager.sources
                  && build(key.sourceId) == Some(manager.sources[key.sourceId])
    {
      if scan.None? {
        return;
      }
      if baseline.None? {
        baseline := scan;
        return;
      }
      var advisory := FromMaps(baseline.value, scan.value, build);
      AppliedIsTicked(manager.sources, baseline.value, scan.value, build, advisory);
      TickLaw(manager.sources, baseline.value, scan.value, build);
      StaleLaw(manager.cached, baseline.value, scan.value, build);
      DroppedIsReplaced(manager.sources, manager.cached, baseline.value, scan.value, build, advisory);
      BuiltMeansAllBuild(baseline.value, scan.value, build, advisory);
      var ok := manager.ApplyChanges(advisory);
      if ok {
        baseline := scan;
      }
    }

    /** The whole life of a reloader: establish the baseline, then reconcile tick by tick. */
    method Spawn(initial: Baseline, seedScan: Option<map<Id, Version>>, ticks: seq<Tick<S>>)
      requires baseline == None
      modifies this, manager
      ensures manager.onInvalid == Warn ==>
                RunState(baseline, manager.sources)
                == After(RunState(if initial.Empty? then Some(map[]) else seedScan, old(manager.sources)), ticks)
    {
      match initial {
        case StartupResolved => Seed(seedScan);
        case Empty => baseline := Some(map[]);
      }
      ghost var start := RunState(baseline, manager.sources);
      for k := 0 to |ticks|
        invariant manager.onInvalid == Warn ==> RunState(baseline, manager.sources) == After(start, ticks[..k])
      {
        assert ticks[..k + 1][..k] == ticks[..k];
        Reconcile(ticks[k].scan, ticks[k].build);
      }
      assert ticks[..|ticks|] == ticks;
    }

    /** A tick and another one that finds the same scan: whatever stopped the first, if the second can
        build everything the registry ends where one good tick would have left it. */
    method ReconcileAgain(scan: map<Id, Version>, failing: Id -> Option<S>, build: Id -> Option<S>)
      requires baseline.Some? && AllBuild(baseline.value, scan, build)
      modifies this, manager
      ensures baseline == Some(scan)
      ensures !AllBuild(old(baseline).value, scan, failing) && manager.onInvalid == Abort ==>
                && manager.sources == Ticked(old(manager.sources), old(baseline).value, scan, build)
                && manager.cached == Without(old(manager.cached), Stale(old(baseline).value, scan, build))
      ensures !AllBuild(old(baseline).value, scan, failing) && manager.onInvalid == Abort ==>
                forall key ::
                  key in manager.cached <==>
                  && key in old(manager.cached)
                  && (key.sourceId in old(baseline).value ==>
                      key.sourceId in scan && scan[key.sourceId] == old(baseline).value[key.sourceId])
    {
      ghost var previous, sources, cached := baseline.value, manager.sources, manager.cached;
      StaleLaw(cached, previous, scan, build);
      Reconcile(Some(scan), failing);
      if baseline != Some(scan) {
        ghost var advisory :| IsAdvisory(advisory, previous, scan, failing)
                              && manager.sources == AbortedRegistry(sources, advisory)
                              && manager.cached == Without(cached, BuiltIds(Leading(advisory.updates)));
        RetryDropsStale(cached, previous, scan, failing, advisory, build);
        RetryRepairs(sources, previous, scan, failing, advisory, build);
        Reconcile(Some(scan), build);
      } else {
        NothingToDo(scan, build);
        Reconcile(Some(scan), build);
      }
    }
  }

  /** Everything that the tick wants to build can be built. */
  predicate AllBuild<S>(previous: map<Id, Version>, next: map<Id, Version>, build: Id -> Option<S>) {
    forall id | id in Changed(previous, next) + Added(previous, next) :: build(id).Some?
  }

  lemma NothingToDo<S>(scan: map<Id, Version>, build: Id -> Option<S>)
    ensures AllBuild(scan, scan, build)
  {
  }

  /** The sources whose cached tiles a tick must drop: those it replaces and those it removes. */
  function Stale<S>(previous: map<Id, Version>, next: map<Id, Version>, build: Id -> Option<S>): set<Id> {
    (set id | id in Changed(previous, next) && build(id).Some?) + Removed(previous, next)
  }

  /** What comparing two scans asks for. */
  ghost predicate IsAdvisory<S>(advisory: ReloadAdvisory<S>, previous: map<Id, Version>, next: map<Id, Version>,
                                build: Id -> Option<S>) {
    && advisory.removals == Removed(previous, next)
    && IsBuilt(advisory.updates, Changed(previous, next), build)
    && IsBuilt(advisory.additions, Added(previous, next), build)
  }

  /** An advisory is built completely exactly when everything it wants can be built, and then its
      updates are the replaced sources. */
  lemma BuiltMeansAllBuild<S>(previous: map<Id, Version>, next: map<Id, Version>, build: Id -> Option<S>,
                              advisory: ReloadAdvisory<S>)
    requires IsAdvisory(advisory, previous, next, build)
    ensures AllBuilt(advisory.updates) && AllBuilt(advisory.additions) <==> AllBuild(previous, next, build)
    ensures previous == next ==> AllBuild(previous, next, build)
    ensures BuiltIds(advisory.updates) + advisory.removals == Stale(previous, next, build)
  {
    BuiltEntries(advisory.updates, Changed(previous, next), build);
    BuiltEntries(advisory.additions, Added(previous, next), build);
  }

  lemma BuiltEntries<S>(news: seq<NewSource<S>>, ids: set<Id>, build: Id -> Option<S>)
    requires IsBuilt(news, ids, build)
    ensures AllBuilt(news) <==> forall id | id in ids :: build(id).Some?
    ensures forall id :: id in BuiltIds(news) <==> id in ids && build(id).Some?
  {
    forall id | id in ids
      ensures exists i :: 0 <= i < |news| && news[i] == NewSource(id, build(id))
    {
      assert HasEntry(news, id);
      var i :| 0 <= i < |news| && news[i].id == id;
      assert news[i] == NewSource(id, build(id));
    }
  }

  /** The effect of a tick on the registry, id by id. */
  function Ticked<S>(sources: map<Id, S>, previous: map<Id, Version>, next: map<Id, Version>,
                     build: Id -> Option<S>): map<Id, S> {
    map id | id in sources.Keys + next.Keys && id !in Removed(previous, next)
             && (id in sources || Rebuilt(previous, next, build, id)) ::
      if Rebuilt(previous, next, build, id) then build(id).value else sources[id]
  }

  /** The tick builds the id anew, successfully. */
  predicate Rebuilt<S>(previous: map<Id, Version>, next: map<Id, Version>, build: Id -> Option<S>, id: Id) {
    id in Changed(previous, next) + Added(previous, next) && build(id).Some?
  }

  /** A tick follows the scan, id by id: what was not scanned but seen before goes, a version that is new is
      installed if it can be built, everything else stays. */
  lemma TickLaw<S>(sources: map<Id, S>, previous: map<Id, Version>, next: map<Id, Version>, build: Id -> Option<S>)
    ensures forall id :: id in Ticked(sources, previous, next, build) <==>
              if id !in next then id in sources && id !in previous
              else id in sources || (build(id).Some? && (id in previous ==> previous[id] != next[id]))
    ensures forall id | id in Ticked(sources, previous, next, build) ::
              Ticked(sources, previous, next, build)[id] ==
              if id in next && (id in previous ==> previous[id] != next[id]) && build(id).Some?
              then build(id).value else sources[id]
  {
  }

  /** The cached tiles that a tick leaves: those of sources that were neither dropped nor replaced. */
  lemma StaleLaw<S>(cached: set<CacheKey>, previous: map<Id, Version>, next: map<Id, Version>, build: Id -> Option<S>)
    ensures forall key :: key in Without(cached, Stale(previous, next, build)) <==>
              && key in cached
              && (key.sourceId in previous ==>
                  && key.sourceId in next
                  && (next[key.sourceId] == previous[key.sourceId] || build(key.sourceId).None?))
  {
  }

  /** Even a tick that fails drops a cached tile only for a source that it has replaced. */
  lemma DroppedIsReplaced<S>(sources: map<Id, S>, cached: set<CacheKey>, previous: map<Id, Version>,
                             next: map<Id, Version>, build: Id -> Option<S>, advisory: ReloadAdvisory<S>)
    requires IsAdvisory(advisory, previous, next, build)
    ensures forall key | key in cached && key !in Without(cached, BuiltIds(Leading(advisory.updates))) ::
              && key.sourceId in AbortedRegistry(sources, advisory)
              && build(key.sourceId) == Some(AbortedRegistry(sources, advisory)[key.sourceId])
  {
    var leading, more := Leading(advisory.updates), Leading(advisory.additions);
    var updated := PerformAll(sources, InsertOps(leading));
    forall key | key in cached && key !in Without(cached, BuiltIds(leading))
      ensures key.sourceId in AbortedRegistry(sources, advisory)
      ensures build(key.sourceId) == Some(AbortedRegistry(sources, advisory)[key.sourceId])
    {
      var id := key.sourceId;
      var i :| 0 <= i < |leading| && leading[i].id == id && leading[i].source.Some?;
      assert leading[i] == advisory.updates[i] && advisory.updates[i] == NewSource(id, build(id));
      assert HasEntry(leading, id);
      InsertsAt(sources, leading, {}, build, id);
      InsertsAt(updated, more, {}, build, id);
    }
  }

  /** Inserting built entries sets exactly their ids. */
  lemma {:induction false} InsertsAt<S>(registry: map<Id, S>, news: seq<NewSource<S>>, ids: set<Id>,
                                        build: Id -> Option<S>, id: Id)
    requires forall i | 0 <= i < |news| :: news[i] == NewSource(news[i].id, build(news[i].id))
    ensures var after := PerformAll(registry, InsertOps(news));
            && (id in after <==> id in registry || (HasEntry(news, id) && build(id).Some?))
            && (id in after ==>
                after[id] == if HasEntry(news, id) && build(id).Some? then build(id).value else registry[id])
  {
    if news == [] {
    } else {
      var init, last := news[..|news| - 1], news[|news| - 1];
      InsertsAt(registry, init, ids, build, id);
      if HasEntry(init, id) {
        var i :| 0 <= i < |init| && init[i].id == id;
        assert news[i].id == id;
      }
      if HasEntry(news, id) && last.id != id {
        var i :| 0 <= i < |news| && news[i].id == id;
        assert init[i].id == id;
      }
      if last.source.Some? {
        PerformAppend(registry, InsertOps(init), Insert(last.id, last.source.value));
      } else {
        assert InsertOps(init) + [] == InsertOps(init);
      }
    }
  }

  lemma BuiltAt<S>(registry: map<Id, S>, news: seq<NewSource<S>>, ids: set<Id>, build: Id -> Option<S>, id: Id)
    requires IsBuilt(news, ids, build)
    ensures var after := PerformAll(registry, InsertOps(news));
            && (id in after <==> id in registry || (id in ids && build(id).Some?))
            && (id in after ==> after[id] == if id in ids && build(id).Some? then build(id).value else registry[id])
  {
    InsertsAt(registry, news, ids, build, id);
    assert HasEntry(news, id) <==> id in ids;
  }

  /** Applying the comparison of two scans is the tick. */
  lemma AppliedIsTicked<S>(sources: map<Id, S>, previous: map<Id, Version>, next: map<Id, Version>,
                           build: Id -> Option<S>, advisory: ReloadAdvisory<S>)
    requires IsAdvisory(advisory, previous, next, build)
    ensures Applied(sources, advisory) == Ticked(sources, previous, next, build)
  {
    var updated := PerformAll(sources, InsertOps(advisory.updates));
    forall id
      ensures id in Applied(sources, advisory) <==> id in Ticked(sources, previous, next, build)
      ensures id in Applied(sources, advisory) ==>
                Applied(sources, advisory)[id] == Ticked(sources, previous, next, build)[id]
    {
      BuiltAt(sources, advisory.updates, Changed(previous, next), build, id);
      BuiltAt(updated, advisory.additions, Added(previous, next), build, id);
    }
  }

  /** Under Abort a failed tick is repaired by the next one: the baseline stayed, so a tick that finds
      the same scan and can build everything ends exactly where it would have ended without the
      failed attempt, however far that got. */
  lemma RetryRepairs<S>(sources: map<Id, S>, previous: map<Id, Version>, next: map<Id, Version>,
                        failing: Id -> Option<S>, advisory: ReloadAdvisory<S>, build: Id -> Option<S>)
    requires IsAdvisory(advisory, previous, next, failing) && AllBuild(previous, next, build)
    ensures Ticked(AbortedRegistry(sources, advisory), previous, next, build) == Ticked(sources, previous, next, build)
  {
    var aborted := AbortedRegistry(sources, advisory);
    var a, b := Ticked(aborted, previous, next, build), Ticked(sources, previous, next, build);
    forall id
      ensures id in a <==> id in b
      ensures id in a ==> a[id] == b[id]
    {
      if id !in Changed(previous, next) + Added(previous, next) {
        AbortedElsewhere(sources, previous, next, failing, advisory, id);
      }
      SameTickAt(aborted, sources, previous, next, build, id);
    }
    assert a == b;
  }

  /** What the failed attempt dropped from the cache, the retry drops anyway. */
  lemma RetryDropsStale<S>(cached: set<CacheKey>, previous: map<Id, Version>, next: map<Id, Version>,
                           failing: Id -> Option<S>, advisory: ReloadAdvisory<S>, build: Id -> Option<S>)
    requires IsAdvisory(advisory, previous, next, failing) && AllBuild(previous, next, build)
    ensures Without(Without(cached, BuiltIds(Leading(advisory.updates))), Stale(previous, next, build))
         == Without(cached, Stale(previous, next, build))
  {
    var leading := Leading(advisory.updates);
    forall id | id in BuiltIds(leading)
      ensures id in Stale(previous, next, build)
    {
      var i :| 0 <= i < |leading| && leading[i].source.Some? && leading[i].id == id;
      assert advisory.updates[i] == leading[i];
    }
  }

  lemma SameTickAt<S>(a: map<Id, S>, b: map<Id, S>, previous: map<Id, Version>, next: map<Id, Version>,
                      build: Id -> Option<S>, id: Id)
    requires id in Changed(previous, next) + Added(previous, next) ==> build(id).Some?
    requires id !in Changed(previous, next) + Added(previous, next) ==>
              (id in a <==> id in b) && (id in a ==> a[id] == b[id])
    ensures id in Ticked(a, previous, next, build) <==> id in Ticked(b, previous, next, build)
    ensures id in Ticked(a, previous, next, build) ==>
              Ticked(a, previous, next, build)[id] == Ticked(b, previous, next, build)[id]
  {
  }

  lemma AbortedElsewhere<S>(sources: map<Id, S>, previous: map<Id, Version>, next: map<Id, Version>,
                            failing: Id -> Option<S>, advisory: ReloadAdvisory<S>, id: Id)
    requires IsAdvisory(advisory, previous, next, failing)
    requires id !in Changed(previous, next) + Added(previous, next)
    ensures id in AbortedRegistry(sources, advisory) <==> id in sources
    ensures id in sources ==> AbortedRegistry(sources, advisory)[id] == sources[id]
  {
    var updates, additions := Leading(advisory.updates), Leading(advisory.additions);
    assert forall i | 0 <= i < |updates| :: updates[i] == advisory.updates[i];
    assert forall i | 0 <= i < |additions| :: additions[i] == advisory.additions[i];
    InsertsElsewhere(sources, updates, id);
    InsertsElsewhere(PerformAll(sources, InsertOps(updates)), additions, id);
  }

  // ---------------------------------------------------------------- runs under Warn

  /** One tick of the trigger: the scan, unless it fails, and what building a source would give. */
  datatype Tick<!S> = Tick(scan: Option<map<Id, Version>>, build: Id -> Option<S>)

  datatype RunState<S> = RunState(baseline: Option<map<Id, Version>>, registry: map<Id, S>)

  function AfterTick<S>(state: RunState<S>, tick: Tick<S>): RunState<S> {
    if tick.scan.None? then state
    else if state.baseline.None? then state.(baseline := tick.scan)
    else RunState(tick.scan, Ticked(state.registry, state.baseline.value, tick.scan.value, tick.build))
  }

  /** Baseline and registry after a run, from any registry and with any baseline or none. */
  function After<S>(start: RunState<S>, ticks: seq<Tick<S>>): RunState<S> {
    if ticks == [] then start else AfterTick(After(start, ticks[..|ticks| - 1]), ticks[|ticks| - 1])
  }

  /** The latest successful scan, or the baseline of the start. */
  function LastScan<S>(baseline: Option<map<Id, Version>>, ticks: seq<Tick<S>>): Option<map<Id, Version>> {
    if ticks == [] then baseline
    else if ticks[|ticks| - 1].scan.Some? then ticks[|ticks| - 1].scan
    else LastScan(baseline, ticks[..|ticks| - 1])
  }

  lemma {:induction false} BaselineIsLastScan<S>(start: RunState<S>, ticks: seq<Tick<S>>)
    ensures After(start, ticks).baseline == LastScan(start.baseline, ticks)
  {
    if ticks == [] {
    } else {
      BaselineIsLastScan(start, ticks[..|ticks| - 1]);
    }
  }

  /** Tick `k` compares two scans. */
  predicate Compares<S>(baseline: Option<map<Id, Version>>, ticks: seq<Tick<S>>, k: nat)
    requires k < |ticks|
  {
    LastScan(baseline, ticks[..k]).Some? && ticks[k].scan.Some?
  }

  /** Tick `k` finds the id new or with a new version, and so tries to build it. */
  predicate Attempted<S>(baseline: Option<map<Id, Version>>, ticks: seq<Tick<S>>, k: nat, id: Id)
    requires k < |ticks|
  {
    Compares(baseline, ticks, k)
    && var previous, next := LastScan(baseline, ticks[..k]).value, ticks[k].scan.value;
       id in Changed(previous, next) + Added(previous, next)
  }

  /** Tick `k` no longer finds the id. */
  predicate Dropped<S>(baseline: Option<map<Id, Version>>, ticks: seq<Tick<S>>, k: nat, id: Id)
    requires k < |ticks|
  {
    Compares(baseline, ticks, k) && id in Removed(LastScan(baseline, ticks[..k]).value, ticks[k].scan.value)
  }

  /** Tick `k` leaves a live source of the id as it is. */
  predicate Keeps<S>(baseline: Option<map<Id, Version>>, ticks: seq<Tick<S>>, k: nat, id: Id)
    requires k < |ticks|
  {
    !Dropped(baseline, ticks, k, id) && (Attempted(baseline, ticks, k, id) ==> ticks[k].build(id) == None)
  }

  /** After `k` ticks the id serves `source` because of what happened last: it was there at the start, or
      tick `k - 1` built it. */
  predicate Installed<S(==)>(start: RunState<S>, ticks: seq<Tick<S>>, k: nat, id: Id, source: S)
    requires k <= |ticks|
  {
    if k == 0 then id in start.registry && start.registry[id] == source
    else Attempted(start.baseline, ticks, k - 1, id) && ticks[k - 1].build(id) == Some(source)
  }

  /** `source` was installed, and nothing has replaced or removed it since. */
  ghost predicate Serves<S>(start: RunState<S>, ticks: seq<Tick<S>>, id: Id, source: S) {
    exists k: nat :: IsLastInstall(start, ticks, k, id, source)
  }

  ghost predicate IsLastInstall<S>(start: RunState<S>, ticks: seq<Tick<S>>, k: nat, id: Id, source: S) {
    && k <= |ticks|
    && Installed(start, ticks, k, id, source)
    && forall j: nat | k <= j < |ticks| :: Keeps(start.baseline, ticks, j, id)
  }

  /** What a tick does to an id does not depend on the ticks after it. */
  lemma EarlierTicks<S>(start: RunState<S>, ticks: seq<Tick<S>>, j: nat, id: Id)
    requires j < |ticks| - 1
    ensures var init, b := ticks[..|ticks| - 1], start.baseline;
            && (Attempted(b, init, j, id) <==> Attempted(b, ticks, j, id))
            && (Keeps(b, init, j, id) <==> Keeps(b, ticks, j, id))
  {
    assert ticks[..|ticks| - 1][..j] == ticks[..j];
  }

  lemma InstallStep<S>(start: RunState<S>, ticks: seq<Tick<S>>, k: nat, id: Id, source: S)
    requires ticks != [] && k < |ticks|
    ensures var n := |ticks| - 1;
            IsLastInstall(start, ticks, k, id, source)
            <==> IsLastInstall(start, ticks[..n], k, id, source) && Keeps(start.baseline, ticks, n, id)
  {
    var n := |ticks| - 1;
    var init := ticks[..n];
    forall j: nat | j < n
      ensures Keeps(start.baseline, init, j, id) <==> Keeps(start.baseline, ticks, j, id)
    {
      EarlierTicks(start, ticks, j, id);
    }
    if k > 0 {
      EarlierTicks(start, ticks, k - 1, id);
    }
  }

  lemma ServesStep<S>(start: RunState<S>, ticks: seq<Tick<S>>, id: Id, source: S)
    requires ticks != []
    ensures var n := |ticks| - 1;
            Serves(start, ticks, id, source)
            <==> Installed(start, ticks, n + 1, id, source)
                 || (Serves(start, ticks[..n], id, source) && Keeps(start.baseline, ticks, n, id))
  {
    var n := |ticks| - 1;
    if k: nat :| IsLastInstall(start, ticks, k, id, source) {
      if k <= n {
        InstallStep(start, ticks, k, id, source);
      }
    }
    if Installed(start, ticks, n + 1, id, source) {
      assert IsLastInstall(start, ticks, n + 1, id, source);
    } else if k: nat :| IsLastInstall(start, ticks[..n], k, id, source) {
      InstallStep(start, ticks, k, id, source);
    }
  }

  /** Over any run under Warn, from any registry and with any baseline or none, the live source of an id is
      exactly the one that was installed last: the one of the start, or the last successful build, as
      long as no tick has dropped the id since. */
  lemma {:induction false} LiveIsLastInstall<S>(start: RunState<S>, ticks: seq<Tick<S>>, id: Id, source: S)
    ensures var registry := After(start, ticks).registry;
            (id in registry && registry[id] == source) <==> Serves(start, ticks, id, source)
  {
    if ticks == [] {
      assert Serves(start, ticks, id, source) <==> IsLastInstall(start, ticks, 0, id, source);
    } else {
      var n := |ticks| - 1;
      LiveIsLastInstall(start, ticks[..n], id, source);
      BaselineIsLastScan(start, ticks[..n]);
      ServesStep(start, ticks, id, source);
    }
  }

  // ---------------------------------------------------------------- live ids and the latest scan

  /** The id is in the baseline of the start or in some scan. */
  ghost predicate Known<S>(baseline: Option<map<Id, Version>>, ticks: seq<Tick<S>>, id: Id) {
    (baseline.Some? && id in baseline.value) || exists k :: ScannedAt(ticks, k, id)
  }

  predicate ScannedAt<S>(ticks: seq<Tick<S>>, k: int, id: Id) {
    0 <= k < |ticks| && ticks[k].scan.Some? && id in ticks[k].scan.value
  }

  lemma KnownStep<S>(baseline: Option<map<Id, Version>>, ticks: seq<Tick<S>>, id: Id)
    requires ticks != []
    ensures var n := |ticks| - 1;
            Known(baseline, ticks, id) <==> Known(baseline, ticks[..n], id) || ScannedAt(ticks, n, id)
  {
    var n := |ticks| - 1;
    var init := ticks[..n];
    if k :| ScannedAt(init, k, id) {
      assert ScannedAt(ticks, k, id);
    }
    if k :| ScannedAt(ticks, k, id) && k < n {
      assert ScannedAt(init, k, id);
    }
  }

  lemma {:induction false} LatestIsKnown<S>(baseline: Option<map<Id, Version>>, ticks: seq<Tick<S>>, id: Id)
    requires LastScan(baseline, ticks).Some? && id in LastScan(baseline, ticks).value
    ensures Known(baseline, ticks, id)
  {
    if ticks == [] {
    } else {
      var n := |ticks| - 1;
      KnownStep(baseline, ticks, id);
      if ticks[n].scan.Some? {
        assert ScannedAt(ticks, n, id);
      } else {
        LatestIsKnown(baseline, ticks[..n], id);
      }
    }
  }


  /** Ids that the reloader never sees stay as they are. */
  lemma {:induction false} OthersUntouched<S>(start: RunState<S>, ticks: seq<Tick<S>>, id: Id)
    requires !Known(start.baseline, ticks, id)
    ensures id in After(start, ticks).registry <==> id in start.registry
    ensures id in start.registry ==> After(start, ticks).registry[id] == start.registry[id]
  {
    if ticks == [] {
    } else {
      var init := ticks[..|ticks| - 1];
      KnownStep(start.baseline, ticks, id);
      OthersUntouched(start, init, id);
      BaselineIsLastScan(start, init);
      if LastScan(start.baseline, init).Some? && id in LastScan(start.baseline, init).value {
        LatestIsKnown(start.baseline, init, id);
      }
      assert !ScannedAt(ticks, |ticks| - 1, id);
    }
  }

  /** Ids that it has seen are live only while they are in the latest scan. */
  lemma {:induction false} KnownIdsAreScanned<S>(start: RunState<S>, ticks: seq<Tick<S>>, id: Id)
    requires Known(start.baseline, ticks, id) && id in After(start, ticks).registry
    requires LastScan(start.baseline, ticks).Some?
    ensures id in LastScan(start.baseline, ticks).value
  {
    if ticks == [] {
    } else {
      var init := ticks[..|ticks| - 1];
      KnownStep(start.baseline, ticks, id);
      BaselineIsLastScan(start, init);
      if Known(start.baseline, init, id) {
        KnownHasScan(start.baseline, init, id);
        if id in After(start, init).registry {
          KnownIdsAreScanned(start, init, id);
        }
      }
    }
  }

  lemma {:induction false} KnownHasScan<S>(baseline: Option<map<Id, Version>>, ticks: seq<Tick<S>>, id: Id)
    requires Known(baseline, ticks, id)
    ensures LastScan(baseline, ticks).Some?
  {
    if ticks == [] {
    } else {
      KnownStep(baseline, ticks, id);
      if Known(baseline, ticks[..|ticks| - 1], id) {
        KnownHasScan(baseline, ticks[..|ticks| - 1], id);
      }
    }
  }

  /** When the live ids of a reloader are all in its latest scan: if and only if every id of its own that
      was live at the start was in the recorded baseline, or has been scanned since. */
  lemma LiveIdsAreScanned<S>(start: RunState<S>, ticks: seq<Tick<S>>, own: set<Id>)
    requires LastScan(start.baseline, ticks).Some?
    ensures (forall id | id in own && id in After(start, ticks).registry :: id in LastScan(start.baseline, ticks).value)
       <==> (forall id | id in own && id in start.registry :: Known(start.baseline, ticks, id))
  {
    forall id
      ensures id in After(start, ticks).registry && id !in LastScan(start.baseline, ticks).value
         <==> id in start.registry && !Known(start.baseline, ticks, id)
    {
      if Known(start.baseline, ticks, id) {
        if id in After(start, ticks).registry {
          KnownIdsAreScanned(start, ticks, id);
        }
      } else {
        OthersUntouched(start, ticks, id);
        if id in LastScan(start.baseline, ticks).value {
          LatestIsKnown(start.baseline, ticks, id);
        }
      }
    }
  }

  /** A deferred baseline does break it: the first scan failed, a source vanished before the next one, and
      it stays live although no scan has it. */
  lemma DeferredBaselineKeeps<S>(source: S, build: Id -> Option<S>)
    ensures var start := RunState(None, map["a" := source]);
            var ticks := [Tick(Some(map[]), build), Tick(Some(map[]), build)];
            && LastScan(start.baseline, ticks) == Some(map[])
            && "a" in After(start, ticks).registry
  {
    var start := RunState(None, map["a" := source]);
    var ticks := [Tick(Some(map[]), build), Tick(Some(map[]), build)];
    assert forall k :: !ScannedAt(ticks, k, "a");
    OthersUntouched(start, ticks, "a");
  }

  /** A source that could not be built is not tried again while its version stays: the baseline has
      moved on. */
  lemma {:induction false} FailedAdditionStaysAway<S>(start: RunState<S>, ticks: seq<Tick<S>>, k: nat, id: Id)
    requires k < |ticks| && ScannedAt(ticks, k, id)
    requires id !in After(start, ticks[..k]).registry && ticks[k].build(id) == None
    requires forall j | k <= j < |ticks| && ticks[j].scan.Some? ::
              ScannedAt(ticks, j, id) && ticks[j].scan.value[id] == ticks[k].scan.value[id]
    ensures id !in After(start, ticks).registry
    ensures LastScan(start.baseline, ticks).Some? && id in LastScan(start.baseline, ticks).value
    ensures LastScan(start.baseline, ticks).value[id] == ticks[k].scan.value[id]
  {
    var n := |ticks| - 1;
    var init := ticks[..n];
    BaselineIsLastScan(start, init);
    if n == k {
    } else {
      assert init[..k] == ticks[..k];
      assert forall j | 0 <= j < n :: init[j] == ticks[j];
      FailedAdditionStaysAway(start, init, k, id);
    }
  }
}
