/** `reload.rs`, `tile_source_manager.rs` and the reconcile loop: what changed between two scans, and
    how the live registry follows. */
module Reload {
  import opened Sql

  type Id = string
  type Version = int

  /** A source to add or update; `None` when building it failed. */
  datatype NewSource<+S> = NewSource(id: Id, source: Option<S>)

  datatype ReloadAdvisory<+S> = ReloadAdvisory(additions: seq<NewSource<S>>, updates: seq<NewSource<S>>,
                                               removals: set<Id>)
  {
    predicate IsEmpty() {
      additions == [] && updates == [] && removals == {}
    }
  }

  /** The entries are for exactly these ids, each once, and carry what building them gave. */
  ghost predicate IsBuilt<S>(news: seq<NewSource<S>>, ids: set<Id>, build: Id -> Option<S>) {
    && (forall i | 0 <= i < |news| :: news[i].id in ids && news[i] == NewSource(news[i].id, build(news[i].id)))
    && (forall i, j | 0 <= i < j < |news| :: news[i].id != news[j].id)
    && (forall id | id in ids :: HasEntry(news, id))
  }

  ghost predicate HasEntry<S>(news: seq<NewSource<S>>, id: Id) {
    exists i :: 0 <= i < |news| && news[i].id == id
  }

  lemma BuildOneMore<S>(news: seq<NewSource<S>>, ids: set<Id>, id: Id, build: Id -> Option<S>)
    requires IsBuilt(news, ids, build) && id !in ids
    ensures IsBuilt(news + [NewSource(id, build(id))], ids + {id}, build)
  {
    var news' := news + [NewSource(id, build(id))];
    forall other | other in ids + {id}
      ensures HasEntry(news', other)
    {
      if other == id {
        assert news'[|news|].id == id;
      } else {
        assert HasEntry(news, other);
        var i :| 0 <= i < |news| && news[i].id == other;
        assert news'[i].id == other;
      }
    }
  }

  function Added(previous: map<Id, Version>, next: map<Id, Version>): set<Id> {
    next.Keys - previous.Keys
  }

  function Changed(previous: map<Id, Version>, next: map<Id, Version>): set<Id> {
    set id | id in previous && id in next && previous[id] != next[id]
  }

  function Removed(previous: map<Id, Version>, next: map<Id, Version>): set<Id> {
    previous.Keys - next.Keys
  }

  /** Unversioned sources: appearing is an addition, disappearing a removal. */
  method FromSets<S>(previous: set<Id>, next: set<Id>, build: Id -> Option<S>) returns (advisory: ReloadAdvisory<S>)
    ensures advisory.removals == previous - next && advisory.updates == []
    ensures IsBuilt(advisory.additions, next - previous, build)
  {
    var additions: seq<NewSource<S>> := [];
    var todo := next - previous;
    while todo != {}
      invariant todo <= next - previous
      invariant IsBuilt(additions, next - previous - todo, build)
    {
      var id :| id in todo;
      BuildOneMore(additions, next - previous - todo, id, build);
      additions := additions + [NewSource(id, build(id))];
      todo := todo - {id};
      assert next - previous - todo == next - previous - (todo + {id}) + {id};
    }
    advisory := ReloadAdvisory(additions, [], previous - next);
  }

  /** Versioned sources: a changed version is an update. */
  method FromMaps<S>(previous: map<Id, Version>, next: map<Id, Version>, build: Id -> Option<S>)
    returns (advisory: ReloadAdvisory<S>)
    ensures advisory.removals == Removed(previous, next)
    ensures IsBuilt(advisory.updates, Changed(previous, next), build)
    ensures IsBuilt(advisory.additions, Added(previous, next), build)
  {
    var removals: set<Id> := {};
    var todo := previous.Keys;
    while todo != {}
      invariant todo <= previous.Keys && removals == previous.Keys - todo - next.Keys
    {
      var id :| id in todo;
      if id !in next {
        removals := removals + {id};
      }
      todo := todo - {id};
    }
    var additions: seq<NewSource<S>>, updates: seq<NewSource<S>> := [], [];
    todo := next.Keys;
    while todo != {}
      invariant todo <= next.Keys
      invariant IsBuilt(updates, Changed(previous, next) - todo, build)
      invariant IsBuilt(additions, Added(previous, next) - todo, build)
    {
      var id :| id in todo;
      ghost var rest := todo - {id};
      if id in previous {
        assert Added(previous, next) - rest == Added(previous, next) - todo;
        if next[id] != previous[id] {
          BuildOneMore(updates, Changed(previous, next) - todo, id, build);
          assert Changed(previous, next) - rest == Changed(previous, next) - todo + {id};
          updates := updates + [NewSource(id, build(id))];
        } else {
          assert Changed(previous, next) - rest == Changed(previous, next) - todo;
        }
      } else {
        assert Changed(previous, next) - rest == Changed(previous, next) - todo;
        BuildOneMore(additions, Added(previous, next) - todo, id, build);
        assert Added(previous, next) - rest == Added(previous, next) - todo + {id};
        additions := additions + [NewSource(id, build(id))];
      }
      todo := todo - {id};
    }
    assert Changed(previous, next) - todo == Changed(previous, next);
    assert Added(previous, next) - todo == Added(previous, next);
    advisory := ReloadAdvisory(additions, updates, removals);
  }

  // ---------------------------------------------------------------- applying an advisory

  datatype OnInvalid = Abort | Warn

  /** A cached tile: the source it came from, and the rest of its key. */
  datatype CacheKey = CacheKey(sourceId: Id, rest: int)

  /** The atomic operations on the shared registry. */
  datatype Op<+S> = Insert(id: Id, source: S) | Remove(id: Id)

  function Perform<S>(registry: map<Id, S>, op: Op<S>): map<Id, S> {
    match op
    case Insert(id, source) => registry[id := source]
    case Remove(id) => registry - {id}
  }

  function PerformAll<S>(registry: map<Id, S>, ops: seq<Op<S>>): map<Id, S> {
    if ops == [] then registry else Perform(PerformAll(registry, ops[..|ops| - 1]), ops[|ops| - 1])
  }

  lemma PerformAppend<S>(registry: map<Id, S>, ops: seq<Op<S>>, op: Op<S>)
    ensures PerformAll(registry, ops + [op]) == Perform(PerformAll(registry, ops), op)
  {
    assert (ops + [op])[..|ops|] == ops;
  }

  /** What one more entry does. */
  lemma InsertOneMore<S>(registry: map<Id, S>, news: seq<NewSource<S>>, i: nat)
    requires i < |news|
    ensures var before := PerformAll(registry, InsertOps(news[..i]));
            PerformAll(registry, InsertOps(news[..i + 1]))
            == if news[i].source.Some? then before[news[i].id := news[i].source.value] else before
  {
    assert news[..i + 1][..i] == news[..i];
    if news[i].source.Some? {
      PerformAppend(registry, InsertOps(news[..i]), Insert(news[i].id, news[i].source.value));
    } else {
      assert InsertOps(news[..i + 1]) == InsertOps(news[..i]) + [] == InsertOps(news[..i]);
    }
  }

  predicate AllBuilt<S>(news: seq<NewSource<S>>) {
    forall i | 0 <= i < |news| :: news[i].source.Some?
  }

  /** The entries before the first one that was not built. */
  function Leading<S>(news: seq<NewSource<S>>): (leading: seq<NewSource<S>>)
    ensures leading <= news && AllBuilt(leading)
    ensures leading == news || news[|leading|].source.None?
  {
    if news == [] then []
    else
      var init := Leading(news[..|news| - 1]);
      if |init| == |news| - 1 && news[|news| - 1].source.Some? then news else init
  }

  lemma LeadingEnds<S>(news: seq<NewSource<S>>, n: nat)
    requires n < |news| && AllBuilt(news[..n]) && news[n].source.None?
    ensures Leading(news) == news[..n] && !AllBuilt(news)
  {
    var leading := Leading(news);
    assert forall i | 0 <= i < |leading| :: news[i] == leading[i];
    assert forall i | 0 <= i < n :: news[i] == news[..n][i];
  }

  /** The registry after an advisory that ended at its first failure: everything before it was inserted,
      nothing was removed. */
  function AbortedRegistry<S>(before: map<Id, S>, advisory: ReloadAdvisory<S>): map<Id, S> {
    var updated := PerformAll(before, InsertOps(Leading(advisory.updates)));
    if AllBuilt(advisory.updates) then PerformAll(updated, InsertOps(Leading(advisory.additions))) else updated
  }

  /** The ids of the entries that were built. */
  function BuiltIds<S>(news: seq<NewSource<S>>): set<Id> {
    set i | 0 <= i < |news| && news[i].source.Some? :: news[i].id
  }

  /** The ids whose cached tiles go when the entries are inserted. */
  function Invalidated<S>(news: seq<NewSource<S>>, invalidate: bool): set<Id> {
    if invalidate then BuiltIds(news) else {}
  }

  /** Insert what was built, one after the other. */
  function InsertOps<S>(news: seq<NewSource<S>>): seq<Op<S>> {
    if news == [] then []
    else
      var last := news[|news| - 1];
      InsertOps(news[..|news| - 1]) + if last.source.Some? then [Insert(last.id, last.source.value)] else []
  }

  /** The cached tiles that come from other sources. */
  function Without(cached: set<CacheKey>, ids: set<Id>): set<CacheKey> {
    set key | key in cached && key.sourceId !in ids
  }

  lemma WithoutTwice(cached: set<CacheKey>, ids: set<Id>, id: Id)
    ensures Without(Without(cached, ids), {id}) == Without(cached, ids + {id})
    ensures Without(cached, {}) == cached
  {
  }

  class TileSourceManager<S> {
    var sources: map<Id, S>
    var cached: set<CacheKey>
    const onInvalid: OnInvalid

    constructor (onInvalid: OnInvalid)
      ensures sources == map[] && cached == {} && this.onInvalid == onInvalid
    {
      this.onInvalid := onInvalid;
      sources, cached := map[], {};
    }

    method InvalidateSource(id: Id)
      modifies this`cached
      ensures cached == Without(old(cached), {id})
      ensures forall key :: key in cached <==> key in old(cached) && key.sourceId != id
    {
      cached := Without(cached, {id});
    }

    method InsertSource(entry: NewSource<S>, invalidate: bool) returns (ok: bool)
      modifies this
      ensures ok <==> onInvalid == Warn || entry.source.Some?
      ensures sources == if entry.source.Some? then old(sources)[entry.id := entry.source.value] else old(sources)
      ensures cached == if invalidate && entry.source.Some? then Without(old(cached), {entry.id}) else old(cached)
    {
      if entry.source.Some? {
        if invalidate {
          InvalidateSource(entry.id);
        }
        sources := sources[entry.id := entry.source.value];
        return true;
      }
      ok := onInvalid == Warn;
    }

    /** Insert the entries in order. Under Abort the first failure ends it, under Warn it is skipped.
        Replacing a source drops its cached tiles, and no others. */
    method InsertSources(news: seq<NewSource<S>>, invalidate: bool) returns (ok: bool)
      modifies this
      ensures ok <==> onInvalid == Warn || AllBuilt(news)
      ensures ok ==> sources == PerformAll(old(sources), InsertOps(news))
      ensures ok ==> cached == Without(old(cached), Invalidated(news, invalidate))
      ensures !ok ==> sources == PerformAll(old(sources), InsertOps(Leading(news)))
      ensures !ok ==> cached == Without(old(cached), Invalidated(Leading(news), invalidate))
      ensures !invalidate ==> cached == old(cached)
      ensures ok && invalidate ==>
                forall key :: key in cached <==> key in old(cached) && !IsReplaced(news, |news|, key.sourceId)
      ensures !ok && invalidate ==>
                forall key ::
                  key in cached <==> key in old(cached) && !IsReplaced(news, |Leading(news)|, key.sourceId)
    {
      WithoutTwice(cached, {}, "");
      KeysLeft(cached, news);
      for i := 0 to |news|
        invariant sources == PerformAll(old(sources), InsertOps(news[..i]))
        invariant cached == Without(old(cached), Invalidated(news[..i], invalidate))
        invariant onInvalid == Abort ==> AllBuilt(news[..i])
      {
        InvalidateOneMore(old(cached), news, i, invalidate);
        InsertOneMore(old(sources), news, i);
        ok := InsertSource(news[i], invalidate);
        if !ok {
          LeadingEnds(news, i);
          return;
        }
      }
      assert news[..|news|] == news;
      return true;
    }

    method RemoveSources(removals: set<Id>)
      modifies this
      ensures sources == old(sources) - removals
      ensures cached == Without(old(cached), removals)
      ensures forall key :: key in cached <==> key in old(cached) && key.sourceId !in removals
    {
      WithoutTwice(cached, {}, "");
      var todo := removals;
      while todo != {}
        invariant todo <= removals
        invariant sources == old(sources) - (removals - todo)
        invariant cached == Without(old(cached), removals - todo)
      {
        var id :| id in todo;
        WithoutTwice(old(cached), removals - todo, id);
        assert removals - (todo - {id}) == removals - todo + {id};
        sources := sources - {id};
        InvalidateSource(id);
        todo := todo - {id};
      }
    }

    /** Updates, then additions, then removals. A cached tile goes exactly when its source was replaced by
        an update or removed; so unless an addition replaces a source that was already live, the tiles that
        stay cached come from sources that stay as they were. */
    method ApplyChanges(advisory: ReloadAdvisory<S>) returns (ok: bool)
      modifies this
      ensures ok <==> onInvalid == Warn || (AllBuilt(advisory.updates) && AllBuilt(advisory.additions))
      ensures ok ==> sources == Applied(old(sources), advisory)
      ensures ok ==> cached == Without(old(cached), BuiltIds(advisory.updates) + advisory.removals)
      ensures !ok ==> sources == AbortedRegistry(old(sources), advisory)
      ensures !ok ==> cached == Without(old(cached), BuiltIds(Leading(advisory.updates)))
      ensures ok ==>
                forall key ::
                  key in cached <==>
                  && key in old(cached) && key.sourceId !in advisory.removals
                  && forall i | 0 <= i < |advisory.updates| && advisory.updates[i].source.Some? ::
                       advisory.updates[i].id != key.sourceId
      ensures !ok ==>
                forall key ::
                  key in cached <==>
                  && key in old(cached)
                  && forall i | 0 <= i < |Leading(advisory.updates)| :: advisory.updates[i].id != key.sourceId
      ensures AdditionsAreNew(old(sources), advisory) ==> IsCoherent(old(sources), sources, cached)
    {
      CacheLaw(cached, advisory);
      CacheStaysCoherent(sources, cached, advisory);
      if advisory.IsEmpty() {
        assert Applied(sources, advisory) == sources;
        return true;
      }
      ok := InsertSources(advisory.updates, true);
      if !ok {
        return;
      }
      ok := InsertSources(advisory.additions, false);
      if !ok {
        return;
      }
      RemoveSources(advisory.removals);
    }
  }

  /** One of the first `n` entries replaces the source. */
  predicate IsReplaced<S>(news: seq<NewSource<S>>, n: int, id: Id)
    requires 0 <= n <= |news|
  {
    exists i :: 0 <= i < n && news[i].id == id && news[i].source.Some?
  }

  lemma ReplacedIds<S>(news: seq<NewSource<S>>, n: nat)
    requires n <= |news|
    ensures forall id :: id in BuiltIds(news[..n]) <==> IsReplaced(news, n, id)
  {
    forall id | IsReplaced(news, n, id)
      ensures id in BuiltIds(news[..n])
    {
      var i :| 0 <= i < n && news[i].id == id && news[i].source.Some?;
      assert news[..n][i] == news[i];
    }
  }

  /** The cached tiles that are left when all entries were inserted, or those before the first failure. */
  lemma KeysLeft<S>(cached: set<CacheKey>, news: seq<NewSource<S>>)
    ensures forall key :: key in Without(cached, BuiltIds(news)) <==>
              key in cached && !IsReplaced(news, |news|, key.sourceId)
    ensures forall key :: key in Without(cached, BuiltIds(Leading(news))) <==>
              key in cached && !IsReplaced(news, |Leading(news)|, key.sourceId)
  {
    assert news[..|news|] == news && news[..|Leading(news)|] == Leading(news);
    ReplacedIds(news, |news|);
    ReplacedIds(news, |Leading(news)|);
  }

  /** Which cached tiles an advisory leaves, key by key. */
  lemma CacheLaw<S>(cached: set<CacheKey>, advisory: ReloadAdvisory<S>)
    ensures forall key ::
              key in Without(cached, BuiltIds(advisory.updates) + advisory.removals) <==>
              && key in cached && key.sourceId !in advisory.removals
              && forall i | 0 <= i < |advisory.updates| && advisory.updates[i].source.Some? ::
                   advisory.updates[i].id != key.sourceId
    ensures forall key ::
              key in Without(cached, BuiltIds(Leading(advisory.updates))) <==>
              && key in cached
              && forall i | 0 <= i < |Leading(advisory.updates)| :: advisory.updates[i].id != key.sourceId
  {
    KeysLeft(cached, advisory.updates);
    assert forall i | 0 <= i < |Leading(advisory.updates)| :: advisory.updates[i] == Leading(advisory.updates)[i];
  }

  /** No addition that was built replaces a live source. */
  predicate AdditionsAreNew<S>(sources: map<Id, S>, advisory: ReloadAdvisory<S>) {
    forall i | 0 <= i < |advisory.additions| && advisory.additions[i].source.Some? ::
      advisory.additions[i].id !in sources
  }

  /** The cached tiles of sources that were live before come from sources that are still live as they were. */
  ghost predicate IsCoherent<S>(before: map<Id, S>, after: map<Id, S>, cached: set<CacheKey>) {
    forall key | key in cached && key.sourceId in before ::
      key.sourceId in after && after[key.sourceId] == before[key.sourceId]
  }

  lemma CacheStaysCoherent<S>(sources: map<Id, S>, cached: set<CacheKey>, advisory: ReloadAdvisory<S>)
    ensures AdditionsAreNew(sources, advisory) ==>
              && IsCoherent(sources, Applied(sources, advisory),
                            Without(cached, BuiltIds(advisory.updates) + advisory.removals))
              && IsCoherent(sources, AbortedRegistry(sources, advisory),
                            Without(cached, BuiltIds(Leading(advisory.updates))))
  {
    if AdditionsAreNew(sources, advisory) {
      CacheIsCoherent(sources, cached, advisory);
    }
  }

  /** A cached tile that is left comes from a source that is still live as it was, unless an addition
      replaced a live source. */
  lemma CacheIsCoherent<S>(sources: map<Id, S>, cached: set<CacheKey>, advisory: ReloadAdvisory<S>)
    requires AdditionsAreNew(sources, advisory)
    ensures forall key | key in Without(cached, BuiltIds(advisory.updates) + advisory.removals)
                         && key.sourceId in sources ::
              key.sourceId in Applied(sources, advisory)
              && Applied(sources, advisory)[key.sourceId] == sources[key.sourceId]
    ensures forall key | key in Without(cached, BuiltIds(Leading(advisory.updates))) && key.sourceId in sources ::
              key.sourceId in AbortedRegistry(sources, advisory)
              && AbortedRegistry(sources, advisory)[key.sourceId] == sources[key.sourceId]
  {
    CacheLaw(cached, advisory);
    var leading := Leading(advisory.updates);
    forall key | key in Without(cached, BuiltIds(advisory.updates) + advisory.removals) && key.sourceId in sources
      ensures key.sourceId in Applied(sources, advisory)
      ensures Applied(sources, advisory)[key.sourceId] == sources[key.sourceId]
    {
      InsertsElsewhere(sources, advisory.updates, key.sourceId);
      InsertsElsewhere(PerformAll(sources, InsertOps(advisory.updates)), advisory.additions, key.sourceId);
    }
    forall key | key in Without(cached, BuiltIds(leading)) && key.sourceId in sources
      ensures key.sourceId in AbortedRegistry(sources, advisory)
      ensures AbortedRegistry(sources, advisory)[key.sourceId] == sources[key.sourceId]
    {
      InsertsElsewhere(sources, leading, key.sourceId);
      InsertsElsewhere(PerformAll(sources, InsertOps(leading)), Leading(advisory.additions), key.sourceId);
    }
  }

  /** An addition does replace a live source with the same id, and then the old tiles stay cached. */
  lemma AdditionKeepsOldTiles<S>(id: Id, older: S, newer: S, rest: int)
    ensures var advisory := ReloadAdvisory([NewSource(id, Some(newer))], [], {});
            && Applied(map[id := older], advisory) == map[id := newer]
            && Without({CacheKey(id, rest)}, BuiltIds(advisory.updates) + advisory.removals) == {CacheKey(id, rest)}
  {
    var entry := NewSource(id, Some(newer));
    OneInsert(map[id := older], entry);
    WithoutTwice({CacheKey(id, rest)}, {}, id);
    var advisory := ReloadAdvisory([entry], [], {});
    assert BuiltIds(advisory.updates) + advisory.removals == {};
    assert map[id := older][id := newer] == map[id := newer];
  }

  lemma OneInsert<S>(registry: map<Id, S>, entry: NewSource<S>)
    requires entry.source.Some?
    ensures PerformAll(registry, InsertOps([])) == registry
    ensures PerformAll(registry, InsertOps([entry])) == registry[entry.id := entry.source.value]
  {
    assert [entry][..0] == [] && [entry][..1] == [entry];
    InsertOneMore(registry, [entry], 0);
  }

  lemma InvalidateOneMore<S>(cached: set<CacheKey>, news: seq<NewSource<S>>, i: nat, invalidate: bool)
    requires i < |news|
    ensures var before := Without(cached, Invalidated(news[..i], invalidate));
            Without(cached, Invalidated(news[..i + 1], invalidate))
            == if invalidate && news[i].source.Some? then Without(before, {news[i].id}) else before
  {
    BuiltIdsExtend(news, i);
    WithoutTwice(cached, BuiltIds(news[..i]), news[i].id);
  }

  lemma BuiltIdsExtend<S>(news: seq<NewSource<S>>, i: nat)
    requires i < |news|
    ensures BuiltIds(news[..i + 1]) == BuiltIds(news[..i]) + (if news[i].source.Some? then {news[i].id} else {})
  {
    var longer, shorter := news[..i + 1], news[..i];
    forall id | id in BuiltIds(shorter)
      ensures id in BuiltIds(longer)
    {
      var k :| 0 <= k < |shorter| && shorter[k].source.Some? && shorter[k].id == id;
      assert longer[k] == shorter[k];
    }
    assert news[i].source.Some? ==> longer[i].id in BuiltIds(longer);
  }

  /** Inserting entries leaves all other ids alone, and those whose entries were not built. */
  lemma {:induction false} InsertsElsewhere<S>(registry: map<Id, S>, news: seq<NewSource<S>>, id: Id)
    requires forall i | 0 <= i < |news| && news[i].source.Some? :: news[i].id != id
    ensures id in PerformAll(registry, InsertOps(news)) <==> id in registry
    ensures id in registry ==> PerformAll(registry, InsertOps(news))[id] == registry[id]
  {
    if news == [] {
    } else {
      var init, last := news[..|news| - 1], news[|news| - 1];
      InsertsElsewhere(registry, init, id);
      if last.source.Some? {
        PerformAppend(registry, InsertOps(init), Insert(last.id, last.source.value));
      } else {
        assert InsertOps(init) + [] == InsertOps(init);
      }
    }
  }

  /** The registry after an advisory whose failures were skipped or did not occur. */
  function Applied<S>(registry: map<Id, S>, advisory: ReloadAdvisory<S>): map<Id, S> {
    PerformAll(PerformAll(registry, InsertOps(advisory.updates)), InsertOps(advisory.additions)) - advisory.removals
  }
}
