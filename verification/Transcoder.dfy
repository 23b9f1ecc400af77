/** `transcoder.rs`: both pipelines, stage by stage. The channels between the stages are first-in
    first-out with one end each, so the stages compose like functions on the batches they exchange. */
module Transcoder {
  import opened Sql
  import opened Tilesets
  import opened Layouts
  import opened TileCoords

  /** The tile transform; `None` is an error, and the tile is skipped. */
  type Transform = Bytes -> Option<Bytes>

  datatype RawTile = RawTile(coord: ValidCoord, key: Option<int>, data: Bytes)
  datatype EncodedTile = EncodedTile(coord: ValidCoord, data: Bytes)

  function Concat<T>(batches: seq<seq<T>>): seq<T> {
    if batches == [] then [] else Concat(batches[..|batches| - 1]) + batches[|batches| - 1]
  }

  lemma ConcatAppend<T>(batches: seq<seq<T>>, batch: seq<T>)
    ensures Concat(batches + [batch]) == Concat(batches) + batch
  {
    assert (batches + [batch])[..|batches|] == batches;
  }

  /** `filter_map`: the results that are there, in order. */
  function FilterMap<A, B>(items: seq<A>, f: A -> Option<B>): seq<B> {
    if items == [] then []
    else
      var last := f(items[|items| - 1]);
      FilterMap(items[..|items| - 1], f) + if last.Some? then [last.value] else []
  }

  lemma {:induction false} FilterMapConcat<A, B>(a: seq<A>, b: seq<A>, f: A -> Option<B>)
    ensures FilterMap(a + b, f) == FilterMap(a, f) + FilterMap(b, f)
  {
    if b == [] {
      assert a + b == a;
    } else {
      assert (a + b)[..|a + b| - 1] == a + b[..|b| - 1];
      FilterMapConcat(a, b[..|b| - 1], f);
    }
  }

  /** Every result comes from an item, in order, and every successful item gives a result. */
  lemma {:induction false} FilterMapOrigins<A, B>(items: seq<A>, f: A -> Option<B>) returns (origins: seq<nat>)
    ensures |origins| == |FilterMap(items, f)|
    ensures forall j | 0 <= j < |origins| ::
              origins[j] < |items| && f(items[origins[j]]) == Some(FilterMap(items, f)[j])
    ensures forall j, k | 0 <= j < k < |origins| :: origins[j] < origins[k]
    ensures forall i | 0 <= i < |items| && f(items[i]).Some? :: exists j :: 0 <= j < |origins| && origins[j] == i
  {
    origins := [];
    if items == [] {
    } else {
      var init, item := items[..|items| - 1], items[|items| - 1];
      var before := FilterMapOrigins(init, f);
      assert items == init + [item];
      assert AreOrigins(init, f, FilterMap(init, f), before);
      if f(item).None? {
        assert FilterMap(items, f) == FilterMap(init, f) + [] == FilterMap(init, f);
        origins := before;
      } else {
        origins := before + [|init|];
      }
      OriginsMore(init, f, FilterMap(init, f), before, item);
      assert AreOrigins(items, f, FilterMap(items, f), origins);
    }
  }

  ghost predicate AreOrigins<A, B>(items: seq<A>, f: A -> Option<B>, results: seq<B>, origins: seq<nat>) {
    && |origins| == |results|
    && (forall j | 0 <= j < |origins| :: origins[j] < |items| && f(items[origins[j]]) == Some(results[j]))
    && (forall j, k | 0 <= j < k < |origins| :: origins[j] < origins[k])
    && (forall i | 0 <= i < |items| && f(items[i]).Some? :: exists j :: 0 <= j < |origins| && origins[j] == i)
  }

  lemma OriginsMore<A, B>(items: seq<A>, f: A -> Option<B>, results: seq<B>, origins: seq<nat>, item: A)
    requires AreOrigins(items, f, results, origins)
    ensures f(item).None? ==> AreOrigins(items + [item], f, results, origins)
    ensures f(item).Some? ==> AreOrigins(items + [item], f, results + [f(item).value], origins + [|items|])
  {
    var more, last := items + [item], |items|;
    forall i | 0 <= i < last && f(more[i]).Some?
      ensures exists j :: 0 <= j < |origins| && origins[j] == i && (origins + [last])[j] == i
    {
      assert more[i] == items[i];
      var j :| 0 <= j < |origins| && origins[j] == i;
      assert (origins + [last])[j] == i;
    }
    assert (origins + [last])[|origins|] == last;
  }

  // ---------------------------------------------------------------- the result, independent of batches

  /** What transcoding is meant to produce: the transform on every tile of the view, failures dropped. */
  function Transcoded(tiles: Tileset, transform: Transform): Tileset {
    map c | c in tiles && tiles[c].Some? && transform(tiles[c].value).Some? :: transform(tiles[c].value)
  }

  /** The rows whose coordinates denote a tile. */
  function Possible(tiles: Tileset): Tileset {
    map c | c in tiles && IsPossibleRow(c) :: tiles[c]
  }

  // ---------------------------------------------------------------- general path: reader

  /** The cache key that a row brings along. */
  function RowKey(row: Row, fromHex: string -> Option<int>): Option<int> {
    if row.hash.None? || |row.hash.value| != 32 then None else fromHex(row.hash.value)
  }

  /** What the reader makes of one row: rows without data or with impossible coordinates are dropped. */
  function ReadRow(c: Coord, row: Row, withHash: bool, fromHex: string -> Option<int>): Option<RawTile> {
    var coord := ParseTileIndex(c);
    if row.data.None? || coord.None? then None
    else Some(RawTile(coord.value, if withHash then RowKey(row, fromHex) else None, row.data.value))
  }

  /** A tile that was read from its row. */
  ghost predicate ReadFrom(rows: Rows, withHash: bool, fromHex: string -> Option<int>, tile: RawTile) {
    ToRow(tile.coord) in rows && ReadRow(ToRow(tile.coord), rows[ToRow(tile.coord)], withHash, fromHex) == Some(tile)
  }

  ghost predicate HasTileAt(tiles: seq<RawTile>, c: Coord) {
    exists i :: 0 <= i < |tiles| && ToRow(tiles[i].coord) == c
  }

  /** The tiles were read from the rows, each readable row exactly once. */
  ghost predicate IsReading(rows: Rows, withHash: bool, fromHex: string -> Option<int>, tiles: seq<RawTile>) {
    && (forall i | 0 <= i < |tiles| :: ReadFrom(rows, withHash, fromHex, tiles[i]))
    && (forall i, j | 0 <= i < j < |tiles| :: tiles[i].coord != tiles[j].coord)
    && (forall c | c in rows && ReadRow(c, rows[c], withHash, fromHex).Some? :: HasTileAt(tiles, c))
  }

  lemma ReadOneMore(rows: Rows, done: Rows, c: Coord, withHash: bool, fromHex: string -> Option<int>,
                    tiles: seq<RawTile>)
    requires IsReading(done, withHash, fromHex, tiles) && c in rows && c !in done
    ensures var tile := ReadRow(c, rows[c], withHash, fromHex);
            IsReading(done[c := rows[c]], withHash, fromHex, if tile.Some? then tiles + [tile.value] else tiles)
  {
    var tile := ReadRow(c, rows[c], withHash, fromHex);
    var done' := done[c := rows[c]];
    var tiles' := if tile.Some? then tiles + [tile.value] else tiles;
    forall i | 0 <= i < |tiles|
      ensures ReadFrom(done', withHash, fromHex, tiles'[i]) && ToRow(tiles'[i].coord) != c
    {
      assert ReadFrom(done, withHash, fromHex, tiles[i]);
    }
    if tile.Some? {
      RowRoundTrip(c, tile.value.coord);
      assert tiles'[|tiles|] == tile.value && ReadFrom(done', withHash, fromHex, tile.value);
    }
    forall d | d in done' && ReadRow(d, done'[d], withHash, fromHex).Some?
      ensures HasTileAt(tiles', d)
    {
      if d == c {
        assert ToRow(tiles'[|tiles|].coord) == c;
      } else {
        assert HasTileAt(tiles, d);
        var i :| 0 <= i < |tiles| && ToRow(tiles[i].coord) == d;
        assert ToRow(tiles'[i].coord) == d;
      }
    }
  }

  lemma ReadNext(rows: Rows, todo: set<Coord>, c: Coord, withHash: bool, fromHex: string -> Option<int>,
                 tiles: seq<RawTile>)
    requires IsReading(rows - todo, withHash, fromHex, tiles) && c in rows && c in todo
    ensures var tile := ReadRow(c, rows[c], withHash, fromHex);
            IsReading(rows - (todo - {c}), withHash, fromHex, if tile.Some? then tiles + [tile.value] else tiles)
  {
    ReadOneMore(rows, rows - todo, c, withHash, fromHex, tiles);
    assert rows - (todo - {c}) == (rows - todo)[c := rows[c]];
  }

  /** No batch is empty or longer than the batch size allows. */
  predicate Batched<T>(batches: seq<seq<T>>, batchSize: nat) {
    forall i | 0 <= i < |batches| :: 0 < |batches[i]| <= if batchSize == 0 then 1 else batchSize
  }

  lemma BatchedAppend<T>(batches: seq<seq<T>>, batch: seq<T>, batchSize: nat)
    requires Batched(batches, batchSize) && 0 < |batch| <= if batchSize == 0 then 1 else batchSize
    ensures Batched(batches + [batch], batchSize)
  {
  }

  /** Add an element to the open batch, and close the batch when it is full. */
  method PushBatched<T>(batches: seq<seq<T>>, batch: seq<T>, element: T, batchSize: nat)
    returns (batches': seq<seq<T>>, batch': seq<T>)
    requires Batched(batches, batchSize) && (|batch| < batchSize || batch == [])
    ensures Batched(batches', batchSize) && (|batch'| < batchSize || batch' == [])
    ensures Concat(batches') + batch' == Concat(batches) + batch + [element]
  {
    batches', batch' := batches, batch + [element];
    assert Concat(batches) + batch' == Concat(batches) + batch + [element];
    if |batch'| >= batchSize {
      ConcatAppend(batches, batch');
      BatchedAppend(batches, batch', batchSize);
      batches', batch' := batches + [batch'], [];
    }
  }

  /** Close the last batch unless it is empty. */
  method CloseBatch<T>(batches: seq<seq<T>>, batch: seq<T>, batchSize: nat) returns (batches': seq<seq<T>>)
    requires Batched(batches, batchSize) && (|batch| < batchSize || batch == [])
    ensures Batched(batches', batchSize) && Concat(batches') == Concat(batches) + batch
  {
    if batch == [] {
      assert Concat(batches) + batch == Concat(batches);
      return batches;
    }
    ConcatAppend(batches, batch);
    BatchedAppend(batches, batch, batchSize);
    return batches + [batch];
  }

  /** Stream the rows, in whatever order the database has them, into batches. */
  method GeneralReader(src: Tables, md5: Md5, fromHex: string -> Option<int>, batchSize: nat)
    returns (batches: seq<seq<RawTile>>)
    requires !src.NormalizedTables?
    ensures IsReading(TilesWithHash(src, md5), src.HashedTables?, fromHex, Concat(batches))
    ensures Batched(batches, batchSize)
  {
    var rows := TilesWithHash(src, md5);
    var withHash := src.HashedTables?;
    batches := [];
    var batch: seq<RawTile> := [];
    var todo := rows.Keys;
    while todo != {}
      invariant todo <= rows.Keys
      invariant IsReading(rows - todo, withHash, fromHex, Concat(batches) + batch)
      invariant Batched(batches, batchSize) && (|batch| < batchSize || batch == [])
    {
      var c :| c in todo;
      ReadNext(rows, todo, c, withHash, fromHex, Concat(batches) + batch);
      todo := todo - {c};
      var tile := ReadRow(c, rows[c], withHash, fromHex);
      if tile.Some? {
        batches, batch := PushBatched(batches, batch, tile.value, batchSize);
      }
    }
    assert rows - {} == rows;
    batches := CloseBatch(batches, batch, batchSize);
  }

  // ---------------------------------------------------------------- general path: the dedup cache

  /** The key under which a tile is looked up. */
  function EffectiveKey(tile: RawTile, xxh3: Bytes -> int): int {
    if tile.key.Some? then tile.key.value else xxh3(tile.data)
  }

  /** A tile with a stored hash of 32 digits goes by it, any other tile by the hash of its bytes. */
  lemma KeyRule(c: Coord, row: Row, withHash: bool, fromHex: string -> Option<int>, xxh3: Bytes -> int)
    requires ReadRow(c, row, withHash, fromHex).Some?
    ensures row.data.Some?
    ensures EffectiveKey(ReadRow(c, row, withHash, fromHex).value, xxh3)
         == if withHash && row.hash.Some? && |row.hash.value| == 32 && fromHex(row.hash.value).Some?
            then fromHex(row.hash.value).value else xxh3(row.data.value)
  {
    var tile := ReadRow(c, row, withHash, fromHex).value;
    assert tile.data == row.data.value && tile.key == if withHash then RowKey(row, fromHex) else None;
  }

  /** Equal keys mean equal bytes: what the keys of the small tiles stand for. */
  ghost predicate KeysMean(tiles: seq<RawTile>, meaning: int -> Bytes, xxh3: Bytes -> int, maxTrack: nat) {
    forall i | 0 <= i < |tiles| && |tiles[i].data| <= maxTrack :: meaning(EffectiveKey(tiles[i], xxh3)) == tiles[i].data
  }

  /** What the uncached transform would make of a tile. */
  function EncodeTile(tile: RawTile, transform: Transform): Option<EncodedTile> {
    var r := transform(tile.data);
    if r.Some? then Some(EncodedTile(tile.coord, r.value)) else None
  }

  function Encoder(transform: Transform): RawTile -> Option<EncodedTile> {
    tile => EncodeTile(tile, transform)
  }

  /** The tile is kept under its key if the transform accepts it. */
  predicate IsSmall(tile: RawTile, transform: Transform, maxTrack: nat) {
    |tile.data| <= maxTrack && transform(tile.data).Some?
  }

  /** The tile passes the cache by. */
  predicate IsLarge(tile: RawTile, transform: Transform, maxTrack: nat) {
    |tile.data| > maxTrack && transform(tile.data).Some?
  }

  /** The accepted small tiles are known by key, the accepted large ones by place. */
  ghost predicate AreCounted(tiles: seq<RawTile>, keys: set<int>, large: set<TileCoord>, transform: Transform,
                             xxh3: Bytes -> int, maxTrack: nat) {
    forall i | 0 <= i < |tiles| :: IsCounted(tiles[i], keys, large, transform, xxh3, maxTrack)
  }

  ghost predicate IsCounted(tile: RawTile, keys: set<int>, large: set<TileCoord>, transform: Transform,
                            xxh3: Bytes -> int, maxTrack: nat) {
    && (IsSmall(tile, transform, maxTrack) ==> EffectiveKey(tile, xxh3) in keys)
    && (IsLarge(tile, transform, maxTrack) ==> tile.coord in large)
  }

  class DedupCache {
    var entries: map<int, Bytes>
    var hits: nat
    var encoded: nat
    ghost var keys: set<int>
    ghost var large: set<TileCoord>

    /** Only keys of tiles that were encoded have entries, and each of these keys, like each large tile, was
        encoded at least once. */
    ghost predicate Counted()
      reads this
    {
      entries.Keys <= keys && |keys| + |large| <= encoded
    }

    constructor ()
      ensures entries == map[] && hits == 0 && encoded == 0 && keys == {} && large == {}
    {
      entries, hits, encoded := map[], 0, 0;
      keys, large := {}, {};
    }

    /** Every entry is the transform of what its key stands for. */
    ghost predicate Sound(transform: Transform, meaning: int -> Bytes)
      reads this
    {
      forall k | k in entries :: transform(meaning(k)) == Some(entries[k])
    }

    /** The cache may drop any entries at any time. */
    method Evict(keys: set<int>)
      modifies this`entries
      ensures entries == old(entries) - keys
    {
      entries := entries - keys;
    }

    /** Count an encode that the cache does not keep. */
    method CountLarge(ghost coord: TileCoord)
      requires Counted()
      modifies this`encoded, this`large
      ensures Counted() && encoded == old(encoded) + 1 && large == old(large) + {coord}
    {
      encoded := encoded + 1;
      large := large + {coord};
    }

    /** Count an encode and keep its result. */
    method Keep(key: int, data: Bytes)
      requires Counted()
      modifies this`entries, this`encoded, this`keys
      ensures Counted() && encoded == old(encoded) + 1
      ensures entries == old(entries)[key := data] && keys == old(keys) + {key}
    {
      entries := entries[key := data];
      encoded := encoded + 1;
      keys := keys + {key};
    }

    /** Resolve one tile against the cache, encoding only on a miss. */
    method TranscodeCached(tile: RawTile, transform: Transform, xxh3: Bytes -> int, maxTrack: nat,
                           ghost meaning: int -> Bytes)
      returns (r: Option<EncodedTile>)
      requires Sound(transform, meaning) && Counted()
      requires |tile.data| <= maxTrack ==> meaning(EffectiveKey(tile, xxh3)) == tile.data
      modifies this
      ensures Sound(transform, meaning) && Counted()
      ensures r == EncodeTile(tile, transform)
      ensures hits == old(hits) + if |tile.data| <= maxTrack && EffectiveKey(tile, xxh3) in old(entries) then 1 else 0
      ensures encoded == old(encoded) + if r.None? || hits > old(hits) then 0 else 1
      ensures old(keys) <= keys && old(large) <= large
      ensures IsCounted(tile, keys, large, transform, xxh3, maxTrack)
    {
      if |tile.data| > maxTrack {
        var result := transform(tile.data);
        if result.None? {
          return None;
        }
        CountLarge(tile.coord);
        return Some(EncodedTile(tile.coord, result.value));
      }
      var key := EffectiveKey(tile, xxh3);
      if key in entries {
        hits := hits + 1;
        return Some(EncodedTile(tile.coord, entries[key]));
      }
      var result := transform(tile.data);
      if result.None? {
        return None;
      }
      Keep(key, result.value);
      return Some(EncodedTile(tile.coord, result.value));
    }
  }

  /** The successful results, in the order of the batch. */
  function Successes(results: seq<Option<EncodedTile>>): seq<EncodedTile> {
    if results == [] then []
    else Successes(results[..|results| - 1])
         + if results[|results| - 1].Some? then [results[|results| - 1].value] else []
  }

  lemma {:induction false} SuccessesEncode(results: seq<Option<EncodedTile>>, batch: seq<RawTile>, transform: Transform)
    requires |results| == |batch| && forall i | 0 <= i < |batch| :: results[i] == EncodeTile(batch[i], transform)
    ensures Successes(results) == FilterMap(batch, Encoder(transform))
  {
    if batch == [] {
    } else {
      SuccessesEncode(results[..|batch| - 1], batch[..|batch| - 1], transform);
    }
  }

  /** How many of the results are there. */
  function CountSome(results: seq<Option<EncodedTile>>): nat {
    |Successes(results)|
  }

  lemma {:induction false} CountUpdate(results: seq<Option<EncodedTile>>, i: nat, r: Option<EncodedTile>)
    requires i < |results| && results[i].None?
    ensures CountSome(results[i := r]) == CountSome(results) + if r.Some? then 1 else 0
  {
    var last := |results| - 1;
    if i == last {
      assert results[i := r][..last] == results[..last];
    } else {
      CountUpdate(results[..last], i, r);
      assert results[i := r][..last] == results[..last][i := r];
    }
  }

  lemma {:induction false} CountNone(n: nat)
    ensures CountSome(seq(n, i => None)) == 0
  {
    if n == 0 {
    } else {
      CountNone(n - 1);
      assert seq<Option<EncodedTile>>(n, i => None)[..n - 1] == seq(n - 1, i => None);
    }
  }

  function Indices(n: nat): (indices: set<nat>)
    ensures forall i :: i in indices <==> 0 <= i < n
  {
    if n == 0 then {} else Indices(n - 1) + {n - 1}
  }

  /** Some tiles of a batch are done, in any order. */
  ghost predicate Partway(batch: seq<RawTile>, todo: set<nat>, results: seq<Option<EncodedTile>>,
                          transform: Transform) {
    && todo <= Indices(|batch|) && |results| == |batch|
    && forall i | 0 <= i < |batch| :: results[i] == if i in todo then None else EncodeTile(batch[i], transform)
  }

  /** One batch on the thread pool: any order of processing, any evictions in between. */
  method ComputeBatch(batch: seq<RawTile>, cache: DedupCache, transform: Transform, xxh3: Bytes -> int, maxTrack: nat,
                      ghost meaning: int -> Bytes) returns (out: seq<EncodedTile>)
    requires cache.Sound(transform, meaning) && cache.Counted() && KeysMean(batch, meaning, xxh3, maxTrack)
    modifies cache
    ensures cache.Sound(transform, meaning) && cache.Counted()
    ensures old(cache.keys) <= cache.keys && old(cache.large) <= cache.large
    ensures AreCounted(batch, cache.keys, cache.large, transform, xxh3, maxTrack)
    ensures out == FilterMap(batch, Encoder(transform))
    ensures cache.hits + cache.encoded == old(cache.hits + cache.encoded) + |out|
  {
    var results: seq<Option<EncodedTile>> := seq(|batch|, i => None);
    CountNone(|batch|);
    var todo := Indices(|batch|);
    while todo != {}
      invariant Partway(batch, todo, results, transform)
      invariant cache.Sound(transform, meaning) && cache.Counted()
      invariant old(cache.keys) <= cache.keys && old(cache.large) <= cache.large
      invariant forall i | 0 <= i < |batch| && i !in todo ::
                  IsCounted(batch[i], cache.keys, cache.large, transform, xxh3, maxTrack)
      invariant cache.hits + cache.encoded == old(cache.hits + cache.encoded) + CountSome(results)
    {
      var i :| i in todo;
      var evicted: set<int> := *;
      results := ComputeOne(batch, cache, todo, results, i, evicted, transform, xxh3, maxTrack, meaning);
      todo := todo - {i};
    }
    SuccessesEncode(results, batch, transform);
    out := Successes(results);
  }

  /** One tile of a batch, after some evictions. */
  method ComputeOne(batch: seq<RawTile>, cache: DedupCache, ghost todo: set<nat>, results: seq<Option<EncodedTile>>,
                    i: nat, evicted: set<int>, transform: Transform, xxh3: Bytes -> int, maxTrack: nat,
                    ghost meaning: int -> Bytes)
    returns (newResults: seq<Option<EncodedTile>>)
    requires cache.Sound(transform, meaning) && cache.Counted() && KeysMean(batch, meaning, xxh3, maxTrack)
    requires i in todo && Partway(batch, todo, results, transform)
    modifies cache
    ensures cache.Sound(transform, meaning) && cache.Counted()
    ensures Partway(batch, todo - {i}, newResults, transform)
    ensures old(cache.keys) <= cache.keys && old(cache.large) <= cache.large
    ensures IsCounted(batch[i], cache.keys, cache.large, transform, xxh3, maxTrack)
    ensures cache.hits + cache.encoded + CountSome(results) == old(cache.hits + cache.encoded) + CountSome(newResults)
  {
    cache.Evict(evicted);
    var r := cache.TranscodeCached(batch[i], transform, xxh3, maxTrack, meaning);
    CountUpdate(results, i, r);
    newResults := results[i := r];
  }

  /** All batches; a batch whose tiles all failed is not passed on. */
  method GeneralCompute(batches: seq<seq<RawTile>>, cache: DedupCache, transform: Transform, xxh3: Bytes -> int,
                        maxTrack: nat, ghost meaning: int -> Bytes) returns (out: seq<seq<EncodedTile>>)
    requires cache.Sound(transform, meaning) && cache.Counted()
    requires KeysMean(Concat(batches), meaning, xxh3, maxTrack)
    modifies cache
    ensures cache.Counted()
    ensures AreCounted(Concat(batches), cache.keys, cache.large, transform, xxh3, maxTrack)
    ensures Concat(out) == FilterMap(Concat(batches), Encoder(transform))
    ensures cache.hits + cache.encoded == old(cache.hits + cache.encoded) + |Concat(out)|
  {
    out := [];
    for k := 0 to |batches|
      invariant cache.Sound(transform, meaning) && cache.Counted()
      invariant AreCounted(Concat(batches[..k]), cache.keys, cache.large, transform, xxh3, maxTrack)
      invariant Concat(out) == FilterMap(Concat(batches[..k]), Encoder(transform))
      invariant cache.hits + cache.encoded == old(cache.hits + cache.encoded) + |Concat(out)|
    {
      PartKeysMean(batches, k, meaning, xxh3, maxTrack);
      var encoded := ComputeBatch(batches[k], cache, transform, xxh3, maxTrack, meaning);
      FilterMapPart(batches, k, Encoder(transform));
      assert batches[..k + 1] == batches[..k] + [batches[k]];
      ConcatAppend(batches[..k], batches[k]);
      if encoded != [] {
        ConcatAppend(out, encoded);
        out := out + [encoded];
      }
    }
    assert batches[..|batches|] == batches;
  }

  lemma FilterMapPart<A, B>(batches: seq<seq<A>>, k: nat, f: A -> Option<B>)
    requires k < |batches|
    ensures FilterMap(Concat(batches[..k + 1]), f) == FilterMap(Concat(batches[..k]), f) + FilterMap(batches[k], f)
  {
    assert batches[..k + 1] == batches[..k] + [batches[k]];
    ConcatAppend(batches[..k], batches[k]);
    FilterMapConcat(Concat(batches[..k]), batches[k], f);
  }

  lemma PartKeysMean(batches: seq<seq<RawTile>>, k: nat, meaning: int -> Bytes, xxh3: Bytes -> int, maxTrack: nat)
    requires k < |batches| && KeysMean(Concat(batches), meaning, xxh3, maxTrack)
    ensures KeysMean(batches[k], meaning, xxh3, maxTrack)
  {
    ConcatPart(batches, k);
    InnerKeysMean(Concat(batches), Concat(batches[..k]), batches[k], meaning, xxh3, maxTrack);
  }

  lemma InnerKeysMean(whole: seq<RawTile>, before: seq<RawTile>, part: seq<RawTile>, meaning: int -> Bytes,
                      xxh3: Bytes -> int, maxTrack: nat)
    requires before + part <= whole && KeysMean(whole, meaning, xxh3, maxTrack)
    ensures KeysMean(part, meaning, xxh3, maxTrack)
  {
    forall i | 0 <= i < |part|
      ensures part[i] == whole[|before| + i]
    {
      assert (before + part)[|before| + i] == part[i];
    }
  }

  lemma {:induction false} ConcatPart<T>(batches: seq<seq<T>>, k: nat)
    requires k < |batches|
    ensures Concat(batches[..k]) + batches[k] <= Concat(batches)
  {
    var last := |batches| - 1;
    if k == last {
      assert batches[..last] == batches[..k];
    } else {
      ConcatPart(batches[..last], k);
      assert batches[..last][..k] == batches[..k];
    }
  }
}
