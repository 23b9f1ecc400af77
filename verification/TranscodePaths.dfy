/** The two paths of the transcoder from end to end, and why they mean the same. */
module TranscodePaths {
  import opened Sql
  import opened Tilesets
  import opened Layouts
  import opened Databases
  import opened Statements
  import opened TileCoords
  import opened Transcoder
  import opened TileWriter
  import opened PatchLaws

  datatype TranscodeStats = TranscodeStats(tilesWritten: nat, cacheHits: nat, cacheEncoded: nat)

  // ---------------------------------------------------------------- general path

  /** The keys of all small tiles of the source stand for their bytes. */
  ghost predicate RowsKeysMean(rows: Rows, withHash: bool, fromHex: string -> Option<int>, meaning: int -> Bytes,
                               xxh3: Bytes -> int, maxTrack: nat) {
    forall c | c in rows :: var tile := ReadRow(c, rows[c], withHash, fromHex);
      tile.Some? && |tile.value.data| <= maxTrack ==> meaning(EffectiveKey(tile.value, xxh3)) == tile.value.data
  }

  /** No two tiles of a tileset collide under MD5. */
  ghost predicate CollisionFree(tiles: Tileset, md5: Md5) {
    forall c, d | c in DropNull(tiles) && d in DropNull(tiles) ::
      md5(tiles[c].value) == md5(tiles[d].value) ==> tiles[c] == tiles[d]
  }

  /** What the encoder makes of a reading belongs to the transcoded tileset, each tile once. */
  lemma EncodedIsExpected(rows: Rows, withHash: bool, fromHex: string -> Option<int>, tiles: seq<RawTile>,
                          transform: Transform)
    requires IsReading(rows, withHash, fromHex, tiles)
    ensures var encoded := FilterMap(tiles, Encoder(transform));
            var expected := Transcoded(Possible(Data(rows)), transform);
            && DistinctCoords(encoded)
            && (forall j | 0 <= j < |encoded| ::
                  ToRow(encoded[j].coord) in expected && expected[ToRow(encoded[j].coord)] == Some(encoded[j].data))
  {
    var encoded := FilterMap(tiles, Encoder(transform));
    var expected := Transcoded(Possible(Data(rows)), transform);
    var origins := FilterMapOrigins(tiles, Encoder(transform));
    forall j | 0 <= j < |encoded|
      ensures encoded[j].coord == tiles[origins[j]].coord
      ensures ToRow(encoded[j].coord) in expected && expected[ToRow(encoded[j].coord)] == Some(encoded[j].data)
    {
      var tile := tiles[origins[j]];
      assert ReadFrom(rows, withHash, fromHex, tile);
      assert Encoder(transform)(tile) == EncodeTile(tile, transform);
      RowRoundTrip(ToRow(tile.coord), tile.coord);
    }
  }

  /** ... and with a complete reading no tile is missing. */
  lemma ExpectedIsEncoded(rows: Rows, withHash: bool, fromHex: string -> Option<int>, tiles: seq<RawTile>,
                          transform: Transform)
    requires IsReading(rows, withHash, fromHex, tiles)
    ensures var encoded := FilterMap(tiles, Encoder(transform));
            forall c | c in Transcoded(Possible(Data(rows)), transform) ::
              exists j :: 0 <= j < |encoded| && ToRow(encoded[j].coord) == c
  {
    var encoded := FilterMap(tiles, Encoder(transform));
    var origins := FilterMapOrigins(tiles, Encoder(transform));
    forall c | c in Transcoded(Possible(Data(rows)), transform)
      ensures exists j :: 0 <= j < |encoded| && ToRow(encoded[j].coord) == c
    {
      var i := ReadTileOf(rows, withHash, fromHex, tiles, c);
      assert Encoder(transform)(tiles[i]) == EncodeTile(tiles[i], transform);
      var j :| 0 <= j < |origins| && origins[j] == i;
      assert ToRow(encoded[j].coord) == c;
    }
  }

  /** A complete reading has every possible tile. */
  lemma ReadTileOf(rows: Rows, withHash: bool, fromHex: string -> Option<int>, tiles: seq<RawTile>, c: Coord)
    returns (i: nat)
    requires IsReading(rows, withHash, fromHex, tiles)
    requires c in Possible(Data(rows)) && rows[c].data.Some?
    ensures i < |tiles| && ToRow(tiles[i].coord) == c && rows[c].data == Some(tiles[i].data)
  {
    RowRoundTrip(c, TileCoord(0, 0, 0));
    assert ReadRow(c, rows[c], withHash, fromHex).Some?;
    assert HasTileAt(tiles, c);
    i :| 0 <= i < |tiles| && ToRow(tiles[i].coord) == c;
    assert ReadFrom(rows, withHash, fromHex, tiles[i]);
    assert ReadRow(c, rows[c], withHash, fromHex) == Some(tiles[i]);
  }

  /** A new file into which a complete reading was encoded: its tileset, its hashes, its size. */
  lemma EncodedFile(rows: Rows, withHash: bool, fromHex: string -> Option<int>, tiles: seq<RawTile>,
                    transform: Transform, kind: MbtType, md5: Md5)
    requires IsReading(rows, withHash, fromHex, tiles)
    requires kind.Normalized? ==> CollisionFree(Transcoded(Possible(Data(rows)), transform), md5)
    ensures var encoded := FilterMap(tiles, Encoder(transform));
            var t := Inserted(Empty(kind), encoded, md5);
            && View(t) == Transcoded(Possible(Data(rows)), transform)
            && Hashed(t, md5)
            && |encoded| == |View(t)|
  {
    var encoded := FilterMap(tiles, Encoder(transform));
    var expected := Transcoded(Possible(Data(rows)), transform);
    EncodedIsExpected(rows, withHash, fromHex, tiles, transform);
    ExpectedIsEncoded(rows, withHash, fromHex, tiles, transform);
    EncodedTileset(encoded, expected, kind, md5);
    DistinctCount(encoded, expected.Keys);
  }

  /** Inserting the tiles of a tileset, each once, into a new file. */
  lemma EncodedTileset(encoded: seq<EncodedTile>, expected: Tileset, kind: MbtType, md5: Md5)
    requires DistinctCoords(encoded)
    requires forall j | 0 <= j < |encoded| ::
               ToRow(encoded[j].coord) in expected && expected[ToRow(encoded[j].coord)] == Some(encoded[j].data)
    requires forall c | c in expected :: exists j :: 0 <= j < |encoded| && ToRow(encoded[j].coord) == c
    requires kind.Normalized? ==> CollisionFree(expected, md5)
    ensures View(Inserted(Empty(kind), encoded, md5)) == expected
    ensures Hashed(Inserted(Empty(kind), encoded, md5), md5)
  {
    var t := Inserted(Empty(kind), encoded, md5);
    if kind.Normalized? {
      forall i, j | 0 <= i < |encoded| && 0 <= j < |encoded| && md5(encoded[i].data) == md5(encoded[j].data)
        ensures encoded[i].data == encoded[j].data
      {
        assert ToRow(encoded[i].coord) in DropNull(expected) && ToRow(encoded[j].coord) in DropNull(expected);
      }
    }
    forall c
      ensures (c in View(t) <==> c in expected) && Cell(View(t), c) == Cell(expected, c)
      ensures c in TilesWithHash(t, md5) ==> RowHashed(TilesWithHash(t, md5)[c], md5)
    {
      InsertedView(kind, encoded, md5, c);
      if c in expected {
        var j :| 0 <= j < |encoded| && ToRow(encoded[j].coord) == c;
        assert View(t)[c] == Some(encoded[j].data);
      }
    }
    SameMaps(View(t), expected);
  }

  lemma {:induction false} DistinctCount(tiles: seq<EncodedTile>, coords: set<Coord>)
    requires DistinctCoords(tiles)
    requires forall i | 0 <= i < |tiles| :: ToRow(tiles[i].coord) in coords
    requires forall c | c in coords :: exists i :: 0 <= i < |tiles| && ToRow(tiles[i].coord) == c
    ensures |tiles| == |coords|
  {
    if tiles == [] {
      assert coords == {};
    } else {
      var last := |tiles| - 1;
      var c := ToRow(tiles[last].coord);
      forall i | 0 <= i < last
        ensures ToRow(tiles[i].coord) != c
      {
        if ToRow(tiles[i].coord) == c {
          ToRowInjective(tiles[i].coord, tiles[last].coord);
        }
      }
      forall d | d in coords - {c}
        ensures exists i :: 0 <= i < last && ToRow(tiles[..last][i].coord) == d
      {
        var i :| 0 <= i < |tiles| && ToRow(tiles[i].coord) == d;
        assert ToRow(tiles[..last][i].coord) == d;
      }
      DistinctCount(tiles[..last], coords - {c});
    }
  }

  // ---------------------------------------------------------------- what the counters count

  lemma {:induction false} InjectiveCount<A, B>(s: set<A>, f: A -> B, t: set<B>)
    requires forall a | a in s :: f(a) in t
    requires forall a, b | a in s && b in s && f(a) == f(b) :: a == b
    ensures |s| <= |t|
  {
    if a :| a in s {
      InjectiveCount(s - {a}, f, t - {f(a)});
    }
  }

  lemma {:induction false} ImageCount<A, B>(s: set<A>, f: A -> B, image: set<B>)
    requires forall b | b in image :: exists a :: a in s && f(a) == b
    ensures |image| <= |s|
  {
    if b :| b in image {
      var a :| a in s && f(a) == b;
      ImageCount(s - {a}, f, image - {b});
    }
  }

  /** The key under which a row's tile is looked up. */
  function KeyOfRow(rows: Rows, withHash: bool, fromHex: string -> Option<int>, xxh3: Bytes -> int, c: Coord)
    : Option<int> {
    if c !in rows then None else
    var tile := ReadRow(c, rows[c], withHash, fromHex);
    if tile.None? then None else Some(EffectiveKey(tile.value, xxh3))
  }

  /** An accepted tile is known to the counters. */
  lemma AcceptedIsCounted(rows: Rows, withHash: bool, fromHex: string -> Option<int>, tiles: seq<RawTile>,
                          transform: Transform, xxh3: Bytes -> int, maxTrack: nat, keys: set<int>,
                          large: set<TileCoord>, c: Coord)
    requires IsReading(rows, withHash, fromHex, tiles)
    requires AreCounted(tiles, keys, large, transform, xxh3, maxTrack)
    requires c in Transcoded(Possible(Data(rows)), transform)
    ensures ParseTileIndex(c).Some? && c in rows && rows[c].data.Some?
    ensures KeyOfRow(rows, withHash, fromHex, xxh3, c).Some?
    ensures if |rows[c].data.value| <= maxTrack then KeyOfRow(rows, withHash, fromHex, xxh3, c).value in keys
            else ParseTileIndex(c).value in large
  {
    var i := ReadTileOf(rows, withHash, fromHex, tiles, c);
    assert ReadFrom(rows, withHash, fromHex, tiles[i]);
    assert IsCounted(tiles[i], keys, large, transform, xxh3, maxTrack);
    RowRoundTrip(c, tiles[i].coord);
  }

  function SmallOnes(rows: Rows, transform: Transform, maxTrack: nat): set<Coord> {
    set c | c in Transcoded(Possible(Data(rows)), transform) && |rows[c].data.value| <= maxTrack
  }

  function LargeOnes(rows: Rows, transform: Transform, maxTrack: nat): set<Coord> {
    set c | c in Transcoded(Possible(Data(rows)), transform) && |rows[c].data.value| > maxTrack
  }

  /** Every large tile was encoded on its own. */
  lemma LargeCount(rows: Rows, withHash: bool, fromHex: string -> Option<int>, tiles: seq<RawTile>,
                   transform: Transform, xxh3: Bytes -> int, maxTrack: nat, keys: set<int>, large: set<TileCoord>)
    requires IsReading(rows, withHash, fromHex, tiles)
    requires AreCounted(tiles, keys, large, transform, xxh3, maxTrack)
    ensures |LargeOnes(rows, transform, maxTrack)| <= |large|
  {
    var place := (c: Coord) => Coalesce(ParseTileIndex(c), Some(TileCoord(0, 0, 0))).value;
    forall c | c in LargeOnes(rows, transform, maxTrack)
      ensures place(c) in large && ToRow(place(c)) == c
    {
      AcceptedIsCounted(rows, withHash, fromHex, tiles, transform, xxh3, maxTrack, keys, large, c);
      RowRoundTrip(c, TileCoord(0, 0, 0));
    }
    InjectiveCount(LargeOnes(rows, transform, maxTrack), place, large);
  }

  /** No two small tiles share a key. */
  ghost predicate DistinctKeys(rows: Rows, withHash: bool, fromHex: string -> Option<int>, transform: Transform,
                               xxh3: Bytes -> int, maxTrack: nat) {
    forall c, d | c in SmallOnes(rows, transform, maxTrack) && d in SmallOnes(rows, transform, maxTrack)
                  && KeyOfRow(rows, withHash, fromHex, xxh3, c) == KeyOfRow(rows, withHash, fromHex, xxh3, d) :: c == d
  }

  /** With different keys every tile was encoded on its own. */
  lemma DistinctKeysCount(rows: Rows, withHash: bool, fromHex: string -> Option<int>, tiles: seq<RawTile>,
                          transform: Transform, xxh3: Bytes -> int, maxTrack: nat, keys: set<int>,
                          large: set<TileCoord>)
    requires IsReading(rows, withHash, fromHex, tiles)
    requires AreCounted(tiles, keys, large, transform, xxh3, maxTrack)
    requires DistinctKeys(rows, withHash, fromHex, transform, xxh3, maxTrack)
    ensures |Transcoded(Possible(Data(rows)), transform)| <= |keys| + |large|
  {
    var small, big := SmallOnes(rows, transform, maxTrack), LargeOnes(rows, transform, maxTrack);
    var key := (c: Coord) => Coalesce(KeyOfRow(rows, withHash, fromHex, xxh3, c), Some(0)).value;
    forall c | c in small
      ensures key(c) in keys && KeyOfRow(rows, withHash, fromHex, xxh3, c) == Some(key(c))
    {
      AcceptedIsCounted(rows, withHash, fromHex, tiles, transform, xxh3, maxTrack, keys, large, c);
    }
    InjectiveCount(small, key, keys);
    LargeCount(rows, withHash, fromHex, tiles, transform, xxh3, maxTrack, keys, large);
    assert Transcoded(Possible(Data(rows)), transform).Keys == small + big;
  }

  /** The different contents among the tiles that the transform accepts. */
  function Contents(rows: Rows, transform: Transform): set<Option<Bytes>> {
    set c | c in Transcoded(Possible(Data(rows)), transform) :: rows[c].data
  }

  /** However often the cache helped, every content was encoded at least once. */
  lemma ContentsCount(rows: Rows, withHash: bool, fromHex: string -> Option<int>, tiles: seq<RawTile>,
                      transform: Transform, xxh3: Bytes -> int, maxTrack: nat, keys: set<int>,
                      large: set<TileCoord>, meaning: int -> Bytes)
    requires IsReading(rows, withHash, fromHex, tiles)
    requires AreCounted(tiles, keys, large, transform, xxh3, maxTrack)
    requires RowsKeysMean(rows, withHash, fromHex, meaning, xxh3, maxTrack)
    ensures |Contents(rows, transform)| <= |keys| + |large|
  {
    var small, big := SmallOnes(rows, transform, maxTrack), LargeOnes(rows, transform, maxTrack);
    var smallContents, bigContents := set c | c in small :: rows[c].data, set c | c in big :: rows[c].data;
    ImageCount(big, c => Cell(Data(rows), c), bigContents);
    forall c | c in small
      ensures KeyStandsFor(rows, keys, meaning, c)
    {
      SmallContent(rows, withHash, fromHex, tiles, transform, xxh3, maxTrack, keys, large, meaning, c);
    }
    SmallContentsCount(rows, small, keys, meaning, smallContents);
    LargeCount(rows, withHash, fromHex, tiles, transform, xxh3, maxTrack, keys, large);
    UnionCount(smallContents, bigContents);
    assert Contents(rows, transform) == smallContents + bigContents;
  }

  /** One of the keys stands for the tile in the row. */
  ghost predicate KeyStandsFor(rows: Rows, keys: set<int>, meaning: int -> Bytes, c: Coord) {
    c in rows && exists k :: k in keys && Some(meaning(k)) == rows[c].data
  }

  lemma SmallContent(rows: Rows, withHash: bool, fromHex: string -> Option<int>, tiles: seq<RawTile>,
                     transform: Transform, xxh3: Bytes -> int, maxTrack: nat, keys: set<int>, large: set<TileCoord>,
                     meaning: int -> Bytes, c: Coord)
    requires IsReading(rows, withHash, fromHex, tiles)
    requires AreCounted(tiles, keys, large, transform, xxh3, maxTrack)
    requires RowsKeysMean(rows, withHash, fromHex, meaning, xxh3, maxTrack)
    requires c in SmallOnes(rows, transform, maxTrack)
    ensures KeyStandsFor(rows, keys, meaning, c)
  {
    AcceptedIsCounted(rows, withHash, fromHex, tiles, transform, xxh3, maxTrack, keys, large, c);
    assert Some(meaning(KeyOfRow(rows, withHash, fromHex, xxh3, c).value)) == rows[c].data;
  }

  lemma SmallContentsCount(rows: Rows, small: set<Coord>, keys: set<int>, meaning: int -> Bytes,
                           contents: set<Option<Bytes>>)
    requires small <= rows.Keys && forall c | c in small :: KeyStandsFor(rows, keys, meaning, c)
    requires contents == set c | c in small :: rows[c].data
    ensures |contents| <= |keys|
  {
    forall b | b in contents
      ensures exists k :: k in keys && Some(meaning(k)) == b
    {
      var c :| c in small && rows[c].data == b;
      assert KeyStandsFor(rows, keys, meaning, c);
    }
    ImageCount(keys, k => Some(meaning(k)), contents);
  }

  lemma UnionCount<T>(a: set<T>, b: set<T>)
    ensures |a + b| <= |a| + |b|
  {
    assert a + b == a + (b - a);
    assert b == (b - a) + (a * b);
  }

  /** When all tiles are large, or the tiles of a flat file differ under the hash, no two share a key. */
  lemma DistinctContents(src: Tables, transform: Transform, md5: Md5, fromHex: string -> Option<int>,
                         xxh3: Bytes -> int, maxTrack: nat)
    requires !src.NormalizedTables?
    ensures var rows, accepted := TilesWithHash(src, md5), Transcoded(Possible(View(src)), transform);
            && ((forall c | c in accepted :: |View(src)[c].value| > maxTrack) ==>
                  DistinctKeys(rows, src.HashedTables?, fromHex, transform, xxh3, maxTrack))
            && (src.FlatTables? && !DistinctKeys(rows, src.HashedTables?, fromHex, transform, xxh3, maxTrack) ==>
                  exists c, d :: c in accepted && d in accepted && c != d
                                 && xxh3(View(src)[c].value) == xxh3(View(src)[d].value))
            && Contents(rows, transform) == set c | c in accepted :: View(src)[c]
  {
    var rows := TilesWithHash(src, md5);
    TilesWithHashData(src, md5);
    assert forall c | c in rows :: rows[c].data == View(src)[c];
    forall c | c in Transcoded(Possible(Data(rows)), transform)
      ensures src.FlatTables? ==>
                KeyOfRow(rows, src.HashedTables?, fromHex, xxh3, c) == Some(xxh3(View(src)[c].value))
    {
      RowRoundTrip(c, TileCoord(0, 0, 0));
    }
  }

  /** What the counters say when all tiles are done. */
  lemma CounterLaw(src: Tables, transform: Transform, md5: Md5, fromHex: string -> Option<int>, xxh3: Bytes -> int,
                   maxTrack: nat, tiles: seq<RawTile>, keys: set<int>, large: set<TileCoord>, meaning: int -> Bytes,
                   hits: nat, encoded: nat)
    requires !src.NormalizedTables?
    requires IsReading(TilesWithHash(src, md5), src.HashedTables?, fromHex, tiles)
    requires AreCounted(tiles, keys, large, transform, xxh3, maxTrack) && |keys| + |large| <= encoded
    requires RowsKeysMean(TilesWithHash(src, md5), src.HashedTables?, fromHex, meaning, xxh3, maxTrack)
    requires hits + encoded == |Transcoded(Possible(View(src)), transform)|
    ensures var accepted := Transcoded(Possible(View(src)), transform);
            && encoded >= |set c | c in accepted :: View(src)[c]|
            && (DistinctKeys(TilesWithHash(src, md5), src.HashedTables?, fromHex, transform, xxh3, maxTrack) ==>
                  hits == 0)
            && ((forall c | c in accepted :: |View(src)[c].value| > maxTrack) ==> hits == 0)
            && (src.FlatTables? && hits > 0 ==>
                  exists c, d :: c in accepted && d in accepted && c != d
                                 && xxh3(View(src)[c].value) == xxh3(View(src)[d].value))
  {
    var rows := TilesWithHash(src, md5);
    TilesWithHashData(src, md5);
    ContentsCount(rows, src.HashedTables?, fromHex, tiles, transform, xxh3, maxTrack, keys, large, meaning);
    DistinctContents(src, transform, md5, fromHex, xxh3, maxTrack);
    if DistinctKeys(rows, src.HashedTables?, fromHex, transform, xxh3, maxTrack) {
      DistinctKeysCount(rows, src.HashedTables?, fromHex, tiles, transform, xxh3, maxTrack, keys, large);
    }
  }

  /** Flat sources: read, transform with the dedup cache, write. Neither the batch size nor the flushes
      nor the state of the cache can be seen in the result. Every different content is encoded at least
      once, and when no two small tiles share a key nothing is taken from the cache. */
  method TranscodeGeneral(src: Tables, kind: MbtType, transform: Transform, md5: Md5, fromHex: string -> Option<int>,
                          xxh3: Bytes -> int, batchSize: nat, maxTrack: nat, timeouts: set<nat>,
                          ghost meaning: int -> Bytes)
    returns (dst: Database, stats: TranscodeStats)
    requires !src.NormalizedTables?
    requires RowsKeysMean(TilesWithHash(src, md5), src.HashedTables?, fromHex, meaning, xxh3, maxTrack)
    requires kind.Normalized? ==> CollisionFree(Transcoded(Possible(View(src)), transform), md5)
    ensures fresh(dst)
    ensures View(dst.tables) == Transcoded(Possible(View(src)), transform)
    ensures dst.tables.Type() == kind && Hashed(dst.tables, md5)
    ensures stats.tilesWritten == |View(dst.tables)| == stats.cacheHits + stats.cacheEncoded
    ensures DistinctKeys(TilesWithHash(src, md5), src.HashedTables?, fromHex, transform, xxh3, maxTrack) ==>
              stats.cacheHits == 0 && stats.cacheEncoded == stats.tilesWritten
    ensures (forall c | c in View(dst.tables) :: |View(src)[c].value| > maxTrack) ==> stats.cacheHits == 0
    ensures src.FlatTables? && stats.cacheHits > 0 ==>
              exists c, d :: c in View(dst.tables) && d in View(dst.tables) && c != d
                             && xxh3(View(src)[c].value) == xxh3(View(src)[d].value)
    ensures stats.cacheEncoded >= |set c | c in View(dst.tables) :: View(src)[c]|
  {
    dst := new Database(kind);
    var cache := new DedupCache();
    var rawBatches := GeneralReader(src, md5, fromHex, batchSize);
    var encodedBatches := GeneralCompute(rawBatches, cache, transform, xxh3, maxTrack, meaning);
    var total := GeneralWriter(dst, encodedBatches, batchSize, timeouts, md5);
    stats := TranscodeStats(total, cache.hits, cache.encoded);
    TilesWithHashData(src, md5);
    EncodedFile(TilesWithHash(src, md5), src.HashedTables?, fromHex, Concat(rawBatches), transform, kind, md5);
    CounterLaw(src, transform, md5, fromHex, xxh3, maxTrack, Concat(rawBatches), cache.keys, cache.large, meaning,
               cache.hits, cache.encoded);
  }

  // ---------------------------------------------------------------- normalized path

  datatype Image = Image(id: string, data: Bytes)

  function ImageEncoder(transform: Transform): Image -> Option<Image> {
    (image: Image) => var r := transform(image.data); if r.Some? then Some(Image(image.id, r.value)) else None
  }

  /** The images with data were read, each once. */
  ghost predicate IsImageReading(images: map<string, Option<Bytes>>, read: seq<Image>) {
    && (forall i | 0 <= i < |read| :: read[i].id in images && images[read[i].id] == Some(read[i].data))
    && (forall i, j | 0 <= i < j < |read| :: read[i].id != read[j].id)
    && (forall id | id in images && images[id].Some? :: exists i :: 0 <= i < |read| && read[i].id == id)
  }

  lemma ReadOneImage(images: map<string, Option<Bytes>>, done: map<string, Option<Bytes>>, id: string, read: seq<Image>)
    requires IsImageReading(done, read) && id in images && id !in done
    ensures IsImageReading(done[id := images[id]],
                           if images[id].Some? then read + [Image(id, images[id].value)] else read)
  {
    var done' := done[id := images[id]];
    var read' := if images[id].Some? then read + [Image(id, images[id].value)] else read;
    forall other | other in done' && done'[other].Some?
      ensures exists i :: 0 <= i < |read'| && read'[i].id == other
    {
      if other == id {
        assert read'[|read|].id == id;
      } else {
        var i :| 0 <= i < |read| && read[i].id == other;
        assert read'[i].id == other;
      }
    }
  }

  lemma ReadNextImage(images: map<string, Option<Bytes>>, todo: set<string>, id: string, read: seq<Image>)
    requires IsImageReading(images - todo, read) && id in images && id in todo
    ensures IsImageReading(images - (todo - {id}),
                           if images[id].Some? then read + [Image(id, images[id].value)] else read)
  {
    ReadOneImage(images, images - todo, id, read);
    assert images - (todo - {id}) == (images - todo)[id := images[id]];
  }

  method NormalizedReader(images: map<string, Option<Bytes>>, batchSize: nat) returns (batches: seq<seq<Image>>)
    ensures IsImageReading(images, Concat(batches)) && Batched(batches, batchSize)
  {
    batches := [];
    var batch: seq<Image> := [];
    var todo := images.Keys;
    while todo != {}
      invariant todo <= images.Keys
      invariant IsImageReading(images - todo, Concat(batches) + batch)
      invariant Batched(batches, batchSize) && (|batch| < batchSize || batch == [])
    {
      var id :| id in todo;
      ReadNextImage(images, todo, id, Concat(batches) + batch);
      todo := todo - {id};
      if images[id].Some? {
        batches, batch := PushBatched(batches, batch, Image(id, images[id].value), batchSize);
      }
    }
    assert images - {} == images;
    batches := CloseBatch(batches, batch, batchSize);
  }

  method NormalizedCompute(batches: seq<seq<Image>>, transform: Transform) returns (out: seq<seq<Image>>)
    ensures Concat(out) == FilterMap(Concat(batches), ImageEncoder(transform))
  {
    out := [];
    for k := 0 to |batches|
      invariant Concat(out) == FilterMap(Concat(batches[..k]), ImageEncoder(transform))
    {
      var encoded := FilterMap(batches[k], ImageEncoder(transform));
      FilterMapConcat(Concat(batches[..k]), batches[k], ImageEncoder(transform));
      assert batches[..k + 1] == batches[..k] + [batches[k]];
      ConcatAppend(batches[..k], batches[k]);
      if encoded != [] {
        ConcatAppend(out, encoded);
        out := out + [encoded];
      }
    }
    assert batches[..|batches|] == batches;
  }

  function Pairs(images: seq<Image>): seq<(string, Bytes)> {
    seq(|images|, i requires 0 <= i < |images| => (images[i].id, images[i].data))
  }

  /** The encoded bytes by source id. */
  function ById(images: seq<Image>): map<string, Bytes> {
    PutAll(map[], Pairs(images))
  }

  /** Every map row joined with the encoded image it refers to. */
  function FannedOut(mapping: map<Coord, Option<string>>, byId: map<string, Bytes>): Tileset {
    map c | c in mapping && mapping[c].Some? && mapping[c].value in byId :: Some(byId[mapping[c].value])
  }

  function Md5Pairs(images: seq<Image>, md5: Md5): seq<(string, Option<Bytes>)> {
    seq(|images|, i requires 0 <= i < |images| => (md5(images[i].data), Some(images[i].data)))
  }

  function NewIds(images: seq<Image>, md5: Md5): seq<(string, string)> {
    seq(|images|, i requires 0 <= i < |images| => (images[i].id, md5(images[i].data)))
  }

  /** The destination and the temporary id table after writing some encoded images. */
  function ChunkWritten(t: Tables, ids: map<string, string>, chunk: seq<Image>, mapping: map<Coord, Option<string>>,
                        md5: Md5)
    : (r: (Tables, map<string, string>))
    ensures r.0.Type() == t.Type()
  {
    match t
    case FlatTables(tiles) => (FlatTables(tiles + FannedOut(mapping, ById(chunk))), ids)
    case HashedTables(rows) => (HashedTables(rows + WithMd5(FannedOut(mapping, ById(chunk)), md5)), ids)
    case NormalizedTables(m, images, hashView) =>
      (NormalizedTables(m, PutAll(images, Md5Pairs(chunk, md5)), hashView), PutAll(ids, NewIds(chunk, md5)))
  }

  /** Cutting the encoded images into chunks makes no difference. */
  lemma ChunkWrittenConcat(t: Tables, ids: map<string, string>, a: seq<Image>, b: seq<Image>,
                           mapping: map<Coord, Option<string>>, md5: Md5)
    ensures var (t', ids') := ChunkWritten(t, ids, a, mapping, md5);
            ChunkWritten(t, ids, a + b, mapping, md5) == ChunkWritten(t', ids', b, mapping, md5)
  {
    match t
    case FlatTables(tiles) =>
      FannedOutConcat(mapping, a, b);
      AddAssociative(tiles, FannedOut(mapping, ById(a)), FannedOut(mapping, ById(b)));
    case HashedTables(rows) =>
      FannedOutConcat(mapping, a, b);
      WithMd5Add(FannedOut(mapping, ById(a)), FannedOut(mapping, ById(b)), md5);
      AddAssociative(rows, WithMd5(FannedOut(mapping, ById(a)), md5), WithMd5(FannedOut(mapping, ById(b)), md5));
    case NormalizedTables(_, images, _) =>
      assert Md5Pairs(a + b, md5) == Md5Pairs(a, md5) + Md5Pairs(b, md5);
      PutAllConcat(images, Md5Pairs(a, md5), Md5Pairs(b, md5));
      assert NewIds(a + b, md5) == NewIds(a, md5) + NewIds(b, md5);
      PutAllConcat(ids, NewIds(a, md5), NewIds(b, md5));
  }

  lemma AddAssociative<K, V>(a: map<K, V>, b: map<K, V>, c: map<K, V>)
    ensures a + b + c == a + (b + c)
  {
  }

  lemma WithMd5Add(a: Tileset, b: Tileset, md5: Md5)
    ensures WithMd5(a + b, md5) == WithMd5(a, md5) + WithMd5(b, md5)
  {
  }

  lemma ByIdConcat(a: seq<Image>, b: seq<Image>)
    ensures ById(a + b) == ById(a) + ById(b)
  {
    assert Pairs(a + b) == Pairs(a) + Pairs(b);
    PutAllConcat(map[], Pairs(a), Pairs(b));
    PutAllOnto(ById(a), Pairs(b));
  }

  lemma {:induction false} PutAllOnto<K, V>(table: map<K, V>, rows: seq<(K, V)>)
    ensures PutAll(table, rows) == table + PutAll(map[], rows)
  {
    if rows == [] {
    } else {
      PutAllOnto(table, rows[..|rows| - 1]);
    }
  }

  lemma FannedOutConcat(mapping: map<Coord, Option<string>>, a: seq<Image>, b: seq<Image>)
    ensures FannedOut(mapping, ById(a + b)) == FannedOut(mapping, ById(a)) + FannedOut(mapping, ById(b))
  {
    ByIdConcat(a, b);
  }

  /** One multi-row statement for a chunk, joined with the source map; returns the rows it affects. */
  method WriteNormalizedChunk(dst: Database, ids: map<string, string>, chunk: seq<Image>,
                              mapping: map<Coord, Option<string>>, md5: Md5)
    returns (rows: nat, ids': map<string, string>)
    modifies dst`tables
    ensures (dst.tables, ids') == ChunkWritten(old(dst.tables), ids, chunk, mapping, md5)
    ensures rows == RowsWritten(old(dst.tables.Type()), chunk, mapping)
  {
    ids' := ids;
    match dst.tables
    case FlatTables(tiles) =>
      var joined := FannedOut(mapping, ById(chunk));
      tiles := InsertRows(tiles, joined, Override);
      dst.tables := FlatTables(tiles);
      rows := |joined|;
    case HashedTables(stored) =>
      var joined := FannedOut(mapping, ById(chunk));
      stored := InsertRows(stored, WithMd5(joined, md5), Override);
      dst.tables := HashedTables(stored);
      rows := |joined|;
    case NormalizedTables(m, images, hashView) =>
      images := Put(images, Md5Pairs(chunk, md5));
      dst.tables := NormalizedTables(m, images, hashView);
      ids' := Put(ids, NewIds(chunk, md5));
      rows := |chunk|;
  }

  const SQLITE_MAX_PARAMS := 900

  predicate DistinctIds(images: seq<Image>) {
    forall i, j | 0 <= i < j < |images| :: images[i].id != images[j].id
  }

  lemma FannedOutCount(mapping: map<Coord, Option<string>>, a: seq<Image>, b: seq<Image>)
    requires DistinctIds(a + b)
    ensures |FannedOut(mapping, ById(a + b))| == |FannedOut(mapping, ById(a))| + |FannedOut(mapping, ById(b))|
  {
    FannedOutConcat(mapping, a, b);
    var x, y := FannedOut(mapping, ById(a)), FannedOut(mapping, ById(b));
    forall c | c in x
      ensures c !in y
    {
      var id := mapping[c].value;
      AbsentById(a, b, id);
    }
    assert x.Keys !! y.Keys;
    assert (x + y).Keys == x.Keys + y.Keys;
  }

  lemma ByIdKeys(images: seq<Image>, id: string)
    ensures id in ById(images) <==> exists i :: 0 <= i < |images| && images[i].id == id
  {
    PutAllAt(map[], Pairs(images), id);
    assert forall i | 0 <= i < |images| :: Pairs(images)[i].0 == images[i].id;
  }

  lemma AbsentById(a: seq<Image>, b: seq<Image>, id: string)
    requires DistinctIds(a + b) && id in ById(a)
    ensures id !in ById(b)
  {
    ByIdKeys(a, id);
    ByIdKeys(b, id);
    var i :| 0 <= i < |a| && a[i].id == id;
    forall j | 0 <= j < |b|
      ensures b[j].id != id
    {
      assert (a + b)[i].id == id && (a + b)[|a| + j].id == b[j].id;
    }
  }

  function Min(a: nat, b: nat): nat {
    if a < b then a else b
  }

  /** The rows counted so far: the joined ones, or the images of a normalized destination. */
  function RowsWritten(kind: MbtType, images: seq<Image>, mapping: map<Coord, Option<string>>): nat {
    if kind.Normalized? then |images| else |FannedOut(mapping, ById(images))|
  }

  lemma RowsWrittenConcat(kind: MbtType, a: seq<Image>, b: seq<Image>, mapping: map<Coord, Option<string>>)
    requires DistinctIds(a + b)
    ensures RowsWritten(kind, a + b, mapping) == RowsWritten(kind, a, mapping) + RowsWritten(kind, b, mapping)
  {
    if !kind.Normalized? {
      FannedOutCount(mapping, a, b);
    }
  }

  /** One chunk behind the ones already written. */
  method WriteMore(dst: Database, ids: map<string, string>, ghost before: Tables, ghost idsBefore: map<string, string>,
                   batch: seq<Image>, pos: nat, end: nat, mapping: map<Coord, Option<string>>, md5: Md5)
    returns (rows: nat, ids': map<string, string>)
    requires pos <= end <= |batch| && DistinctIds(batch)
    requires (dst.tables, ids) == ChunkWritten(before, idsBefore, batch[..pos], mapping, md5)
    modifies dst`tables
    ensures (dst.tables, ids') == ChunkWritten(before, idsBefore, batch[..end], mapping, md5)
    ensures RowsWritten(before.Type(), batch[..end], mapping)
              == RowsWritten(before.Type(), batch[..pos], mapping) + rows
  {
    ghost var done := batch[..pos];
    var chunk := batch[pos..end];
    assert batch[..end] == done + chunk;
    RowsWrittenConcat(before.Type(), done, chunk, mapping);
    ChunkWrittenConcat(before, idsBefore, done, chunk, mapping, md5);
    rows, ids' := WriteNormalizedChunk(dst, ids, chunk, mapping, md5);
  }

  /** One batch, cut into chunks that stay under the parameter limit. */
  method WriteBatch(dst: Database, ids: map<string, string>, batch: seq<Image>, batchSize: nat,
                    mapping: map<Coord, Option<string>>, md5: Md5) returns (rows: nat, ids': map<string, string>)
    requires DistinctIds(batch)
    modifies dst`tables
    ensures (dst.tables, ids') == ChunkWritten(old(dst.tables), ids, batch, mapping, md5)
    ensures rows == RowsWritten(old(dst.tables.Type()), batch, mapping)
  {
    var chunkRows := Min(SQLITE_MAX_PARAMS / 2, batchSize);
    if chunkRows == 0 {
      chunkRows := 1;
    }
    var pos := 0;
    rows, ids' := 0, ids;
    NothingWritten(dst.tables, ids, mapping, md5);
    while pos < |batch|
      invariant 0 <= pos <= |batch|
      invariant (dst.tables, ids') == ChunkWritten(old(dst.tables), ids, batch[..pos], mapping, md5)
      invariant rows == RowsWritten(old(dst.tables).Type(), batch[..pos], mapping)
    {
      var end := Min(pos + chunkRows, |batch|);
      var n;
      n, ids' := WriteMore(dst, ids', old(dst.tables), ids, batch, pos, end, mapping, md5);
      rows := rows + n;
      pos := end;
    }
    assert batch[..pos] == batch;
  }

  lemma NothingWritten(t: Tables, ids: map<string, string>, mapping: map<Coord, Option<string>>, md5: Md5)
    ensures ChunkWritten(t, ids, [], mapping, md5) == (t, ids)
    ensures RowsWritten(t.Type(), [], mapping) == 0
  {
    assert FannedOut(mapping, ById([])) == map[];
    match t
    case FlatTables(tiles) => assert tiles + map[] == tiles;
    case HashedTables(rows) => assert rows + WithMd5(map[], md5) == rows;
    case NormalizedTables(_, _, _) =>
  }

  /** The map rows of a normalized destination: each source row with its new id. */
  function Remapped(mapping: map<Coord, Option<string>>, ids: map<string, string>): map<Coord, Option<string>> {
    map c | c in mapping && mapping[c].Some? && mapping[c].value in ids :: Some(ids[mapping[c].value])
  }

  /** The finished destination. */
  function NormalizedResult(t: Tables, images: seq<Image>, mapping: map<Coord, Option<string>>, md5: Md5): Tables {
    var (t', ids) := ChunkWritten(t, map[], images, mapping, md5);
    if t'.NormalizedTables? then t'.(mapping := t'.mapping + Remapped(mapping, ids)) else t'
  }

  /** Write the encoded images batch by batch, then the map of a normalized destination. */
  method NormalizedWriter(dst: Database, batches: seq<seq<Image>>, batchSize: nat, mapping: map<Coord, Option<string>>,
                          md5: Md5)
    returns (uniqueEncoded: nat, rowsWritten: nat)
    requires DistinctIds(Concat(batches))
    modifies dst`tables
    ensures dst.tables == NormalizedResult(old(dst.tables), Concat(batches), mapping, md5)
    ensures uniqueEncoded == |Concat(batches)|
    ensures rowsWritten == if old(dst.tables).NormalizedTables?
                           then |Remapped(mapping, PutAll(map[], NewIds(Concat(batches), md5)))|
                           else |FannedOut(mapping, ById(Concat(batches)))|
  {
    uniqueEncoded, rowsWritten := 0, 0;
    var ids: map<string, string> := map[];
    NothingWritten(dst.tables, ids, mapping, md5);
    for k := 0 to |batches|
      invariant (dst.tables, ids) == ChunkWritten(old(dst.tables), map[], Concat(batches[..k]), mapping, md5)
      invariant uniqueEncoded == |Concat(batches[..k])|
      invariant rowsWritten == RowsWritten(old(dst.tables).Type(), Concat(batches[..k]), mapping)
    {
      var n;
      n, ids := WriteNext(dst, ids, old(dst.tables), batches, k, batchSize, mapping, md5);
      rowsWritten := rowsWritten + n;
      uniqueEncoded := uniqueEncoded + |batches[k]|;
    }
    assert batches[..|batches|] == batches;
    match dst.tables
    case NormalizedTables(m, images, hashView) =>
      var remapped := Remapped(mapping, ids);
      m := InsertRows(m, remapped, Override);
      dst.tables := NormalizedTables(m, images, hashView);
      rowsWritten := |remapped|;
    case _ =>
  }

  /** One batch behind the ones already written. */
  method WriteNext(dst: Database, ids: map<string, string>, ghost before: Tables, batches: seq<seq<Image>>, k: nat,
                   batchSize: nat, mapping: map<Coord, Option<string>>, md5: Md5)
    returns (rows: nat, ids': map<string, string>)
    requires k < |batches| && DistinctIds(Concat(batches))
    requires (dst.tables, ids) == ChunkWritten(before, map[], Concat(batches[..k]), mapping, md5)
    modifies dst`tables
    ensures (dst.tables, ids') == ChunkWritten(before, map[], Concat(batches[..k + 1]), mapping, md5)
    ensures |Concat(batches[..k + 1])| == |Concat(batches[..k])| + |batches[k]|
    ensures RowsWritten(before.Type(), Concat(batches[..k + 1]), mapping)
         == RowsWritten(before.Type(), Concat(batches[..k]), mapping) + rows
  {
    ghost var done := Concat(batches[..k]);
    assert batches[..k + 1] == batches[..k] + [batches[k]];
    ConcatAppend(batches[..k], batches[k]);
    ConcatPart(batches, k);
    DistinctParts(Concat(batches), done, batches[k]);
    ChunkWrittenConcat(before, map[], done, batches[k], mapping, md5);
    RowsWrittenConcat(before.Type(), done, batches[k], mapping);
    rows, ids' := WriteBatch(dst, ids, batches[k], batchSize, mapping, md5);
  }

  lemma DistinctParts(whole: seq<Image>, a: seq<Image>, b: seq<Image>)
    requires DistinctIds(whole) && a + b <= whole
    ensures DistinctIds(a + b) && DistinctIds(b)
  {
    assert forall i | 0 <= i < |b| :: b[i] == (a + b)[|a| + i];
  }

  // ---------------------------------------------------------------- the normalized path end to end

  /** The encoded image of an id, if the transform accepts its data. */
  function EncodedImage(images: map<string, Option<Bytes>>, id: string, transform: Transform): Option<Bytes> {
    var data := Cell(images, id);
    if data.None? then None else transform(data.value)
  }

  /** Every image that the transform accepts, encoded once. */
  ghost predicate IsEncoding(images: map<string, Option<Bytes>>, encoded: seq<Image>, transform: Transform) {
    && DistinctIds(encoded)
    && (forall j | 0 <= j < |encoded| :: EncodedImage(images, encoded[j].id, transform) == Some(encoded[j].data))
    && (forall id | EncodedImage(images, id, transform).Some? :: exists j :: 0 <= j < |encoded| && encoded[j].id == id)
  }

  /** Encoding a complete reading misses nothing. */
  lemma EncodedImages(images: map<string, Option<Bytes>>, read: seq<Image>, transform: Transform)
    requires IsImageReading(images, read)
    ensures IsEncoding(images, FilterMap(read, ImageEncoder(transform)), transform)
  {
    var encoded := FilterMap(read, ImageEncoder(transform));
    var origins := FilterMapOrigins(read, ImageEncoder(transform));
    forall j | 0 <= j < |encoded|
      ensures encoded[j].id == read[origins[j]].id
      ensures EncodedImage(images, encoded[j].id, transform) == Some(encoded[j].data)
    {
      assert ImageEncoder(transform)(read[origins[j]]) == Some(encoded[j]);
    }
    forall id | EncodedImage(images, id, transform).Some?
      ensures exists j :: 0 <= j < |encoded| && encoded[j].id == id
    {
      var i :| 0 <= i < |read| && read[i].id == id;
      assert ImageEncoder(transform)(read[i]).Some?;
      var j :| 0 <= j < |origins| && origins[j] == i;
      assert encoded[j].id == id;
    }
  }

  lemma ByIdIsEncoded(images: map<string, Option<Bytes>>, encoded: seq<Image>, transform: Transform, id: string)
    requires IsEncoding(images, encoded, transform)
    ensures id in ById(encoded) <==> EncodedImage(images, id, transform).Some?
    ensures id in ById(encoded) ==> Some(ById(encoded)[id]) == EncodedImage(images, id, transform)
  {
    ByIdKeys(encoded, id);
    PutAllAt(map[], Pairs(encoded), id);
    if id in ById(encoded) {
      var i :| 0 <= i < |encoded| && Pairs(encoded)[i].0 == id;
      var j :| 0 <= j < |encoded| && Pairs(encoded)[j] == (id, ById(encoded)[id]);
      assert encoded[j].id == id && encoded[j].data == ById(encoded)[id];
    }
  }

  /** Fanning the encoded images out over the map is the transform on the tiles view. */
  lemma FannedOutIsTranscoded(mapping: map<Coord, Option<string>>, images: map<string, Option<Bytes>>,
                              encoded: seq<Image>, transform: Transform)
    requires IsEncoding(images, encoded, transform)
    ensures FannedOut(mapping, ById(encoded)) == Transcoded(Data(Joined(mapping, images)), transform)
  {
    forall c
      ensures var a, b := FannedOut(mapping, ById(encoded)), Transcoded(Data(Joined(mapping, images)), transform);
              (c in a <==> c in b) && Cell(a, c) == Cell(b, c)
    {
      if c in mapping && mapping[c].Some? {
        ByIdIsEncoded(images, encoded, transform, mapping[c].value);
      }
    }
    SameMaps(FannedOut(mapping, ById(encoded)), Transcoded(Data(Joined(mapping, images)), transform));
  }

  /** The new ids resolve to the encoded data. */
  lemma NewIdResolves(encoded: seq<Image>, md5: Md5, id: string)
    requires DistinctIds(encoded)
    requires forall i, j | 0 <= i < |encoded| && 0 <= j < |encoded| ::
               md5(encoded[i].data) == md5(encoded[j].data) ==> encoded[i].data == encoded[j].data
    ensures var ids, stored := PutAll(map[], NewIds(encoded, md5)), PutAll(map[], Md5Pairs(encoded, md5));
            && (id in ids <==> id in ById(encoded))
            && (id in ids ==>
                ids[id] == md5(ById(encoded)[id]) && ids[id] in stored && stored[ids[id]] == Some(ById(encoded)[id]))
  {
    var newIds, pairs := NewIds(encoded, md5), Md5Pairs(encoded, md5);
    PutAllAt(map[], newIds, id);
    PutAllAt(map[], Pairs(encoded), id);
    assert forall i | 0 <= i < |encoded| :: newIds[i].0 == encoded[i].id == Pairs(encoded)[i].0;
    if id in PutAll(map[], newIds) {
      var i :| 0 <= i < |encoded| && newIds[i] == (id, PutAll(map[], newIds)[id]);
      var j :| 0 <= j < |encoded| && Pairs(encoded)[j] == (id, ById(encoded)[id]);
      assert i == j by {
        assert encoded[i].id == encoded[j].id;
      }
      PutAllAt(map[], pairs, md5(encoded[i].data));
      assert pairs[i].0 == md5(encoded[i].data);
    }
  }

  lemma RemappedCell(mapping: map<Coord, Option<string>>, encoded: seq<Image>, hashView: bool, md5: Md5, c: Coord)
    requires DistinctIds(encoded)
    requires forall i, j | 0 <= i < |encoded| && 0 <= j < |encoded| ::
               md5(encoded[i].data) == md5(encoded[j].data) ==> encoded[i].data == encoded[j].data
    ensures var ids, stored := PutAll(map[], NewIds(encoded, md5)), PutAll(map[], Md5Pairs(encoded, md5));
            var joined, expected := Joined(Remapped(mapping, ids), stored), FannedOut(mapping, ById(encoded));
            && (c in joined <==> c in expected)
            && (c in expected ==> joined[c] == Row(expected[c], Some(md5(expected[c].value))))
            && (c in Remapped(mapping, ids) <==> c in expected)
  {
    if c in mapping && mapping[c].Some? {
      NewIdResolves(encoded, md5, mapping[c].value);
    }
  }

  /** A new normalized destination denotes the fanned-out tiles, under correct ids. */
  lemma RemappedView(mapping: map<Coord, Option<string>>, encoded: seq<Image>, hashView: bool, md5: Md5)
    requires DistinctIds(encoded)
    requires forall i, j | 0 <= i < |encoded| && 0 <= j < |encoded| ::
               md5(encoded[i].data) == md5(encoded[j].data) ==> encoded[i].data == encoded[j].data
    ensures var t := NormalizedResult(Empty(Normalized(hashView)), encoded, mapping, md5);
            View(t) == FannedOut(mapping, ById(encoded)) && Hashed(t, md5)
            && Remapped(mapping, PutAll(map[], NewIds(encoded, md5))).Keys == View(t).Keys
  {
    var t := NormalizedResult(Empty(Normalized(hashView)), encoded, mapping, md5);
    var ids := PutAll(map[], NewIds(encoded, md5));
    assert t.mapping == Remapped(mapping, ids);
    forall c {
      RemappedCell(mapping, encoded, hashView, md5, c);
    }
    SameMaps(View(t), FannedOut(mapping, ById(encoded)));
  }

  /** No two images of the source become different data with the same MD5. */
  ghost predicate EncodedCollisionFree(images: map<string, Option<Bytes>>, transform: Transform, md5: Md5) {
    forall a, b :: var x, y := EncodedImage(images, a, transform), EncodedImage(images, b, transform);
      x.Some? && y.Some? && md5(x.value) == md5(y.value) ==> x == y
  }

  /** Normalized sources: encode every image once and fan it out over the map. The result is again the
      transform on the tiles view, whatever the batch size and however the batches are cut. */
  method TranscodeNormalized(src: Tables, kind: MbtType, transform: Transform, md5: Md5, batchSize: nat)
    returns (dst: Database, stats: TranscodeStats)
    requires src.NormalizedTables?
    requires kind.Normalized? ==> EncodedCollisionFree(src.images, transform, md5)
    ensures fresh(dst)
    ensures View(dst.tables) == Transcoded(View(src), transform)
    ensures dst.tables.Type() == kind && Hashed(dst.tables, md5)
    ensures stats.tilesWritten == |View(dst.tables)| && stats.cacheHits == 0
    ensures stats.cacheEncoded == |set id | id in src.images && EncodedImage(src.images, id, transform).Some?|
  {
    dst := new Database(kind);
    var batches := NormalizedReader(src.images, batchSize);
    var encodedBatches := NormalizedCompute(batches, transform);
    ghost var encoded := Concat(encodedBatches);
    EncodedImages(src.images, Concat(batches), transform);
    var uniqueEncoded, rowsWritten := NormalizedWriter(dst, encodedBatches, batchSize, src.mapping, md5);
    stats := TranscodeStats(rowsWritten, 0, uniqueEncoded);
    NormalizedOutcome(src, kind, transform, md5, encoded);
  }

  /** What writing all encoded images leaves in a new file. */
  lemma NormalizedOutcome(src: Tables, kind: MbtType, transform: Transform, md5: Md5, encoded: seq<Image>)
    requires src.NormalizedTables?
    requires kind.Normalized? ==> EncodedCollisionFree(src.images, transform, md5)
    requires IsEncoding(src.images, encoded, transform)
    ensures var t := NormalizedResult(Empty(kind), encoded, src.mapping, md5);
            && View(t) == Transcoded(View(src), transform) && t.Type() == kind && Hashed(t, md5)
            && (if kind.Normalized? then |Remapped(src.mapping, PutAll(map[], NewIds(encoded, md5)))|
                else |FannedOut(src.mapping, ById(encoded))|) == |View(t)|
    ensures |encoded| == |set id | id in src.images && EncodedImage(src.images, id, transform).Some?|
  {
    FannedOutIsTranscoded(src.mapping, src.images, encoded, transform);
    if kind.Normalized? {
      NormalizedToNormalized(src, kind.hashView, transform, md5, encoded);
    } else {
      DirectResult(src.mapping, encoded, kind, md5);
    }
    DistinctIdCount(encoded, set id | id in src.images && EncodedImage(src.images, id, transform).Some?);
  }

  lemma NormalizedToNormalized(src: Tables, hashView: bool, transform: Transform, md5: Md5, encoded: seq<Image>)
    requires src.NormalizedTables? && IsEncoding(src.images, encoded, transform)
    requires EncodedCollisionFree(src.images, transform, md5)
    ensures var t := NormalizedResult(Empty(Normalized(hashView)), encoded, src.mapping, md5);
            && View(t) == FannedOut(src.mapping, ById(encoded)) && Hashed(t, md5)
            && |Remapped(src.mapping, PutAll(map[], NewIds(encoded, md5)))| == |View(t)|
  {
    forall i, j | 0 <= i < |encoded| && 0 <= j < |encoded| && md5(encoded[i].data) == md5(encoded[j].data)
      ensures encoded[i].data == encoded[j].data
    {
      assert EncodedImage(src.images, encoded[i].id, transform) == Some(encoded[i].data);
      assert EncodedImage(src.images, encoded[j].id, transform) == Some(encoded[j].data);
    }
    RemappedView(src.mapping, encoded, hashView, md5);
    SameKeysSameSize(Remapped(src.mapping, PutAll(map[], NewIds(encoded, md5))),
                     View(NormalizedResult(Empty(Normalized(hashView)), encoded, src.mapping, md5)));
  }

  lemma SameKeysSameSize<K, V, W>(a: map<K, V>, b: map<K, W>)
    requires a.Keys == b.Keys
    ensures |a| == |b|
  {
    assert |a| == |a.Keys| && |b| == |b.Keys|;
  }

  lemma DirectResult(mapping: map<Coord, Option<string>>, encoded: seq<Image>, kind: MbtType, md5: Md5)
    ensures var t := NormalizedResult(Empty(kind), encoded, mapping, md5);
            t.Type() == kind && (!kind.Normalized? ==> View(t) == FannedOut(mapping, ById(encoded)) && Hashed(t, md5))
  {
    var joined := FannedOut(mapping, ById(encoded));
    match kind
    case Flat => assert map[] + joined == joined;
    case FlatWithHash => assert map[] + WithMd5(joined, md5) == WithMd5(joined, md5);
    case Normalized(_) =>
  }

  lemma {:induction false} DistinctIdCount(images: seq<Image>, ids: set<string>)
    requires DistinctIds(images)
    requires forall i | 0 <= i < |images| :: images[i].id in ids
    requires forall id | id in ids :: exists i :: 0 <= i < |images| && images[i].id == id
    ensures |images| == |ids|
  {
    if images == [] {
      assert ids == {};
    } else {
      var last := |images| - 1;
      forall id | id in ids - {images[last].id}
        ensures exists i :: 0 <= i < last && images[..last][i].id == id
      {
        var i :| 0 <= i < |images| && images[i].id == id;
        assert images[..last][i].id == id;
      }
      DistinctIdCount(images[..last], ids - {images[last].id});
    }
  }

  // ---------------------------------------------------------------- the two paths

  /** What either path leaves for the same tiles, stored normalized and stored flat: the destinations agree
      if and only if no tile that the transform accepts lies outside the grid. The general path checks
      coordinates, the normalized path does not. */
  lemma PathsAgree(src: Tables, flat: Tables, normalized: Tables, general: Tables, transform: Transform)
    requires View(flat) == View(src)
    requires View(normalized) == Transcoded(View(src), transform)
    requires View(general) == Transcoded(Possible(View(flat)), transform)
    ensures View(normalized) == View(general) <==> forall c | c in Transcoded(View(src), transform) :: IsPossibleRow(c)
  {
    if forall c | c in Transcoded(View(src), transform) :: IsPossibleRow(c) {
      SameMaps(View(normalized), View(general));
    } else {
      var c :| c in Transcoded(View(src), transform) && !IsPossibleRow(c);
      assert c in View(normalized) && c !in View(general);
    }
  }

  /** Both paths on the same tiles, into destinations of any two layouts. */
  method TranscodeBoth(src: Tables, flat: Tables, kind: MbtType, otherKind: MbtType, transform: Transform, md5: Md5,
                       fromHex: string -> Option<int>, xxh3: Bytes -> int, batchSize: nat, maxTrack: nat,
                       timeouts: set<nat>, ghost meaning: int -> Bytes)
    returns (normalized: Database, general: Database)
    requires src.NormalizedTables? && !flat.NormalizedTables? && View(flat) == View(src)
    requires RowsKeysMean(TilesWithHash(flat, md5), flat.HashedTables?, fromHex, meaning, xxh3, maxTrack)
    requires kind.Normalized? ==> EncodedCollisionFree(src.images, transform, md5)
    requires otherKind.Normalized? ==> CollisionFree(Transcoded(Possible(View(flat)), transform), md5)
    ensures View(normalized.tables) == View(general.tables)
       <==> forall c | c in Transcoded(View(src), transform) :: IsPossibleRow(c)
  {
    var stats;
    normalized, stats := TranscodeNormalized(src, kind, transform, md5, batchSize);
    general, stats := TranscodeGeneral(flat, otherKind, transform, md5, fromHex, xxh3, batchSize, maxTrack, timeouts,
                                       meaning);
    PathsAgree(src, flat, normalized.tables, general.tables, transform);
  }

  /** They do part: a tile in the second column of zoom 0, next to one that exists. */
  lemma OffGridTile(data: Bytes, hashView: bool, transform: Transform)
    requires transform(data).Some?
    ensures var off, on := Coord(0, 1, 0), Coord(0, 0, 0);
            var src := NormalizedTables(map[off := Some("id"), on := Some("id")], map["id" := Some(data)], hashView);
            var flat := FlatTables(map[off := Some(data), on := Some(data)]);
            && (forall c :: c in View(src) <==> c in View(flat))
            && (forall c | c in View(flat) :: View(src)[c] == View(flat)[c])
            && off in Transcoded(View(src), transform) && off !in Transcoded(Possible(View(flat)), transform)
            && on in Transcoded(View(src), transform) && on in Transcoded(Possible(View(flat)), transform)
  {
    assert Pow2(0) == 1;
  }
}
