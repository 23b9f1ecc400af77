/** `insert_tiles` and the writer of the general transcoding path. */
module TileWriter {
  import opened Sql
  import opened Tilesets
  import opened Layouts
  import opened Databases
  import opened TileCoords
  import opened Transcoder

  /** `INSERT OR REPLACE` of one row after the other. */
  function PutAll<K, V>(table: map<K, V>, rows: seq<(K, V)>): map<K, V> {
    if rows == [] then table
    else PutAll(table, rows[..|rows| - 1])[rows[|rows| - 1].0 := rows[|rows| - 1].1]
  }

  method Put<K(==), V>(table: map<K, V>, rows: seq<(K, V)>) returns (result: map<K, V>)
    ensures result == PutAll(table, rows)
  {
    result := table;
    for i := 0 to |rows|
      invariant result == PutAll(table, rows[..i])
    {
      result := result[rows[i].0 := rows[i].1];
      assert rows[..i + 1][..i] == rows[..i];
    }
    assert rows[..|rows|] == rows;
  }

  lemma {:induction false} PutAllConcat<K, V>(table: map<K, V>, a: seq<(K, V)>, b: seq<(K, V)>)
    ensures PutAll(table, a + b) == PutAll(PutAll(table, a), b)
  {
    if b == [] {
      assert a + b == a;
    } else {
      assert (a + b)[..|a + b| - 1] == a + b[..|b| - 1];
      PutAllConcat(table, a, b[..|b| - 1]);
    }
  }

  /** A key holds the value of some row with that key, and only if no row has it the old value. */
  lemma {:induction false} PutAllAt<K, V>(table: map<K, V>, rows: seq<(K, V)>, k: K)
    ensures k in PutAll(table, rows) <==> k in table || exists i :: 0 <= i < |rows| && rows[i].0 == k
    ensures (exists i :: 0 <= i < |rows| && rows[i].0 == k) ==>
              exists i :: 0 <= i < |rows| && rows[i] == (k, PutAll(table, rows)[k])
    ensures (forall i | 0 <= i < |rows| :: rows[i].0 != k) && k in table ==> PutAll(table, rows)[k] == table[k]
  {
    if rows == [] {
    } else {
      var last := |rows| - 1;
      PutAllAt(table, rows[..last], k);
      if rows[last].0 == k {
        assert rows[last] == (k, PutAll(table, rows)[k]);
      } else if exists i :: 0 <= i < |rows| && rows[i].0 == k {
        var i :| 0 <= i < |rows| && rows[i].0 == k;
        assert rows[..last][i].0 == k;
        var j :| 0 <= j < last && rows[..last][j] == (k, PutAll(table, rows[..last])[k]);
        assert rows[j] == (k, PutAll(table, rows)[k]);
      }
    }
  }

  function TileRows(batch: seq<EncodedTile>): seq<(Coord, Option<Bytes>)> {
    seq(|batch|, i requires 0 <= i < |batch| => (ToRow(batch[i].coord), Some(batch[i].data)))
  }

  function HashRows(batch: seq<EncodedTile>, md5: Md5): seq<(Coord, Row)> {
    seq(|batch|, i requires 0 <= i < |batch| =>
      (ToRow(batch[i].coord), Row(Some(batch[i].data), Some(md5(batch[i].data)))))
  }

  function MapRows(batch: seq<EncodedTile>, md5: Md5): seq<(Coord, Option<string>)> {
    seq(|batch|, i requires 0 <= i < |batch| => (ToRow(batch[i].coord), Some(md5(batch[i].data))))
  }

  function ImageRows(batch: seq<EncodedTile>, md5: Md5): seq<(string, Option<Bytes>)> {
    seq(|batch|, i requires 0 <= i < |batch| => (md5(batch[i].data), Some(batch[i].data)))
  }

  /** The tables after inserting a batch under Override. */
  function Inserted(t: Tables, batch: seq<EncodedTile>, md5: Md5): Tables {
    match t
    case FlatTables(tiles) => FlatTables(PutAll(tiles, TileRows(batch)))
    case HashedTables(rows) => HashedTables(PutAll(rows, HashRows(batch, md5)))
    case NormalizedTables(mapping, images, hashView) =>
      NormalizedTables(PutAll(mapping, MapRows(batch, md5)), PutAll(images, ImageRows(batch, md5)), hashView)
  }

  /** Where a long batch is cut makes no difference. */
  lemma InsertedConcat(t: Tables, a: seq<EncodedTile>, b: seq<EncodedTile>, md5: Md5)
    ensures Inserted(t, a + b, md5) == Inserted(Inserted(t, a, md5), b, md5)
  {
    match t
    case FlatTables(tiles) =>
      assert TileRows(a + b) == TileRows(a) + TileRows(b);
      PutAllConcat(tiles, TileRows(a), TileRows(b));
    case HashedTables(rows) =>
      assert HashRows(a + b, md5) == HashRows(a, md5) + HashRows(b, md5);
      PutAllConcat(rows, HashRows(a, md5), HashRows(b, md5));
    case NormalizedTables(mapping, images, _) =>
      assert MapRows(a + b, md5) == MapRows(a, md5) + MapRows(b, md5);
      PutAllConcat(mapping, MapRows(a, md5), MapRows(b, md5));
      assert ImageRows(a + b, md5) == ImageRows(a, md5) + ImageRows(b, md5);
      PutAllConcat(images, ImageRows(a, md5), ImageRows(b, md5));
  }

  /** Insert a batch of tiles: for a normalized file the images before the map rows. */
  method InsertTiles(dst: Database, batch: seq<EncodedTile>, md5: Md5)
    modifies dst`tables
    ensures dst.tables == Inserted(old(dst.tables), batch, md5)
  {
    match dst.tables
    case FlatTables(tiles) =>
      tiles := Put(tiles, TileRows(batch));
      dst.tables := FlatTables(tiles);
    case HashedTables(rows) =>
      rows := Put(rows, HashRows(batch, md5));
      dst.tables := HashedTables(rows);
    case NormalizedTables(mapping, images, hashView) =>
      images := Put(images, ImageRows(batch, md5));
      mapping := Put(mapping, MapRows(batch, md5));
      dst.tables := NormalizedTables(mapping, images, hashView);
  }

  /** Collect batches and flush when enough tiles are pending or too much time has passed; `timeouts`
      says at which batches the clock forces a flush. */
  method GeneralWriter(dst: Database, batches: seq<seq<EncodedTile>>, batchSize: nat, timeouts: set<nat>, md5: Md5)
    returns (total: nat)
    modifies dst`tables
    ensures dst.tables == Inserted(old(dst.tables), Concat(batches), md5)
    ensures total == |Concat(batches)|
  {
    total := 0;
    var pending: seq<EncodedTile> := [];
    ghost var written: seq<EncodedTile> := [];
    InsertedNothing(dst.tables, md5);
    for k := 0 to |batches|
      invariant dst.tables == Inserted(old(dst.tables), written, md5)
      invariant total == |written| && written + pending == Concat(batches[..k])
    {
      ConcatNext(batches, k);
      assert written + (pending + batches[k]) == written + pending + batches[k];
      pending := pending + batches[k];
      if |pending| >= batchSize || k in timeouts {
        Flush(dst, old(dst.tables), written, pending, md5);
        total := total + |pending|;
        written := written + pending;
        pending := [];
        assert written + [] == written;
      }
    }
    assert batches[..|batches|] == batches;
    if pending == [] {
      assert written + [] == written;
    } else {
      Flush(dst, old(dst.tables), written, pending, md5);
      total := total + |pending|;
    }
  }

  /** Write the pending tiles behind the ones already written. */
  method Flush(dst: Database, ghost before: Tables, ghost written: seq<EncodedTile>, pending: seq<EncodedTile>,
               md5: Md5)
    requires dst.tables == Inserted(before, written, md5)
    modifies dst`tables
    ensures dst.tables == Inserted(before, written + pending, md5)
  {
    InsertedConcat(before, written, pending, md5);
    InsertTiles(dst, pending, md5);
  }

  lemma ConcatNext<T>(batches: seq<seq<T>>, k: nat)
    requires k < |batches|
    ensures Concat(batches[..k + 1]) == Concat(batches[..k]) + batches[k]
  {
    assert batches[..k + 1] == batches[..k] + [batches[k]];
    ConcatAppend(batches[..k], batches[k]);
  }

  lemma InsertedNothing(t: Tables, md5: Md5)
    ensures Inserted(t, [], md5) == t
  {
  }

  // ---------------------------------------------------------------- what ends up in a new file

  /** No two different encoded tiles have the same MD5. */
  ghost predicate NoCollision(tiles: seq<EncodedTile>, md5: Md5) {
    forall i, j | 0 <= i < |tiles| && 0 <= j < |tiles| ::
      md5(tiles[i].data) == md5(tiles[j].data) ==> tiles[i].data == tiles[j].data
  }

  predicate DistinctCoords(tiles: seq<EncodedTile>) {
    forall i, j | 0 <= i < j < |tiles| :: tiles[i].coord != tiles[j].coord
  }

  /** A new file of any layout holds exactly the tiles that were inserted, with correct hashes. */
  lemma InsertedView(kind: MbtType, tiles: seq<EncodedTile>, md5: Md5, c: Coord)
    requires DistinctCoords(tiles) && (kind.Normalized? ==> NoCollision(tiles, md5))
    ensures var t := Inserted(Empty(kind), tiles, md5);
            && (c in View(t) <==> exists i :: 0 <= i < |tiles| && ToRow(tiles[i].coord) == c)
            && (forall i | 0 <= i < |tiles| && ToRow(tiles[i].coord) == c :: View(t)[c] == Some(tiles[i].data))
            && (c in TilesWithHash(t, md5) ==> RowHashed(TilesWithHash(t, md5)[c], md5))
  {
    forall i, j | 0 <= i < |tiles| && 0 <= j < |tiles| && ToRow(tiles[i].coord) == ToRow(tiles[j].coord)
      ensures i == j
    {
      ToRowInjective(tiles[i].coord, tiles[j].coord);
    }
    match kind
    case Flat => InsertedFlat(tiles, md5, c);
    case FlatWithHash => InsertedHashed(tiles, md5, c);
    case Normalized(hashView) => InsertedNormalized(tiles, md5, hashView, c);
  }

  lemma InsertedFlat(tiles: seq<EncodedTile>, md5: Md5, c: Coord)
    requires forall i, j | 0 <= i < |tiles| && 0 <= j < |tiles| && ToRow(tiles[i].coord) == ToRow(tiles[j].coord) ::
              i == j
    ensures var t := PutAll(map[], TileRows(tiles));
            && (c in t <==> exists i :: 0 <= i < |tiles| && ToRow(tiles[i].coord) == c)
            && (forall i | 0 <= i < |tiles| && ToRow(tiles[i].coord) == c :: t[c] == Some(tiles[i].data))
  {
    var rows := TileRows(tiles);
    PutAllAt(map[], rows, c);
    assert forall i | 0 <= i < |tiles| :: rows[i].0 == ToRow(tiles[i].coord);
  }

  lemma InsertedHashed(tiles: seq<EncodedTile>, md5: Md5, c: Coord)
    requires forall i, j | 0 <= i < |tiles| && 0 <= j < |tiles| && ToRow(tiles[i].coord) == ToRow(tiles[j].coord) ::
              i == j
    ensures var t := PutAll(map[], HashRows(tiles, md5));
            && (c in t <==> exists i :: 0 <= i < |tiles| && ToRow(tiles[i].coord) == c)
            && (forall i | 0 <= i < |tiles| && ToRow(tiles[i].coord) == c :: t[c].data == Some(tiles[i].data))
            && (c in t ==> RowHashed(t[c], md5))
  {
    var rows := HashRows(tiles, md5);
    PutAllAt(map[], rows, c);
    assert forall i | 0 <= i < |tiles| :: rows[i].0 == ToRow(tiles[i].coord);
  }

  lemma ImagesInserted(tiles: seq<EncodedTile>, md5: Md5, i: nat)
    requires NoCollision(tiles, md5) && i < |tiles|
    ensures var images := PutAll(map[], ImageRows(tiles, md5));
            md5(tiles[i].data) in images && images[md5(tiles[i].data)] == Some(tiles[i].data)
  {
    var rows := ImageRows(tiles, md5);
    PutAllAt(map[], rows, md5(tiles[i].data));
    assert rows[i].0 == md5(tiles[i].data);
  }

  lemma InsertedNormalized(tiles: seq<EncodedTile>, md5: Md5, hashView: bool, c: Coord)
    requires NoCollision(tiles, md5)
    requires forall i, j | 0 <= i < |tiles| && 0 <= j < |tiles| && ToRow(tiles[i].coord) == ToRow(tiles[j].coord) ::
              i == j
    ensures var t := Inserted(Empty(Normalized(hashView)), tiles, md5);
            && (c in View(t) <==> exists i :: 0 <= i < |tiles| && ToRow(tiles[i].coord) == c)
            && (forall i | 0 <= i < |tiles| && ToRow(tiles[i].coord) == c :: View(t)[c] == Some(tiles[i].data))
            && (c in TilesWithHash(t, md5) ==> RowHashed(TilesWithHash(t, md5)[c], md5))
  {
    var rows := MapRows(tiles, md5);
    PutAllAt(map[], rows, c);
    assert forall i | 0 <= i < |tiles| :: rows[i].0 == ToRow(tiles[i].coord);
    forall i | 0 <= i < |tiles| {
      ImagesInserted(tiles, md5, i);
    }
  }
}
