/** The bin-diff part of comparing and patching (`bindiff.rs`): which rows it reads, what it makes of
    one row, and the table it fills. The worker pipeline that runs it is in `Pipeline`. */
module BinDiff {
  import opened Sql
  import opened Tilesets
  import opened Layouts
  import opened Databases
  import opened Statements

  /** Byte-level codecs; `None` is an error. */
  datatype Codec = Codec(
    diff: (Bytes, Bytes) -> Bytes,
    patch: (Bytes, Bytes) -> Option<Bytes>,
    xxh3: Bytes -> int,
    brotli: Bytes -> Option<Bytes>,
    unbrotli: Bytes -> Option<Bytes>,
    gzip: Bytes -> Option<Bytes>,
    gunzip: Bytes -> Option<Bytes>)
  {
    /** Decoding undoes encoding, and a diff patches the old bytes into the new ones. */
    ghost predicate Sound() {
      && (forall a, b :: patch(a, diff(a, b)) == Some(b))
      && (forall a :: brotli(a).Some? ==> unbrotli(brotli(a).value) == Some(a))
      && (forall a :: gzip(a).Some? ==> gunzip(gzip(a).value) == Some(a))
    }
  }

  datatype DifferBefore = DifferBefore(coord: Coord, older: Bytes, newer: Bytes)

  /** The tile as the diff sees it. */
  function Unpacked(patchType: PatchType, tile: Bytes, codec: Codec): Option<Bytes> {
    if patchType == BinDiffGz then codec.gunzip(tile) else Some(tile)
  }

  /** One comparison: the compressed difference and the hash of the new bytes. */
  function DifferProcess(row: DifferBefore, patchType: PatchType, codec: Codec): Option<BinDiffRow> {
    var older := Unpacked(patchType, row.older, codec);
    if older.None? then None else
    var newer := Unpacked(patchType, row.newer, codec);
    if newer.None? then None else
    var data := codec.brotli(codec.diff(older.value, newer.value));
    if data.None? then None else
    Some(BinDiffRow(data.value, codec.xxh3(newer.value)))
  }

  /** The rows of the comparison query: an inner join that keeps the tiles that differ. */
  function DifferQuery(src: Tables, dif: Tables): map<Coord, DifferBefore> {
    var s, d := View(src), View(dif);
    map c | c in s && c in d && Keeps(NotEqual(s[c], d[c])) :: DifferBefore(c, s[c].value, d[c].value)
  }

  /** Every row of the query was processed and inserted under its coordinate. */
  ghost predicate IsDiffTable(src: Tables, dif: Tables, patchType: PatchType, codec: Codec,
                              rows: map<Coord, BinDiffRow>) {
    && rows.Keys == DifferQuery(src, dif).Keys
    && forall c | c in rows :: DifferProcess(DifferQuery(src, dif)[c], patchType, codec) == Some(rows[c])
  }

  /** Every changed tile can be bin-diffed. */
  predicate AllProcess(src: Tables, dif: Tables, patchType: PatchType, codec: Codec) {
    forall c | c in DifferQuery(src, dif) :: DifferProcess(DifferQuery(src, dif)[c], patchType, codec).Some?
  }

  /** The effect of a run of the differ: it succeeds exactly when every row can be processed. */
  method RunDiffer(src: Tables, dif: Tables, patchType: PatchType, codec: Codec)
    returns (ok: bool, rows: map<Coord, BinDiffRow>)
    ensures ok <==> AllProcess(src, dif, patchType, codec)
    ensures ok ==> IsDiffTable(src, dif, patchType, codec, rows)
  {
    var query := DifferQuery(src, dif);
    rows := map[];
    var todo := query.Keys;
    while todo != {}
      invariant todo <= query.Keys && rows.Keys == query.Keys - todo
      invariant forall c | c in rows :: DifferProcess(query[c], patchType, codec) == Some(rows[c])
    {
      var c :| c in todo;
      var processed := DifferProcess(query[c], patchType, codec);
      if processed.None? {
        return false, rows;
      }
      rows := rows[c := processed.value];
      todo := todo - {c};
    }
    return true, rows;
  }

  datatype ApplierBefore = ApplierBefore(coord: Coord, older: Bytes, patchData: Bytes, tileXxh3: int)

  /** One patched tile, checked against the hash in the patch. */
  function PatcherProcess(row: ApplierBefore, patchType: PatchType, codec: Codec): Option<Bytes> {
    var older := Unpacked(patchType, row.older, codec);
    if older.None? then None else
    var patchData := codec.unbrotli(row.patchData);
    if patchData.None? then None else
    var newer := codec.patch(older.value, patchData.value);
    if newer.None? || codec.xxh3(newer.value) != row.tileXxh3 then None
    else if patchType == BinDiffGz then codec.gzip(newer.value)
    else newer
  }

  /** The rows of the patch query; the tile of the source may be NULL. */
  function PatcherQuery(src: Tables, table: BinDiffTable): map<Coord, Option<ApplierBefore>> {
    var s := View(src);
    map c | c in s && c in table.rows ::
      if s[c].Some? then Some(ApplierBefore(c, s[c].value, table.rows[c].patchData, table.rows[c].tileXxh3)) else None
  }

  /** Every row of the query can be read; reading a NULL tile panics in the reader task, which ends the
      query without an error. */
  predicate Readable(src: Tables, table: BinDiffTable) {
    forall c | c in PatcherQuery(src, table) :: PatcherQuery(src, table)[c].Some?
  }

  function PatcherResult(src: Tables, table: BinDiffTable, codec: Codec, c: Coord): Option<Bytes>
    requires c in PatcherQuery(src, table)
  {
    var row := PatcherQuery(src, table)[c];
    if row.None? then None else PatcherProcess(row.value, table.patchType, codec)
  }

  /** Every bin-diffed tile can be patched. */
  predicate AllPatch(src: Tables, table: BinDiffTable, codec: Codec) {
    forall c | c in PatcherQuery(src, table) :: PatcherResult(src, table, codec, c).Some?
  }

  /** A row that was read and cannot be patched; a NULL tile is never a failure. */
  ghost predicate SomeRowFails(src: Tables, table: BinDiffTable, codec: Codec) {
    exists c :: c in PatcherQuery(src, table) && PatcherQuery(src, table)[c].Some?
                && PatcherProcess(PatcherQuery(src, table)[c].value, table.patchType, codec).None?
  }

  /** `tiles` are the results of the rows that were read: all of them when the query can be read. */
  ghost predicate IsPatcherOutput(src: Tables, table: BinDiffTable, codec: Codec, tiles: Tileset) {
    && tiles.Keys <= PatcherQuery(src, table).Keys
    && (Readable(src, table) ==> tiles.Keys == PatcherQuery(src, table).Keys)
    && forall c | c in tiles :: tiles[c].Some? && tiles[c] == PatcherResult(src, table, codec, c)
  }

  /** Read and process the rows in an arbitrary order. */
  method ProcessRows(src: Tables, table: BinDiffTable, codec: Codec) returns (ok: bool, tiles: Tileset)
    ensures Readable(src, table) ==> (ok <==> AllPatch(src, table, codec))
    ensures !ok ==> SomeRowFails(src, table, codec)
    ensures ok ==> IsPatcherOutput(src, table, codec, tiles)
  {
    var query := PatcherQuery(src, table);
    var todo := query.Keys;
    tiles := map[];
    while todo != {}
      invariant todo <= query.Keys && tiles.Keys == query.Keys - todo
      invariant forall c | c in tiles :: tiles[c].Some? && tiles[c] == PatcherResult(src, table, codec, c)
    {
      var c :| c in todo;
      if query[c].None? {
        return true, tiles;
      }
      var tile := PatcherProcess(query[c].value, table.patchType, codec);
      assert tile == PatcherResult(src, table, codec, c);
      if tile.None? {
        return false, tiles;
      }
      tiles := tiles[c := tile];
      todo := todo - {c};
    }
    return true, tiles;
  }

  /** The destination after the patched tiles went in with a plain INSERT. */
  ghost predicate IsBinPatched(before: Tables, tiles: Tileset, after: Tables, md5: Md5) {
    && tiles.Keys !! before.Slots()
    && match before
       case FlatTables(stored) => after == FlatTables(stored + tiles)
       case HashedTables(stored) => after == HashedTables(stored + WithMd5(tiles, md5))
       case NormalizedTables(_, _, _) => false
  }

  /** The effect of a run of the patcher: it fails when a row cannot be processed or its key is taken. */
  method RunPatcher(dst: Database, src: Tables, table: BinDiffTable, codec: Codec, md5: Md5)
    returns (ok: bool, ghost tiles: Tileset)
    requires !dst.tables.NormalizedTables?
    modifies dst
    ensures Readable(src, table) ==>
              (ok <==> PatcherQuery(src, table).Keys !! old(dst.tables).Slots() && AllPatch(src, table, codec))
    ensures !ok ==> SomeRowFails(src, table, codec) || !(PatcherQuery(src, table).Keys !! old(dst.tables).Slots())
    ensures ok ==> IsPatcherOutput(src, table, codec, tiles) && IsBinPatched(old(dst.tables), tiles, dst.tables, md5)
    ensures dst.metadata == old(dst.metadata) && dst.binDiff == old(dst.binDiff)
  {
    var processed;
    ok, processed := ProcessRows(src, table, codec);
    tiles := processed;
    if !ok {
      return;
    }
    match dst.tables
    case FlatTables(stored) =>
      ok, stored := InsertNew(stored, processed);
      if ok {
        dst.tables := FlatTables(stored);
      }
    case HashedTables(stored) =>
      ok, stored := InsertNew(stored, WithMd5(processed, md5));
      if ok {
        dst.tables := HashedTables(stored);
      }
  }
}
