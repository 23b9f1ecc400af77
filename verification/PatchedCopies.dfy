/** Copying with a patch: nothing compares the source with what the patch expects, so what comes out of
    an arbitrary source is a question of its own. */
module PatchedCopies {
  import opened Sql
  import opened Tilesets
  import opened Layouts
  import opened Queries
  import opened PatchLaws
  import opened PatchTheorems
  import opened MetadataTables
  import opened Databases
  import opened BinDiff
  import opened Copier
  import opened FileTheorems
  import opened Guards
  import opened PatchChains

  // ---------------------------------------------------------------- whole-tile patches

  lemma SelectPatchedOfKind(src: Tables, patch: Tables, dstType: MbtType, binDiffed: set<Coord>, md5: Md5)
    ensures SelectPatched(src, patch, dstType, binDiffed, md5)
         == SelectPatched(src, patch, InitSchema(src.Type(), dstType), binDiffed, md5)
  {
  }

  lemma DeltaRestores(base: Tileset, older: Tileset, newer: Tileset)
    requires DropNull(base) == DropNull(older)
    ensures DropNull(Overlay(base, Delta(older, newer))) == DropNull(newer)
    ensures base == older ==> Overlay(base, Delta(older, newer)) == DropNull(newer)
  {
    OverlayDelta(base, older, newer);
    if base == older {
      assert NullKeys(Overlay(base, Delta(older, newer))) == {};
      NullFree(Overlay(base, Delta(older, newer)));
    }
  }

  /** Copying with a diff of the source's own tiles reproduces the new tiles. */
  lemma PatchedCopyOfDiff(src: File, newer: File, patchKind: MbtType, codec: Codec, patch: File, base: File,
                          dstType: MbtType, after: Tables, hashing: Hashing, store: Store)
    requires IsDiffFile(src, newer, patchKind, None, codec, patch, hashing)
    requires View(base.tables) == View(src.tables)
    requires IsPatchedTables(base.tables, patch, dstType, codec, after, hashing.md5)
    requires patchKind.Normalized? ==> Addressed(newer.tables, hashing.md5, store) && EmptyIdIsNull(store)
    requires dstType.Normalized? ==>
              Addressed(base.tables, hashing.md5, store) && Addressed(patch.tables, hashing.md5, store)
    ensures DropNull(View(after)) == DropNull(View(newer.tables))
    ensures !dstType.Normalized? ==> View(after) == DropNull(View(newer.tables))
  {
    DiffFileTables(src, newer, patchKind, codec, patch, hashing);
    DiffView(src.tables, newer.tables, InitSchema(src.tables.Type(), patchKind), patch.tables, hashing.md5, store);
    SelectPatchedOfKind(base.tables, patch.tables, dstType, {}, hashing.md5);
    JoinedView(base.tables, patch.tables, InitSchema(base.tables.Type(), dstType), after, hashing.md5, store);
    DeltaRestores(View(base.tables), View(src.tables), View(newer.tables));
  }

  /** Copying ANY base with a diff: the result has the new tiles if and only if the base carries them
      wherever the diff says nothing. */
  lemma PatchedCopyOfAnyBase(src: File, newer: File, patchKind: MbtType, codec: Codec, patch: File, base: File,
                             dstType: MbtType, after: Tables, hashing: Hashing, store: Store)
    requires IsDiffFile(src, newer, patchKind, None, codec, patch, hashing)
    requires IsPatchedTables(base.tables, patch, dstType, codec, after, hashing.md5)
    requires patchKind.Normalized? ==> Addressed(newer.tables, hashing.md5, store) && EmptyIdIsNull(store)
    requires dstType.Normalized? ==>
              Addressed(base.tables, hashing.md5, store) && Addressed(patch.tables, hashing.md5, store)
    ensures DropNull(View(after)) == DropNull(View(newer.tables))
       <==> Fits(View(base.tables), View(src.tables), View(newer.tables))
    ensures NullKeys(View(after)) == StrayNulls(base.tables, View(src.tables), View(newer.tables), dstType, hashing.md5)
  {
    var kind := InitSchema(base.tables.Type(), dstType);
    DiffFileTables(src, newer, patchKind, codec, patch, hashing);
    DiffView(src.tables, newer.tables, InitSchema(src.tables.Type(), patchKind), patch.tables, hashing.md5, store);
    SelectPatchedOfKind(base.tables, patch.tables, dstType, {}, hashing.md5);
    JoinedView(base.tables, patch.tables, kind, after, hashing.md5, store);
    OverlayAnyBase(View(base.tables), View(src.tables), View(newer.tables));
    JoinedNulls(base.tables, patch.tables, kind, after, hashing.md5, store);
    assert StrayNulls(base.tables, View(src.tables), View(newer.tables), dstType, hashing.md5)
        == NullsOutside(base.tables, View(patch.tables), kind, hashing.md5);
  }

  /** The NULL rows of the base that no row of the patch touches; a normalized copy has them only if they
      have an id. */
  function NullsOutside(base: Tables, patch: Tileset, dstType: MbtType, md5: Md5): set<Coord> {
    set c | && c in NullKeys(View(base)) && c !in patch
            && (dstType.Normalized? ==> Cell(Hashes(TilesWithHash(base, md5)), c).Some?)
  }

  /** The NULL rows that the copy of a base with a diff ends up with. */
  function StrayNulls(base: Tables, older: Tileset, newer: Tileset, dstType: MbtType, md5: Md5): set<Coord> {
    NullsOutside(base, Delta(older, newer), dstType, md5)
  }

  /** The NULL rows of a patched copy, in every layout. */
  lemma JoinedNulls(base: Tables, patch: Tables, kind: MbtType, joined: Tables, md5: Md5, store: Store)
    requires IsJoined(base, patch, kind, joined, md5)
    requires kind.Normalized? ==> Addressed(base, md5, store) && Addressed(patch, md5, store)
    ensures NullKeys(View(joined)) == NullsOutside(base, View(patch), kind, md5)
  {
    var rows := SelectPatched(base, patch, kind, {}, md5);
    if kind.Normalized? {
      SelectPatchedAddressed(base, patch, kind, {}, md5, store);
    }
    CopiedView(Empty(kind), rows, Override, joined, store);
    forall c
      ensures c in NullKeys(View(joined)) <==> c in NullsOutside(base, View(patch), kind, md5)
    {
      JoinedNullAt(base, patch, kind, md5, c);
      assert Lands(Empty(kind), rows, Override, c) <==> c in rows;
      assert Cell(View(joined), c) == if c in rows then rows[c].data else None;
      assert c in View(joined) <==> c in rows && (kind.Normalized? ==> rows[c].hash.Some?);
    }
  }

  lemma JoinedNullAt(base: Tables, patch: Tables, kind: MbtType, md5: Md5, c: Coord)
    ensures var rows := SelectPatched(base, patch, kind, {}, md5);
            c in rows && rows[c].data.None? && (kind.Normalized? ==> rows[c].hash.Some?)
            <==> c in NullsOutside(base, View(patch), kind, md5)
  {
    HashColumn(base, md5, c);
    HashColumn(patch, md5, c);
    SelectPatchedCell(base, patch, kind, md5, c);
  }

  /** A tileset is its values and its NULL rows. */
  lemma SameValuesAndNulls(a: Tileset, b: Tileset)
    ensures a == b <==> DropNull(a) == DropNull(b) && NullKeys(a) == NullKeys(b)
  {
    if DropNull(a) == DropNull(b) && NullKeys(a) == NullKeys(b) {
      forall c
        ensures (c in a <==> c in b) && Cell(a, c) == Cell(b, c)
      {
        assert c in a <==> c in DropNull(a) || c in NullKeys(a);
        assert c in b <==> c in DropNull(b) || c in NullKeys(b);
        assert c in DropNull(a) ==> DropNull(a)[c] == a[c];
        assert c in DropNull(b) ==> DropNull(b)[c] == b[c];
      }
      SameMaps(a, b);
    }
  }

  /** The check that is made afterwards makes up for the one that is missing: if the hash tells the
      result from the new tileset, an unforced copy that succeeds had a base to which the diff
      fits, and it holds the new tiles. */
  lemma PatchedCopySafe(src: File, newer: File, patchKind: MbtType, codec: Codec, patch: File, base: File,
                        dstType: MbtType, after: File, hashing: Hashing, store: Store)
    requires IsDiffFile(src, newer, patchKind, None, codec, patch, hashing)
    requires HashIsRight(src, hashing) && HashIsRight(newer, hashing)
    requires IsPatchedFile(base, patch, dstType, codec, false, after, hashing)
    requires hashing.agg(View(after.tables)) == hashing.agg(View(newer.tables)) ==>
              View(after.tables) == View(newer.tables)
    requires patchKind.Normalized? ==> Addressed(newer.tables, hashing.md5, store) && EmptyIdIsNull(store)
    requires dstType.Normalized? ==>
              Addressed(base.tables, hashing.md5, store) && Addressed(patch.tables, hashing.md5, store)
    ensures FitsExactly(base.tables, View(src.tables), View(newer.tables), dstType, hashing.md5)
    ensures View(after.tables) == View(newer.tables) && HashIsRight(after, hashing)
  {
    PatchHashes(src.metadata, newer.metadata, hashing.agg(View(patch.tables)));
    PatchedCopyVerdict(src, newer, patchKind, codec, patch, base, dstType, after.tables, hashing, store);
  }

  /** The base carries the new values wherever the diff says nothing, the new file has no NULL rows, and
      the base has none that would survive. */
  ghost predicate FitsExactly(base: Tables, older: Tileset, newer: Tileset, dstType: MbtType, md5: Md5) {
    Fits(View(base), older, newer) && NullKeys(newer) == {} && StrayNulls(base, older, newer, dstType, md5) == {}
  }

  /** The verdict of that check. A NULL row of the new file is always part of the diff, which deletes it, so
      the check cannot pass then. */
  lemma PatchedCopyVerdict(src: File, newer: File, patchKind: MbtType, codec: Codec, patch: File, base: File,
                           dstType: MbtType, after: Tables, hashing: Hashing, store: Store)
    requires IsDiffFile(src, newer, patchKind, None, codec, patch, hashing)
    requires IsPatchedTables(base.tables, patch, dstType, codec, after, hashing.md5)
    requires hashing.agg(View(after)) == hashing.agg(View(newer.tables)) ==> View(after) == View(newer.tables)
    requires patchKind.Normalized? ==> Addressed(newer.tables, hashing.md5, store) && EmptyIdIsNull(store)
    requires dstType.Normalized? ==>
              Addressed(base.tables, hashing.md5, store) && Addressed(patch.tables, hashing.md5, store)
    ensures hashing.agg(View(after)) == hashing.agg(View(newer.tables))
       <==> FitsExactly(base.tables, View(src.tables), View(newer.tables), dstType, hashing.md5)
    ensures FitsExactly(base.tables, View(src.tables), View(newer.tables), dstType, hashing.md5)
       <==> View(after) == View(newer.tables)
  {
    PatchedCopyIsExact(src, newer, patchKind, codec, patch, base, dstType, after, hashing, store);
  }

  lemma PatchedCopyIsExact(src: File, newer: File, patchKind: MbtType, codec: Codec, patch: File, base: File,
                           dstType: MbtType, after: Tables, hashing: Hashing, store: Store)
    requires IsDiffFile(src, newer, patchKind, None, codec, patch, hashing)
    requires IsPatchedTables(base.tables, patch, dstType, codec, after, hashing.md5)
    requires patchKind.Normalized? ==> Addressed(newer.tables, hashing.md5, store) && EmptyIdIsNull(store)
    requires dstType.Normalized? ==>
              Addressed(base.tables, hashing.md5, store) && Addressed(patch.tables, hashing.md5, store)
    ensures FitsExactly(base.tables, View(src.tables), View(newer.tables), dstType, hashing.md5)
       <==> View(after) == View(newer.tables)
  {
    PatchedCopyOfAnyBase(src, newer, patchKind, codec, patch, base, dstType, after, hashing, store);
    SameValuesAndNulls(View(after), View(newer.tables));
    NewNullsAreDeleted(base.tables, View(src.tables), View(newer.tables), dstType, hashing.md5);
  }

  lemma NewNullsAreDeleted(base: Tables, older: Tileset, newer: Tileset, dstType: MbtType, md5: Md5)
    ensures NullKeys(newer) !! StrayNulls(base, older, newer, dstType, md5)
  {
    forall c | c in NullKeys(newer)
      ensures c in Delta(older, newer)
    {
      assert Cell(newer, c).None?;
    }
  }

  /** An unforced copy with a diff, from the guards to the check: it succeeds if and only if the diff fits
      the base, and then it has the new tiles; otherwise the mismatch is reported. */
  method CopyWithDiff(base: Database, patch: Database, ghost src: File, ghost newer: File, ghost patchKind: MbtType,
                      dstType: MbtType, codec: Codec, hashing: Hashing, ghost store: Store)
    returns (r: Result<Database, MbtError>)
    requires IsDiffFile(src, newer, patchKind, None, codec, patch.Contents(), hashing)
    requires HashIsRight(src, hashing) && HashIsRight(newer, hashing)
    requires AssertHashes(ExamineDiff(base.Contents()), false).None?
    requires forall tables | IsPatchedTables(base.tables, patch.Contents(), dstType, codec, tables, hashing.md5) ::
               hashing.agg(View(tables)) == hashing.agg(View(newer.tables)) ==> View(tables) == View(newer.tables)
    requires patchKind.Normalized? ==> Addressed(newer.tables, hashing.md5, store) && EmptyIdIsNull(store)
    requires dstType.Normalized? ==>
              Addressed(base.tables, hashing.md5, store) && Addressed(patch.tables, hashing.md5, store)
    ensures r.Success? <==> FitsExactly(base.tables, View(src.tables), View(newer.tables), dstType, hashing.md5)
    ensures r.Success? ==> fresh(r.value) && View(r.value.tables) == View(newer.tables)
    ensures r.Failure? ==> r.error.AggHashMismatchAfterApply?
    ensures r.Success? && DropNull(base.metadata - HASH_KEYS) == DropNull(src.metadata - HASH_KEYS) ==>
              DropNull(r.value.metadata - HASH_KEYS) == DropNull(newer.metadata - HASH_KEYS)
  {
    ghost var baseFile, patchFile := base.Contents(), patch.Contents();
    PatchHashes(src.metadata, newer.metadata, hashing.agg(View(patch.tables)));
    r := RunWithPatch(base, patch, Some(dstType), codec, false, hashing);
    if r.Success? {
      PatchedCopySafe(src, newer, patchKind, codec, patchFile, baseFile, dstType, r.value.Contents(), hashing, store);
      if DropNull(base.metadata - HASH_KEYS) == DropNull(src.metadata - HASH_KEYS) {
        CopiedMetadata(src, newer, patchFile, baseFile, r.value.Contents(), hashing);
      }
    } else {
      assert IsCopyFailure(baseFile, patchFile, dstType, codec, false, r.error, hashing);
      ghost var tables :| IsPatchedTables(baseFile.tables, patchFile, dstType, codec, tables, hashing.md5)
                          && r.error.aggHash == hashing.agg(View(tables));
      PatchedCopyVerdict(src, newer, patchKind, codec, patchFile, baseFile, dstType, tables, hashing, store);
    }
  }

  // ---------------------------------------------------------------- bin-diff patches

  /** The whole-tile part of a bin-diff patch. */
  function Whole(src: Tables, newer: Tables): set<Coord> {
    set c | c in View(src).Keys + View(newer).Keys && (Cell(View(src), c).None? || Cell(View(newer), c).None?)
  }

  /** A tile of an arbitrary base for which a bin-diff patch works: the patch replaces it as a whole, or
      it is there, not NULL, to be bin-diffed, or it is the new one already. */
  predicate FitsBin(src: Tables, newer: Tables, base: Tables, c: Coord) {
    || c in Whole(src, newer)
    || (if c in DifferQuery(src, newer) then Cell(View(base), c).Some?
        else Cell(View(base), c) == Cell(View(newer), c))
  }

  /** The bytes that the patcher computes and compares with the hash in the patch. */
  function PatchedBytes(base: Tables, table: BinDiffTable, codec: Codec, c: Coord): Option<Bytes> {
    if !(c in View(base) && View(base)[c].Some? && c in table.rows) then None else
    var older, data := Unpacked(table.patchType, View(base)[c].value, codec), codec.unbrotli(table.rows[c].patchData);
    if older.None? || data.None? then None else codec.patch(older.value, data.value)
  }

  /** At no tile do the patched bytes collide with the new ones under xxh3. */
  ghost predicate NoXxh3Collision(newer: Tables, base: Tables, table: BinDiffTable, codec: Codec) {
    forall c | c in table.rows && c in View(newer) && View(newer)[c].Some? ::
      var bytes := PatchedBytes(base, table, codec, c);
      bytes.Some? && codec.xxh3(bytes.value) == table.rows[c].tileXxh3 ==>
          bytes == Unpacked(table.patchType, View(newer)[c].value, codec)
  }

  /** The copied tile is the new one, for a bin-diffed tile of a gz patch after decompression. */
  predicate IsNewTile(src: Tables, newer: Tables, patchType: PatchType, codec: Codec, after: Tables, c: Coord) {
    || Cell(View(after), c) == Cell(View(newer), c)
    || (patchType == BinDiffGz && c in DifferQuery(src, newer)
        && SameUnzipped(Cell(View(after), c), Cell(View(newer), c), codec))
  }

  /** What the join leaves at a coordinate, before the bin-diffed tiles come in. */
  lemma JoinedAnyBase(src: Tables, newer: Tables, patch: File, base: Tables, kind: MbtType, joined: Tables,
                      patchKind: MbtType, md5: Md5, c: Coord)
    requires patch.binDiff.Some? && patch.binDiff.value.rows.Keys == DifferQuery(src, newer).Keys
    requires !kind.Normalized? && !patchKind.Normalized?
    requires CopiedTiles(Empty(patchKind), SelectDiff(src, newer, patchKind, true, md5), Override, patch.tables)
    requires CopiedTiles(Empty(kind), SelectPatched(base, patch.tables, kind, BinDiffKeys(patch), md5), Override,
                         joined)
    ensures Cell(View(joined), c) == JoinedCellOf(src, newer, base, c)
  {
    WholeTiles(src, newer, patchKind, md5, c);
    FreshDirectCell(patchKind, SelectDiff(src, newer, patchKind, true, md5), patch.tables, c);
    FreshDirectCell(kind, SelectPatched(base, patch.tables, kind, BinDiffKeys(patch), md5), joined, c);
    JoinedCell(base, patch.tables, kind, BinDiffKeys(patch), md5, c);
  }

  /** A tile that the patcher produced has the new contents: its hash was compared. */
  lemma PatchedTileIsNew(src: Tables, newer: Tables, table: BinDiffTable, base: Tables, codec: Codec, tiles: Tileset,
                         c: Coord)
    requires codec.Sound() && IsDiffTable(src, newer, table.patchType, codec, table.rows)
    requires IsPatcherOutput(base, table, codec, tiles) && NoXxh3Collision(newer, base, table, codec)
    requires c in tiles
    ensures c in DifferQuery(src, newer) && c in View(base)
    ensures table.patchType == BinDiffRaw ==> tiles[c] == View(newer)[c]
    ensures table.patchType == BinDiffGz ==> SameUnzipped(tiles[c], View(newer)[c], codec)
  {
    assert tiles[c] == PatcherResult(base, table, codec, c);
    assert DifferProcess(DifferQuery(src, newer)[c], table.patchType, codec) == Some(table.rows[c]);
    assert PatchedBytes(base, table, codec, c) == Unpacked(table.patchType, View(newer)[c].value, codec);
  }

  lemma BinDiffAnyBaseAt(src: Tables, newer: Tables, patch: File, base: Tables, kind: MbtType, codec: Codec,
                         joined: Tables, tiles: Tileset, after: Tables, patchKind: MbtType, md5: Md5, c: Coord)
    requires codec.Sound() && patch.binDiff.Some? && !kind.Normalized? && !patchKind.Normalized?
    requires CopiedTiles(Empty(patchKind), SelectDiff(src, newer, patchKind, true, md5), Override, patch.tables)
    requires IsDiffTable(src, newer, patch.binDiff.value.patchType, codec, patch.binDiff.value.rows)
    requires CopiedTiles(Empty(kind), SelectPatched(base, patch.tables, kind, BinDiffKeys(patch), md5), Override,
                         joined)
    requires IsPatcherOutput(base, patch.binDiff.value, codec, tiles) && IsBinPatched(joined, tiles, after, md5)
    requires NoXxh3Collision(newer, base, patch.binDiff.value, codec)
    ensures IsNewTile(src, newer, patch.binDiff.value.patchType, codec, after, c) ==> FitsBin(src, newer, base, c)
    ensures Readable(base, patch.binDiff.value) && FitsBin(src, newer, base, c) ==>
              IsNewTile(src, newer, patch.binDiff.value.patchType, codec, after, c)
  {
    var table := patch.binDiff.value;
    AfterBothStages(src, newer, patch, base, kind, codec, joined, tiles, after, patchKind, md5, c);
    BinDiffedOutcome(src, newer, table, base, codec, tiles, c);
    AnyBaseVerdict(src, newer, table.patchType, codec, base, tiles, after, c);
  }

  /** What both stages together leave at a coordinate. */
  lemma AfterBothStages(src: Tables, newer: Tables, patch: File, base: Tables, kind: MbtType, codec: Codec,
                        joined: Tables, tiles: Tileset, after: Tables, patchKind: MbtType, md5: Md5, c: Coord)
    requires patch.binDiff.Some? && patch.binDiff.value.rows.Keys == DifferQuery(src, newer).Keys
    requires !kind.Normalized? && !patchKind.Normalized?
    requires CopiedTiles(Empty(patchKind), SelectDiff(src, newer, patchKind, true, md5), Override, patch.tables)
    requires CopiedTiles(Empty(kind), SelectPatched(base, patch.tables, kind, BinDiffKeys(patch), md5), Override,
                         joined)
    requires IsBinPatched(joined, tiles, after, md5)
    ensures Cell(View(after), c) == if c in tiles then tiles[c] else JoinedCellOf(src, newer, base, c)
  {
    JoinedAnyBase(src, newer, patch, base, kind, joined, patchKind, md5, c);
    BinPatchedCell(joined, tiles, after, md5, c);
  }

  /** What the join leaves at a coordinate, before the bin-diffed tiles come in. */
  function JoinedCellOf(src: Tables, newer: Tables, base: Tables, c: Coord): Option<Bytes> {
    if c in Whole(src, newer) then Cell(View(newer), c)
    else if c in DifferQuery(src, newer) then None
    else Cell(View(base), c)
  }

  /** What the patcher contributes at a coordinate. */
  lemma BinDiffedOutcome(src: Tables, newer: Tables, table: BinDiffTable, base: Tables, codec: Codec, tiles: Tileset,
                         c: Coord)
    requires codec.Sound() && IsDiffTable(src, newer, table.patchType, codec, table.rows)
    requires IsPatcherOutput(base, table, codec, tiles) && NoXxh3Collision(newer, base, table, codec)
    ensures c in tiles ==>
              && c in DifferQuery(src, newer) && Cell(View(base), c).Some?
              && (tiles[c] == Cell(View(newer), c)
                  || (table.patchType == BinDiffGz && SameUnzipped(tiles[c], Cell(View(newer), c), codec)))
    ensures Readable(base, table) && FitsBin(src, newer, base, c) && c in DifferQuery(src, newer) ==> c in tiles
  {
    PatchedTilesAt(src, newer, table, base, codec, tiles, c);
    if c in tiles {
      PatchedTileIsNew(src, newer, table, base, codec, tiles, c);
    }
    WholeOrBin(src, newer, c);
    FitsIsRead(src, newer, base, table, tiles, c);
  }

  lemma FitsIsRead(src: Tables, newer: Tables, base: Tables, table: BinDiffTable, tiles: Tileset, c: Coord)
    requires Readable(base, table) && c in DifferQuery(src, newer) && c in View(base) ==> c in tiles
    requires c in DifferQuery(src, newer) ==> c !in Whole(src, newer)
    ensures Readable(base, table) && FitsBin(src, newer, base, c) && c in DifferQuery(src, newer) ==> c in tiles
  {
  }

  lemma WholeOrBin(src: Tables, newer: Tables, c: Coord)
    ensures c in DifferQuery(src, newer) ==> c !in Whole(src, newer) && Cell(View(newer), c).Some?
  {
  }

  lemma PatchedTilesAt(src: Tables, newer: Tables, table: BinDiffTable, base: Tables, codec: Codec, tiles: Tileset,
                       c: Coord)
    requires IsDiffTable(src, newer, table.patchType, codec, table.rows)
    requires IsPatcherOutput(base, table, codec, tiles)
    ensures c in tiles ==> c in DifferQuery(src, newer) && Cell(View(base), c).Some?
    ensures Readable(base, table) && c in DifferQuery(src, newer) && c in View(base) ==> c in tiles
  {
    assert c in tiles ==> c in PatcherQuery(base, table) && PatcherResult(base, table, codec, c).Some?;
    assert c in PatcherQuery(base, table) <==> c in View(base) && c in DifferQuery(src, newer);
  }

  /** Where the query cannot be read there is a tile that does not fit. */
  lemma UnreadableDoesNotFit(src: Tables, newer: Tables, table: BinDiffTable, base: Tables, codec: Codec)
    returns (c: Coord)
    requires IsDiffTable(src, newer, table.patchType, codec, table.rows) && !Readable(base, table)
    ensures c in DifferQuery(src, newer) && c in View(base) && Cell(View(base), c).None?
    ensures !FitsBin(src, newer, base, c)
  {
    c :| c in PatcherQuery(base, table) && PatcherQuery(base, table)[c].None?;
    WholeOrBin(src, newer, c);
  }

  /** The verdict on one coordinate, from what the two stages leave there. */
  lemma AnyBaseVerdict(src: Tables, newer: Tables, patchType: PatchType, codec: Codec, base: Tables, tiles: Tileset,
                       after: Tables, c: Coord)
    requires Cell(View(after), c) == if c in tiles then tiles[c] else JoinedCellOf(src, newer, base, c)
    requires c in tiles ==>
               && c in DifferQuery(src, newer) && Cell(View(base), c).Some?
               && (tiles[c] == Cell(View(newer), c)
                   || (patchType == BinDiffGz && SameUnzipped(tiles[c], Cell(View(newer), c), codec)))
    ensures IsNewTile(src, newer, patchType, codec, after, c) ==> FitsBin(src, newer, base, c)
    ensures FitsBin(src, newer, base, c) && (c in DifferQuery(src, newer) ==> c in tiles) ==>
              IsNewTile(src, newer, patchType, codec, after, c)
  {
    WholeOrBin(src, newer, c);
  }

  /** Copying ANY base with a bin-diff patch, raw or gz: if the copy got through the bin-diff stage, the
      result has the new tiles if and only if every tile of the base fits. A NULL tile to be bin-diffed
      does not: it ends the reader, and any of the bin-diffed tiles may then be missing. */
  lemma BinDiffAnyBase(src: Tables, newer: Tables, patch: File, base: Tables, kind: MbtType, codec: Codec,
                       joined: Tables, tiles: Tileset, after: Tables, patchKind: MbtType, md5: Md5)
    requires codec.Sound() && patch.binDiff.Some? && !kind.Normalized? && !patchKind.Normalized?
    requires CopiedTiles(Empty(patchKind), SelectDiff(src, newer, patchKind, true, md5), Override, patch.tables)
    requires IsDiffTable(src, newer, patch.binDiff.value.patchType, codec, patch.binDiff.value.rows)
    requires IsPatchedVia(base, patch, kind, codec, joined, tiles, after, md5)
    requires NoXxh3Collision(newer, base, patch.binDiff.value, codec)
    ensures (forall c :: IsNewTile(src, newer, patch.binDiff.value.patchType, codec, after, c))
       <==> (forall c :: FitsBin(src, newer, base, c))
  {
    forall c
      ensures IsNewTile(src, newer, patch.binDiff.value.patchType, codec, after, c) ==> FitsBin(src, newer, base, c)
      ensures Readable(base, patch.binDiff.value) && FitsBin(src, newer, base, c) ==>
                IsNewTile(src, newer, patch.binDiff.value.patchType, codec, after, c)
    {
      BinDiffAnyBaseAt(src, newer, patch, base, kind, codec, joined, tiles, after, patchKind, md5, c);
    }
    if !Readable(base, patch.binDiff.value) {
      var c := UnreadableDoesNotFit(src, newer, patch.binDiff.value, base, codec);
    }
  }

  /** A patched copy keeps the hash convention, bin-diffed tiles included. */
  lemma PatchedCopyIsHonest(base: Tables, patch: File, dstType: MbtType, codec: Codec, after: Tables, md5: Md5,
                            store: Store)
    requires IsPatchedTables(base, patch, dstType, codec, after, md5)
    requires Honest(base, md5, store) && Honest(patch.tables, md5, store)
    ensures Hashed(after, md5)
  {
    var kind := InitSchema(base.Type(), dstType);
    var joined, tiles :| IsPatchedVia(base, patch, dstType, codec, joined, tiles, after, md5);
    SelectPatchedOfKind(base, patch.tables, dstType, BinDiffKeys(patch), md5);
    JoinedIsHonest(base, patch.tables, kind, BinDiffKeys(patch), joined, md5, store);
    HonestMeans(joined, md5, store);
    if patch.binDiff.Some? {
      forall c | c in TilesWithHash(after, md5)
        ensures RowHashed(TilesWithHash(after, md5)[c], md5)
      {
        assert c !in tiles ==> TilesWithHash(after, md5)[c] == TilesWithHash(joined, md5)[c];
      }
    }
  }

  /** A raw bin-diff is compared afterwards: whatever base an unforced copy went through on, if the hash tells the
      result from the new tileset the copy holds exactly the new tileset. */
  lemma RawBinDiffSafe(src: File, newer: File, patchKind: MbtType, codec: Codec, patch: File, base: File,
                       dstType: MbtType, after: File, hashing: Hashing)
    requires IsDiffFile(src, newer, patchKind, Some(BinDiffRaw), codec, patch, hashing)
    requires HashIsRight(newer, hashing)
    requires IsPatchedFile(base, patch, dstType, codec, false, after, hashing)
    requires hashing.agg(View(after.tables)) == hashing.agg(View(newer.tables)) ==>
               View(after.tables) == View(newer.tables)
    ensures View(after.tables) == View(newer.tables)
  {
    DiffFileHashes(src, newer, patchKind, Some(BinDiffRaw), codec, patch, hashing);
    PatchedFileLaw(base, patch, dstType, codec, false, after, hashing);
  }

  /** A bin-diff patch copied onto a file with its source's tiles goes through, unforced: each tile can be patched,
      the joined rows leave their keys free, and the hash is the promised one. */
  method CopyWithBinDiff(base: Database, patch: Database, ghost src: File, ghost newer: File, ghost patchKind: MbtType,
                         ghost patchType: PatchType, dstType: MbtType, codec: Codec, hashing: Hashing)
    returns (r: Result<Database, MbtError>)
    requires codec.Sound() && !dstType.Normalized? && !patchKind.Normalized?
    requires IsDiffFile(src, newer, patchKind, Some(patchType), codec, patch.Contents(), hashing)
    requires HashIsRight(src, hashing) && HashIsRight(newer, hashing) && NullKeys(View(newer.tables)) == {}
    requires View(base.tables) == View(src.tables) && AssertHashes(ExamineDiff(base.Contents()), false).None?
    requires patchType == BinDiffGz ==> forall b :: codec.gzip(b).Some?
    ensures r.Success? && fresh(r.value) && View(r.value.tables).Keys == View(newer.tables).Keys
    ensures patchType == BinDiffRaw ==> View(r.value.tables) == View(newer.tables)
    ensures patchType == BinDiffGz ==>
              forall c | c in View(newer.tables) ::
                View(r.value.tables)[c] == View(newer.tables)[c]
                || SameUnzipped(View(r.value.tables)[c], View(newer.tables)[c], codec)
  {
    ghost var baseFile, patchFile := base.Contents(), patch.Contents();
    DiffPassesChecks(src, newer, patchKind, Some(patchType), codec, patchFile, baseFile, dstType, hashing);
    r := RunWithPatch(base, patch, Some(dstType), codec, false, hashing);
    if r.Failure? {
      NoCopyFailure(src, newer, patchKind, patchType, codec, patchFile, baseFile, dstType, r.error, hashing);
    }
    CopiedTilesAreNew(src, newer, patchKind, patchType, codec, patchFile, baseFile, dstType, r.value.Contents(),
                      hashing);
  }

  lemma CopiedTilesAreNew(src: File, newer: File, patchKind: MbtType, patchType: PatchType, codec: Codec, patch: File,
                          base: File, dstType: MbtType, after: File, hashing: Hashing)
    requires codec.Sound() && !dstType.Normalized? && !patchKind.Normalized?
    requires IsDiffFile(src, newer, patchKind, Some(patchType), codec, patch, hashing)
    requires View(base.tables) == View(src.tables) && NullKeys(View(newer.tables)) == {}
    requires IsPatchedFile(base, patch, dstType, codec, false, after, hashing)
    ensures View(after.tables).Keys == View(newer.tables).Keys
    ensures patchType == BinDiffRaw ==> View(after.tables) == View(newer.tables)
    ensures patchType == BinDiffGz ==>
              forall c | c in View(newer.tables) ::
                View(after.tables)[c] == View(newer.tables)[c]
                || SameUnzipped(View(after.tables)[c], View(newer.tables)[c], codec)
  {
    BinDiffCopy(src, newer, patchKind, patchType, codec, patch, base, dstType, false, after, hashing);
    SameButForNulls(View(after.tables), View(newer.tables), patchType, codec);
  }

  lemma SameButForNulls(after: Tileset, newer: Tileset, patchType: PatchType, codec: Codec)
    requires NullKeys(newer) == {}
    requires forall c :: c in after <==> c in DropNull(newer)
    requires forall c | c in after ::
               after[c] == newer[c] || (patchType == BinDiffGz && SameUnzipped(after[c], newer[c], codec))
    ensures after.Keys == newer.Keys && (patchType == BinDiffRaw ==> after == newer)
    ensures forall c | c in newer :: after[c] == newer[c] || SameUnzipped(after[c], newer[c], codec)
  {
    NullFree(newer);
    if patchType == BinDiffRaw {
      SameMaps(after, newer);
    }
  }

  /** There is no way for such a copy to fail. */
  lemma NoCopyFailure(src: File, newer: File, patchKind: MbtType, patchType: PatchType, codec: Codec, patch: File,
                      base: File, dstType: MbtType, error: MbtError, hashing: Hashing)
    requires codec.Sound() && !dstType.Normalized? && !patchKind.Normalized?
    requires IsDiffFile(src, newer, patchKind, Some(patchType), codec, patch, hashing)
    requires HashIsRight(newer, hashing) && NullKeys(View(newer.tables)) == {}
    requires View(base.tables) == View(src.tables)
    requires patchType == BinDiffGz ==> forall b :: codec.gzip(b).Some?
    ensures !IsCopyFailure(base, patch, dstType, codec, false, error, hashing)
  {
    if error.BindiffError? {
      NoRowFails(src.tables, newer.tables, patch.binDiff.value, base.tables, codec);
    } else if IsCopyFailure(base, patch, dstType, codec, false, error, hashing) {
      DiffFileHashes(src, newer, patchKind, Some(patchType), codec, patch, hashing);
      NullFree(View(newer.tables));
      var tables :| IsPatchedTables(base.tables, patch, dstType, codec, tables, hashing.md5)
                    && error.aggHash == hashing.agg(View(tables));
      RawTilesAreNew(src, newer, patchKind, patchType, codec, patch, base.tables, dstType, tables, hashing);
      assert false;
    }
  }

  /** Any outcome of such a copy with a raw patch has the new tiles. */
  lemma RawTilesAreNew(src: File, newer: File, patchKind: MbtType, patchType: PatchType, codec: Codec, patch: File,
                       base: Tables, dstType: MbtType, after: Tables, hashing: Hashing)
    requires codec.Sound() && !dstType.Normalized? && !patchKind.Normalized?
    requires IsDiffFile(src, newer, patchKind, Some(patchType), codec, patch, hashing)
    requires View(base) == View(src.tables) && IsPatchedTables(base, patch, dstType, codec, after, hashing.md5)
    ensures patchType == BinDiffRaw ==> View(after) == DropNull(View(newer.tables))
  {
    var joined, tiles :| IsPatchedVia(base, patch, dstType, codec, joined, tiles, after, hashing.md5);
    BinDiffExact(src.tables, newer.tables, patch, base, dstType, codec, joined, tiles, after, patchKind, hashing.md5);
  }

  /** On the tiles it was made from, no row of a bin-diff table fails, if what was unzipped can be zipped again. */
  lemma NoRowFails(src: Tables, newer: Tables, table: BinDiffTable, base: Tables, codec: Codec)
    requires codec.Sound() && IsDiffTable(src, newer, table.patchType, codec, table.rows) && View(base) == View(src)
    requires table.patchType == BinDiffGz ==> forall b :: codec.gzip(b).Some?
    ensures !SomeRowFails(base, table, codec)
  {
    forall c | c in PatcherQuery(base, table) && PatcherQuery(base, table)[c].Some?
      ensures PatcherProcess(PatcherQuery(base, table)[c].value, table.patchType, codec).Some?
    {
      RowSucceeds(src, newer, table, base, codec, c);
    }
  }

  lemma RowSucceeds(src: Tables, newer: Tables, table: BinDiffTable, base: Tables, codec: Codec, c: Coord)
    requires codec.Sound() && IsDiffTable(src, newer, table.patchType, codec, table.rows) && View(base) == View(src)
    requires table.patchType == BinDiffGz ==> forall b :: codec.gzip(b).Some?
    requires c in PatcherQuery(base, table) && PatcherQuery(base, table)[c].Some?
    ensures PatcherProcess(PatcherQuery(base, table)[c].value, table.patchType, codec).Some?
  {
    DifferedRow(src, newer, table, codec, c);
    BinDiffRoundTrip(View(src)[c].value, View(newer)[c].value, table.patchType, codec, c);
  }

  lemma DifferedRow(src: Tables, newer: Tables, table: BinDiffTable, codec: Codec, c: Coord)
    requires IsDiffTable(src, newer, table.patchType, codec, table.rows) && c in table.rows
    ensures c in View(src) && c in View(newer) && View(src)[c].Some? && View(newer)[c].Some?
    ensures DifferProcess(DifferBefore(c, View(src)[c].value, View(newer)[c].value), table.patchType, codec)
         == Some(table.rows[c])
  {
    assert c in DifferQuery(src, newer);
  }

  /** For gz patches no hash of the result is compared. Here is how the copy of a base with a wrong tile that
      the patch does not mention goes through, unforced, and keeps the wrong tile. */
  lemma GzPatchOnWrongBase(src: File, newer: File, base: File, codec: Codec, hashing: Hashing, c: Coord)
    returns (patch: File, after: File)
    requires src.tables.FlatTables? && newer.tables.FlatTables? && base.tables.FlatTables?
    requires codec.Sound() && AllProcess(src.tables, newer.tables, BinDiffGz, codec) && forall b :: codec.gzip(b).Some?
    requires forall k | k in DifferQuery(src.tables, newer.tables) ::
              Cell(View(base.tables), k) == Cell(View(src.tables), k)
    requires HashIsRight(src, hashing) && HashIsRight(newer, hashing) && AssertHashes(ExamineDiff(base), false).None?
    requires !FitsBin(src.tables, newer.tables, base.tables, c)
    ensures IsDiffFile(src, newer, Flat, Some(BinDiffGz), codec, patch, hashing)
    ensures PatchGuard(ExamineDiff(base), ExamineDiff(patch), Flat, false).None?
    ensures IsPatchedFile(base, patch, Flat, codec, false, after, hashing)
    ensures Cell(View(after.tables), c) != Cell(View(newer.tables), c)
  {
    patch := GzPatch(src, newer, codec, hashing);
    var joined, tiles, tables := GzCopy(src, newer, base, patch, codec, hashing);
    after := File(tables,
                  PatchedMetadata(base.metadata, patch.metadata)[AGG_TILES_HASH := Some(hashing.agg(View(tables)))],
                  None);
    assert IsPatchedTables(base.tables, patch, Flat, codec, tables, hashing.md5);
    JoinedAnyBase(src.tables, newer.tables, patch, base.tables, Flat, joined, Flat, hashing.md5, c);
    BinPatchedCell(joined, tiles, tables, hashing.md5, c);
    assert c !in Whole(src.tables, newer.tables);
    WholeOrBin(src.tables, newer.tables, c);
  }

  /** The copy goes through both stages. */
  lemma GzCopy(src: File, newer: File, base: File, patch: File, codec: Codec, hashing: Hashing)
    returns (joined: Tables, tiles: Tileset, after: Tables)
    requires patch.tables.FlatTables? && base.tables.FlatTables?
    requires IsDiffFile(src, newer, Flat, Some(BinDiffGz), codec, patch, hashing)
    requires codec.Sound() && forall b :: codec.gzip(b).Some?
    requires forall k | k in DifferQuery(src.tables, newer.tables) ::
              Cell(View(base.tables), k) == Cell(View(src.tables), k)
    ensures IsPatchedVia(base.tables, patch, Flat, codec, joined, tiles, after, hashing.md5)
    ensures joined.FlatTables? && tiles.Keys == DifferQuery(src.tables, newer.tables).Keys
  {
    var table := patch.binDiff.value;
    GzTilesPatch(src.tables, newer.tables, table, base.tables, codec);
    var rows := SelectPatched(base.tables, patch.tables, Flat, BinDiffKeys(patch), hashing.md5);
    joined := FlatTables(Merge(map[], Data(rows), Override));
    BinDiffKeysFree(base.tables, patch, Flat, joined, hashing.md5);
    tiles := PatchedTiles(base.tables, table, codec);
    after := FlatTables(joined.tiles + tiles);
    assert IsBinPatched(joined, tiles, after, hashing.md5);
  }

  lemma PatchedTiles(base: Tables, table: BinDiffTable, codec: Codec) returns (tiles: Tileset)
    requires AllPatch(base, table, codec)
    ensures IsPatcherOutput(base, table, codec, tiles) && tiles.Keys == PatcherQuery(base, table).Keys
  {
    var query := PatcherQuery(base, table);
    tiles := map k | k in query :: PatcherResult(base, table, codec, k);
  }

  /** Nor does it take a wrong tile: one NULL tile among those to be bin-diffed panics the reader, the run
      returns Ok all the same, and the unforced copy goes through without a single bin-diffed tile. */
  lemma GzPatchOnNullTile(src: File, newer: File, base: File, codec: Codec, hashing: Hashing, nullTile: Coord)
    returns (patch: File, after: File)
    requires src.tables.FlatTables? && newer.tables.FlatTables? && base.tables.FlatTables?
    requires AllProcess(src.tables, newer.tables, BinDiffGz, codec)
    requires HashIsRight(src, hashing) && HashIsRight(newer, hashing) && AssertHashes(ExamineDiff(base), false).None?
    requires nullTile in DifferQuery(src.tables, newer.tables) && nullTile in NullKeys(View(base.tables))
    ensures IsDiffFile(src, newer, Flat, Some(BinDiffGz), codec, patch, hashing)
    ensures PatchGuard(ExamineDiff(base), ExamineDiff(patch), Flat, false).None?
    ensures IsPatchedFile(base, patch, Flat, codec, false, after, hashing)
    ensures forall c | c in DifferQuery(src.tables, newer.tables) ::
              c in DropNull(View(newer.tables)) && c !in View(after.tables)
  {
    patch := GzPatch(src, newer, codec, hashing);
    var tables := NullTileCopy(base, patch, codec, hashing, nullTile);
    assert IsPatchedTables(base.tables, patch, Flat, codec, tables, hashing.md5);
    after := File(tables,
                  PatchedMetadata(base.metadata, patch.metadata)[AGG_TILES_HASH := Some(hashing.agg(View(tables)))],
                  None);
    forall c | c in DifferQuery(src.tables, newer.tables)
      ensures c in DropNull(View(newer.tables)) && c !in View(tables)
    {
      WholeOrBin(src.tables, newer.tables, c);
      JoinedAnyBase(src.tables, newer.tables, patch, base.tables, Flat, tables, Flat, hashing.md5, c);
      JoinedDropsBinDiffed(base.tables, patch, tables, hashing.md5, c);
    }
  }

  /** The copy of a base in which the patcher reads nothing. */
  lemma NullTileCopy(base: File, patch: File, codec: Codec, hashing: Hashing, nullTile: Coord) returns (joined: Tables)
    requires patch.binDiff.Some? && nullTile in patch.binDiff.value.rows && nullTile in NullKeys(View(base.tables))
    ensures CopiedTiles(Empty(Flat), SelectPatched(base.tables, patch.tables, Flat, BinDiffKeys(patch), hashing.md5),
                        Override, joined)
    ensures IsPatchedVia(base.tables, patch, Flat, codec, joined, map[], joined, hashing.md5)
  {
    var rows := SelectPatched(base.tables, patch.tables, Flat, BinDiffKeys(patch), hashing.md5);
    joined := FlatTables(Merge(map[], Data(rows), Override));
    assert PatcherQuery(base.tables, patch.binDiff.value)[nullTile].None?;
    assert joined == FlatTables(joined.tiles + map[]);
  }

  lemma JoinedDropsBinDiffed(base: Tables, patch: File, joined: Tables, md5: Md5, c: Coord)
    requires CopiedTiles(Empty(Flat), SelectPatched(base, patch.tables, Flat, BinDiffKeys(patch), md5), Override,
                         joined)
    requires c in BinDiffKeys(patch)
    ensures c in View(joined) ==> Cell(View(joined), c).Some?
  {
    JoinedCell(base, patch.tables, Flat, BinDiffKeys(patch), md5, c);
    FreshDirectCell(Flat, SelectPatched(base, patch.tables, Flat, BinDiffKeys(patch), md5), joined, c);
  }

  lemma GzPatch(src: File, newer: File, codec: Codec, hashing: Hashing) returns (patch: File)
    requires src.tables.FlatTables? && AllProcess(src.tables, newer.tables, BinDiffGz, codec)
    requires HashIsRight(src, hashing) && HashIsRight(newer, hashing)
    ensures IsDiffFile(src, newer, Flat, Some(BinDiffGz), codec, patch, hashing) && patch.tables.FlatTables?
    ensures ValidateDiffInfo(ExamineDiff(patch), false).None?
  {
    var tables := FlatTables(Merge(map[], Data(SelectDiff(src.tables, newer.tables, Flat, true, hashing.md5)),
                                   Override));
    var query := DifferQuery(src.tables, newer.tables);
    var rows := map k | k in query :: DifferProcess(query[k], BinDiffGz, codec).value;
    PatchHashes(src.metadata, newer.metadata, hashing.agg(View(tables)));
    patch := File(tables, DiffFileMetadata(src.metadata, newer.metadata, hashing.agg(View(tables))),
                  Some(BinDiffTable(BinDiffGz, rows)));
  }

  /** Bin-diffs on the tiles they were made from never fail if compression does not. */
  lemma GzTilesPatch(src: Tables, newer: Tables, table: BinDiffTable, base: Tables, codec: Codec)
    requires codec.Sound() && table.patchType == BinDiffGz && forall b :: codec.gzip(b).Some?
    requires IsDiffTable(src, newer, table.patchType, codec, table.rows)
    requires forall k | k in DifferQuery(src, newer) :: Cell(View(base), k) == Cell(View(src), k)
    ensures Readable(base, table) && AllPatch(base, table, codec)
    ensures PatcherQuery(base, table).Keys == DifferQuery(src, newer).Keys
  {
    forall k
      ensures k in PatcherQuery(base, table) <==> k in DifferQuery(src, newer)
      ensures k in PatcherQuery(base, table) ==>
                PatcherQuery(base, table)[k].Some? && PatcherResult(base, table, codec, k).Some?
    {
      GzTilePatches(src, newer, table, base, codec, k);
    }
  }

  lemma GzTilePatches(src: Tables, newer: Tables, table: BinDiffTable, base: Tables, codec: Codec, k: Coord)
    requires codec.Sound() && table.patchType == BinDiffGz && forall b :: codec.gzip(b).Some?
    requires IsDiffTable(src, newer, table.patchType, codec, table.rows)
    requires k in DifferQuery(src, newer) ==> Cell(View(base), k) == Cell(View(src), k)
    ensures k in PatcherQuery(base, table) <==> k in DifferQuery(src, newer)
    ensures k in PatcherQuery(base, table) ==>
              PatcherQuery(base, table)[k].Some? && PatcherResult(base, table, codec, k).Some?
  {
    if k in DifferQuery(src, newer) {
      var row := DiffedRow(src, newer, k);
      assert Cell(View(base), k) == Some(row.older);
      var patched := table.rows[k];
      assert DifferProcess(row, BinDiffGz, codec) == Some(patched);
      PatcherRow(base, table, k, row.older);
      GzRowPatches(row, patched, codec);
    }
  }

  lemma DiffedRow(src: Tables, newer: Tables, k: Coord) returns (row: DifferBefore)
    requires k in DifferQuery(src, newer)
    ensures row == DifferQuery(src, newer)[k] && row.coord == k
    ensures Cell(View(src), k) == Some(row.older) && Cell(View(newer), k) == Some(row.newer)
  {
    row := DifferQuery(src, newer)[k];
  }

  lemma PatcherRow(base: Tables, table: BinDiffTable, k: Coord, older: Bytes)
    requires Cell(View(base), k) == Some(older) && k in table.rows
    ensures k in PatcherQuery(base, table)
    ensures PatcherQuery(base, table)[k]
         == Some(ApplierBefore(k, older, table.rows[k].patchData, table.rows[k].tileXxh3))
  {
  }

  lemma GzRowPatches(row: DifferBefore, patched: BinDiffRow, codec: Codec)
    requires codec.Sound() && DifferProcess(row, BinDiffGz, codec) == Some(patched)
    requires codec.gunzip(row.newer).Some? ==> codec.gzip(codec.gunzip(row.newer).value).Some?
    ensures PatcherProcess(ApplierBefore(row.coord, row.older, patched.patchData, patched.tileXxh3), BinDiffGz,
                           codec).Some?
  {
    BinDiffRoundTrip(row.older, row.newer, BinDiffGz, codec, row.coord);
  }

  /** Such files exist: one tile changes, and another one is wrong in the base. */
  lemma WrongBaseExists(c: Coord, d: Coord)
    requires c != d
    ensures var src := FlatTables(map[c := Some([1]), d := Some([3])]);
            var newer := FlatTables(map[c := Some([1]), d := Some([4])]);
            var base := FlatTables(map[c := Some([2]), d := Some([3])]);
            && d in DifferQuery(src, newer) && !FitsBin(src, newer, base, c)
            && forall k | k in DifferQuery(src, newer) :: Cell(View(base), k) == Cell(View(src), k)
  {
  }

  lemma NullTileExists(c: Coord, d: Coord)
    requires c != d
    ensures var src := FlatTables(map[c := Some([1]), d := Some([3])]);
            var newer := FlatTables(map[c := Some([2]), d := Some([4])]);
            var base := FlatTables(map[c := None, d := Some([3])]);
            && c in DifferQuery(src, newer) && d in DifferQuery(src, newer) && c in NullKeys(View(base))
            && FitsBin(src, newer, base, d) && !FitsBin(src, newer, base, c)
  {
  }
}
