/** `copier.rs`: copying, comparing, and copying with a patch. */
module Copier {
  import opened Sql
  import opened Tilesets
  import opened Layouts
  import opened Statements
  import opened Queries
  import opened MetadataTables
  import opened Databases
  import opened BinDiff

  /** A schema copied verbatim from a normalized source also gets the `tiles_with_hash` view. */
  function InitSchema(srcType: MbtType, dstType: MbtType): MbtType {
    if srcType == dstType && dstType.Normalized? then Normalized(true) else dstType
  }

  /** A new file has the layout that was asked for; only a verbatim copy of the schema adds the view. */
  lemma NewLayout(srcType: MbtType, dstType: MbtType)
    ensures dstType.Flat? ==> InitSchema(srcType, dstType) == Flat
    ensures dstType.FlatWithHash? ==> InitSchema(srcType, dstType) == FlatWithHash
    ensures dstType.Normalized? ==>
              InitSchema(srcType, dstType) == Normalized(dstType.hashView || srcType == dstType)
  {
  }

  /** The INSERT statements of `copy_tiles`: for a normalized destination the images before the map. */
  method CopyTiles(dst: Database, rows: Rows, mode: OnDuplicate)
    modifies dst
    ensures CopiedTiles(old(dst.tables), rows, mode, dst.tables)
    ensures dst.metadata == old(dst.metadata) && dst.binDiff == old(dst.binDiff)
  {
    match dst.tables
    case FlatTables(tiles) =>
      tiles := InsertRows(tiles, Data(rows), mode);
      dst.tables := FlatTables(tiles);
    case HashedTables(stored) =>
      stored := InsertRows(stored, rows, mode);
      dst.tables := HashedTables(stored);
    case NormalizedTables(mapping, images, hashView) =>
      images := AddImages(images, rows);
      dst.tables := dst.tables.(images := images);
      mapping := InsertRows(mapping, Hashes(rows), mode);
      dst.tables := dst.tables.(mapping := mapping);
  }

  /** What the options of a copy ask for besides copying. */
  datatype CopyPlan = PlainCopy | DiffWith(dif: Metadata) | ApplyPatchOf(dif: Metadata)

  /** The metadata rows that a copy writes. */
  function SelectMetadata(src: Metadata, plan: CopyPlan): Metadata {
    match plan
    case PlainCopy => src
    case DiffWith(dif) => DiffMetadata(src, dif)
    case ApplyPatchOf(dif) => PatchedMetadata(src, dif)
  }

  /** `copy_metadata`: one of three SELECTs, inserted under the duplicate mode. */
  method CopyMetadata(dst: Database, src: Metadata, plan: CopyPlan, mode: OnDuplicate)
    modifies dst`metadata
    ensures dst.metadata == Merge(old(dst.metadata), SelectMetadata(src, plan), mode)
  {
    dst.metadata := InsertRows(dst.metadata, SelectMetadata(src, plan), mode);
  }

  /** What a plain copy leaves in a destination that held `before`. */
  ghost predicate IsCopied(src: File, before: File, mode: OnDuplicate, after: File, hashing: Hashing) {
    && CopiedTiles(before.tables, SelectCopy(src.tables, before.tables.Type(), hashing.md5), mode, after.tables)
    && after.metadata
         == Merge(before.metadata, src.metadata, mode)[AGG_TILES_HASH := Some(hashing.agg(View(after.tables)))]
    && after.binDiff == before.binDiff
  }

  /** Copy `src` into the existing file, or into a new one when there is none. */
  method RunSimple(src: Database, existing: Database?, dstType: Option<MbtType>, onDuplicate: Option<OnDuplicate>,
                   hashing: Hashing) returns (r: Result<Database, MbtError>)
    modifies existing
    ensures existing != null && r.Failure? ==> existing.Contents() == old(existing.Contents())
    ensures r.Success? ==> r.value == existing || fresh(r.value)
    ensures r == Failure(SameSourceAndDestination) <==> src == existing
    ensures var kind := InitSchema(src.tables.Type(), if dstType.Some? then dstType.value else src.tables.Type());
            existing == null ==>
              && r.Success?
              && fresh(r.value)
              && IsCopied(old(src.Contents()), File(Empty(kind), map[], None),
                          if onDuplicate.Some? then onDuplicate.value else Override, r.value.Contents(), hashing)
    ensures existing != null && existing != src ==>
      (r.Success? <==>
       && onDuplicate.Some?
       && (dstType.Some? ==>
             && (dstType.value.Flat? <==> old(existing.tables).FlatTables?)
             && (dstType.value.FlatWithHash? <==> old(existing.tables).HashedTables?)))
    ensures existing != null && r.Success? ==>
              && r.value == existing
              && IsCopied(old(src.Contents()), old(existing.Contents()), onDuplicate.value, existing.Contents(),
                          hashing)
    ensures existing != null && existing != src && onDuplicate.None? ==> r == Failure(DestinationFileExists)
    ensures existing != null && existing != src && onDuplicate.Some? && r.Failure? ==> r.error == MismatchedTargetType
    ensures r.Success? ==> HashIsRight(r.value.Contents(), hashing)
    ensures existing == null ==>
              && IsOfKind(r.value.tables, old(src.tables.Type()), dstType)
              && MetadataIsMerged(old(src.metadata), map[], if onDuplicate.Some? then onDuplicate.value else Override,
                                  r.value.metadata)
    ensures existing != null && r.Success? ==>
              && existing.tables.Type() == old(existing.tables.Type())
              && MetadataIsMerged(old(src.metadata), old(existing.metadata), onDuplicate.value, existing.metadata)
  {
    if src == existing {
      return Failure(SameSourceAndDestination);
    }
    var mode := Override;
    if onDuplicate.Some? {
      mode := onDuplicate.value;
    } else if existing != null {
      return Failure(DestinationFileExists);
    }
    var dst: Database;
    if existing == null {
      dst := new Database(InitSchema(src.tables.Type(), if dstType.Some? then dstType.value else src.tables.Type()));
    } else {
      if dstType.Some? && !SameFamily(dstType.value, existing.tables.Type()) {
        return Failure(MismatchedTargetType);
      }
      dst := existing;
    }
    ghost var before := dst.Contents();
    CopyTiles(dst, SelectCopy(src.tables, dst.tables.Type(), hashing.md5), mode);
    CopyMetadata(dst, src.metadata, PlainCopy, mode);
    var _ := dst.UpdateAggTilesHash(hashing.agg);
    CopiedFileLaw(src.Contents(), before, mode, dst.Contents(), hashing);
    return Success(dst);
  }

  /** The tables have the layout that was asked for, or else the layout of the source. */
  predicate IsOfKind(tables: Tables, srcType: MbtType, dstType: Option<MbtType>) {
    match if dstType.Some? then dstType.value else srcType
    case Flat => tables.FlatTables?
    case FlatWithHash => tables.HashedTables?
    case Normalized(hashView) =>
      && tables.NormalizedTables?
      && (dstType.Some? && srcType != dstType.value ==> tables.hashView == hashView)
      && (dstType.None? || srcType == dstType.value ==> tables.hashView)
  }

  /** Every key of either file but the hash has one of the two values; the mode says whose value wins. */
  ghost predicate MetadataIsMerged(src: Metadata, before: Metadata, mode: OnDuplicate, after: Metadata) {
    forall k | k != AGG_TILES_HASH ::
      && (k in after <==> k in src || k in before)
      && (k in after && k !in before ==> after[k] == src[k])
      && (k in after && k !in src ==> after[k] == before[k])
      && (k in src && k in before ==> after[k] == if mode.Ignore? then before[k] else src[k])
  }

  lemma CopiedFileLaw(src: File, before: File, mode: OnDuplicate, after: File, hashing: Hashing)
    requires IsCopied(src, before, mode, after, hashing)
    ensures HashIsRight(after, hashing) && after.tables.Type() == before.tables.Type()
    ensures MetadataIsMerged(src.metadata, before.metadata, mode, after.metadata)
    ensures forall k | k != AGG_TILES_HASH ::
              Cell(after.metadata, k)
              == if k in src.metadata && (k in before.metadata ==> mode.Override?) then src.metadata[k]
                 else Cell(before.metadata, k)
  {
  }

  predicate SameFamily(a: MbtType, b: MbtType) {
    a == b || (a.Normalized? && b.Normalized?)
  }

  /** The checks before a comparison. */
  function DiffGuard(src: PatchFileInfo, dif: PatchFileInfo, dstType: MbtType, patchType: Option<PatchType>,
                     force: bool): Option<MbtError> {
    if AssertHashes(dif, force).Some? then AssertHashes(dif, force)
    else if AssertHashes(src, force).Some? then AssertHashes(src, force)
    else if patchType.Some? && dstType.Normalized? then Some(BinDiffRequiresFlatWithHash(dstType))
    else None
  }

  ghost predicate IsDiffTables(src: Tables, dif: Tables, dstType: MbtType, patchType: Option<PatchType>, patch: Tables,
                               md5: Md5) {
    CopiedTiles(Empty(InitSchema(src.Type(), dstType)), SelectDiff(src, dif, dstType, patchType.Some?, md5), Override,
                patch)
  }

  /** The patch file that comparing `src` with `dif` writes. */
  ghost predicate IsDiffFile(src: File, dif: File, dstType: MbtType, patchType: Option<PatchType>, codec: Codec,
                             patch: File, hashing: Hashing) {
    && IsDiffTables(src.tables, dif.tables, dstType, patchType, patch.tables, hashing.md5)
    && patch.metadata == DiffFileMetadata(src.metadata, dif.metadata, hashing.agg(View(patch.tables)))
    && (patchType.None? ==> patch.binDiff == None)
    && (patchType.Some? ==>
          && patch.binDiff.Some?
          && patch.binDiff.value.patchType == patchType.value
          && IsDiffTable(src.tables, dif.tables, patchType.value, codec, patch.binDiff.value.rows))
  }

  /** Compare two files, and write their difference to a new patch file. */
  method RunWithDiff(src: Database, dif: Database, dstTypeOption: Option<MbtType>, patchType: Option<PatchType>,
                     codec: Codec, force: bool, hashing: Hashing) returns (r: Result<Database, MbtError>)
    ensures var dstType := if dstTypeOption.Some? then dstTypeOption.value else src.tables.Type();
            var guard := DiffGuard(ExamineDiff(src.Contents()), ExamineDiff(dif.Contents()), dstType, patchType, force);
            && (guard.Some? ==> r == Failure(guard.value))
            && (r.Success? <==>
                guard.None? && (patchType.None? || AllProcess(src.tables, dif.tables, patchType.value, codec)))
            && (guard.None? && r.Failure? ==> r.error == BindiffError)
            && (r.Success? ==>
                fresh(r.value) && IsDiffFile(src.Contents(), dif.Contents(), dstType, patchType, codec,
                                             r.value.Contents(), hashing))
    ensures r.Success? ==>
              && HashIsRight(r.value.Contents(), hashing)
              && Cell(r.value.metadata, AGG_TILES_HASH_BEFORE_APPLY) == Cell(src.metadata, AGG_TILES_HASH)
              && Cell(r.value.metadata, AGG_TILES_HASH_AFTER_APPLY) == Cell(dif.metadata, AGG_TILES_HASH)
              && IsOfKind(r.value.tables, src.tables.Type(), dstTypeOption)
              && (if r.value.binDiff.Some? then Some(r.value.binDiff.value.patchType) else None) == patchType
  {
    HashKeysDistinct();
    var difInfo := ExamineDiff(dif.Contents());
    var e := AssertHashes(difInfo, force);
    if e.Some? { return Failure(e.value); }
    var srcInfo := ExamineDiff(src.Contents());
    e := AssertHashes(srcInfo, force);
    if e.Some? { return Failure(e.value); }
    var dstType := if dstTypeOption.Some? then dstTypeOption.value else srcInfo.mbtType;
    if patchType.Some? && dstType.Normalized? {
      return Failure(BinDiffRequiresFlatWithHash(dstType));
    }
    r := WriteDiff(src.Contents(), dif.Contents(), dstType, patchType, codec, hashing);
  }

  /** A new file with the differing tiles and metadata. */
  method WriteDiffTables(src: File, dif: File, dstType: MbtType, patchType: Option<PatchType>, md5: Md5)
    returns (dst: Database)
    ensures fresh(dst) && dst.binDiff == None && dst.metadata == DiffMetadata(src.metadata, dif.metadata)
    ensures IsDiffTables(src.tables, dif.tables, dstType, patchType, dst.tables, md5)
  {
    dst := new Database(InitSchema(src.tables.Type(), dstType));
    CopyTiles(dst, SelectDiff(src.tables, dif.tables, dstType, patchType.Some?, md5), Override);
    CopyMetadata(dst, src.metadata, DiffWith(dif.metadata), Override);
  }

  /** The writing part of a comparison. */
  method WriteDiff(src: File, dif: File, dstType: MbtType, patchType: Option<PatchType>, codec: Codec, hashing: Hashing)
    returns (r: Result<Database, MbtError>)
    ensures r.Success? <==> patchType.None? || AllProcess(src.tables, dif.tables, patchType.value, codec)
    ensures r.Failure? ==> r.error == BindiffError
    ensures r.Success? ==>
              fresh(r.value) && IsDiffFile(src, dif, dstType, patchType, codec, r.value.Contents(), hashing)
  {
    var dst := WriteDiffTables(src, dif, dstType, patchType, hashing.md5);
    ghost var tables := dst.tables;
    var table := None;
    if patchType.Some? {
      var ok, rows := RunDiffer(src.tables, dif.tables, patchType.value, codec);
      if !ok { return Failure(BindiffError); }
      table := Some(BinDiffTable(patchType.value, rows));
      dst.binDiff := table;
    }
    ghost var file := File(tables, DiffFileMetadata(src.metadata, dif.metadata, hashing.agg(View(tables))), table);
    assert IsDiffFile(src, dif, dstType, patchType, codec, file, hashing);
    var hash := Stamp(dst, Cell(src.metadata, AGG_TILES_HASH), Cell(dif.metadata, AGG_TILES_HASH), hashing.agg);
    assert dst.tables == tables && hash == hashing.agg(View(tables));
    assert dst.Contents() == file;
    return Success(dst);
  }

  /** Record which hash a patch expects, which one it promises, and its own. */
  method Stamp(dst: Database, before: Option<string>, after: Option<string>, agg: Tileset -> string)
    returns (hash: string)
    modifies dst`metadata
    ensures hash == agg(View(dst.tables))
    ensures dst.metadata == Stamped(old(dst.metadata), before, after, hash)
  {
    if before.Some? {
      dst.SetMetadataValue(AGG_TILES_HASH_BEFORE_APPLY, before.value);
    }
    if after.Some? {
      dst.SetMetadataValue(AGG_TILES_HASH_AFTER_APPLY, after.value);
    }
    hash := dst.UpdateAggTilesHash(agg);
  }

  /** The checks before copying with a patch: unlike the in-place patcher, nothing compares the hash
      of the source with what the patch expects. */
  function PatchGuard(src: PatchFileInfo, dif: PatchFileInfo, dstType: MbtType, force: bool): Option<MbtError> {
    if ValidateDiffInfo(dif, force).Some? then ValidateDiffInfo(dif, force)
    else if AssertHashes(src, force).Some? then AssertHashes(src, force)
    else if dif.patchType.Some? && dstType.Normalized? then Some(BinDiffRequiresFlatWithHash(dstType))
    else None
  }

  /** The tile tables after both stages: the join, then the bin-diffed tiles. */
  ghost predicate IsPatchedTables(src: Tables, dif: File, dstType: MbtType, codec: Codec, after: Tables, md5: Md5) {
    exists joined, tiles :: IsPatchedVia(src, dif, dstType, codec, joined, tiles, after, md5)
  }

  ghost predicate IsPatchedVia(src: Tables, dif: File, dstType: MbtType, codec: Codec, joined: Tables, tiles: Tileset,
                               after: Tables, md5: Md5) {
    && CopiedTiles(Empty(InitSchema(src.Type(), dstType)),
                   SelectPatched(src, dif.tables, dstType, BinDiffKeys(dif), md5), Override, joined)
    && if dif.binDiff.None? then after == joined
       else IsPatcherOutput(src, dif.binDiff.value, codec, tiles) && IsBinPatched(joined, tiles, after, md5)
  }

  function BinDiffKeys(f: File): set<Coord> {
    if f.binDiff.Some? then f.binDiff.value.rows.Keys else {}
  }

  /** Apply a patch file to `src` while copying it into a new file. */
  method RunWithPatch(src: Database, dif: Database, dstTypeOption: Option<MbtType>, codec: Codec, force: bool,
                      hashing: Hashing) returns (r: Result<Database, MbtError>)
    ensures var dstType := if dstTypeOption.Some? then dstTypeOption.value else src.tables.Type();
            var info := ExamineDiff(dif.Contents());
            var guard := PatchGuard(ExamineDiff(src.Contents()), info, dstType, force);
            && (guard.Some? ==> r == Failure(guard.value))
            && (guard.None? && r.Failure? ==>
                IsCopyFailure(src.Contents(), dif.Contents(), dstType, codec, force, r.error, hashing))
            && (r.Success? ==>
                fresh(r.value) && IsPatchedFile(src.Contents(), dif.Contents(), dstType, codec, force,
                                                r.value.Contents(), hashing))
    ensures r.Success? ==>
              && HashIsRight(r.value.Contents(), hashing)
              && r.value.metadata - HASH_KEYS == Overlay(src.metadata, dif.metadata) - HASH_KEYS
              && IsOfKind(r.value.tables, src.tables.Type(), dstTypeOption)
              && r.value.binDiff == None
    ensures r.Success? && !force && (dif.binDiff.Some? ==> dif.binDiff.value.patchType == BinDiffRaw)
              && Cell(dif.metadata, AGG_TILES_HASH_AFTER_APPLY).Some? ==>
              Some(hashing.agg(View(r.value.tables))) == Cell(dif.metadata, AGG_TILES_HASH_AFTER_APPLY)
    ensures r.Failure? && r.error.AggHashMismatchAfterApply? ==>
              !force && (dif.binDiff.Some? ==> dif.binDiff.value.patchType == BinDiffRaw)
  {
    var difInfo := ExamineDiff(dif.Contents());
    var e := ValidateDiffInfo(difInfo, force);
    if e.Some? { return Failure(e.value); }
    var srcInfo := ExamineDiff(src.Contents());
    e := AssertHashes(srcInfo, force);
    if e.Some? { return Failure(e.value); }
    var dstType := if dstTypeOption.Some? then dstTypeOption.value else srcInfo.mbtType;
    if difInfo.patchType.Some? && dstType.Normalized? {
      return Failure(BinDiffRequiresFlatWithHash(dstType));
    }
    r := WritePatched(src.Contents(), dif.Contents(), dstType, codec, force, hashing);
    if r.Success? {
      PatchedFileLaw(src.Contents(), dif.Contents(), dstType, codec, force, r.value.Contents(), hashing);
      PatchedLayout(src.tables, dif.Contents(), dstTypeOption, codec, r.value.tables, hashing.md5);
    }
  }

  /** Hash, metadata and check of a patched copy. */
  lemma PatchedFileLaw(src: File, dif: File, dstType: MbtType, codec: Codec, force: bool, after: File, hashing: Hashing)
    requires IsPatchedFile(src, dif, dstType, codec, force, after, hashing)
    ensures HashIsRight(after, hashing) && after.metadata - HASH_KEYS == Overlay(src.metadata, dif.metadata) - HASH_KEYS
    ensures after.binDiff == None
    ensures !force && (dif.binDiff.Some? ==> dif.binDiff.value.patchType == BinDiffRaw)
            && Cell(dif.metadata, AGG_TILES_HASH_AFTER_APPLY).Some? ==>
              Some(hashing.agg(View(after.tables))) == Cell(dif.metadata, AGG_TILES_HASH_AFTER_APPLY)
  {
    KeysButHashes(src.metadata, dif.metadata, Some(hashing.agg(View(after.tables))));
  }

  lemma KeysButHashes(src: Metadata, dif: Metadata, hash: Option<string>)
    ensures PatchedMetadata(src, dif)[AGG_TILES_HASH := hash] - HASH_KEYS == Overlay(src, dif) - HASH_KEYS
  {
    MetadataAgreement(src, dif);
    var patched := PatchedMetadata(src, dif);
    assert patched - HASH_KEYS == patched;
    assert patched[AGG_TILES_HASH := hash] - HASH_KEYS == patched - HASH_KEYS;
  }

  lemma PatchedLayout(src: Tables, dif: File, dstType: Option<MbtType>, codec: Codec, after: Tables, md5: Md5)
    requires IsPatchedTables(src, dif, if dstType.Some? then dstType.value else src.Type(), codec, after, md5)
    ensures IsOfKind(after, src.Type(), dstType)
  {
  }

  /** The file that a successful patched copy leaves: unless forced, its hash is the promised one
      (gzip-ed bin-diffs excepted, because compressing again may give other bytes). */
  ghost predicate IsPatchedFile(src: File, dif: File, dstType: MbtType, codec: Codec, force: bool, after: File,
                                hashing: Hashing) {
    var newHash := Some(hashing.agg(View(after.tables)));
    var promised := Cell(dif.metadata, AGG_TILES_HASH_AFTER_APPLY);
    && IsPatchedTables(src.tables, dif, dstType, codec, after.tables, hashing.md5)
    && after.metadata == PatchedMetadata(src.metadata, dif.metadata)[AGG_TILES_HASH := newHash]
    && after.binDiff == None
    && (!force && ExamineDiff(dif).patchType != Some(BinDiffGz) && promised.Some? ==> newHash == promised)
  }

  /** Why a patched copy fails after the guards: a bin-diffed tile cannot be patched, or the tiles written
      do not have the promised hash. */
  ghost predicate IsCopyFailure(src: File, dif: File, dstType: MbtType, codec: Codec, force: bool, error: MbtError,
                                hashing: Hashing) {
    match error
    case BindiffError => dif.binDiff.Some? && SomeRowFails(src.tables, dif.binDiff.value, codec)
    case AggHashMismatchAfterApply(promised, actual) =>
      && !force && ExamineDiff(dif).patchType != Some(BinDiffGz)
      && Cell(dif.metadata, AGG_TILES_HASH_AFTER_APPLY) == Some(promised) && actual != promised
      && exists tables :: IsPatchedTables(src.tables, dif, dstType, codec, tables, hashing.md5)
            && actual == hashing.agg(View(tables))
    case _ => false
  }

  /** For every base and every patch, the join leaves out exactly the tiles that the bin-diff stage is
      about to insert: its plain INSERT never meets an existing key. */
  lemma BinDiffKeysFree(src: Tables, dif: File, dstType: MbtType, joined: Tables, md5: Md5)
    requires dif.binDiff.Some?
    requires CopiedTiles(Empty(InitSchema(src.Type(), dstType)),
                         SelectPatched(src, dif.tables, dstType, BinDiffKeys(dif), md5), Override, joined)
    ensures PatcherQuery(src, dif.binDiff.value).Keys !! joined.Slots()
  {
    var rows := SelectPatched(src, dif.tables, dstType, BinDiffKeys(dif), md5);
    TilesWithHashData(src, md5);
    assert joined.Slots() == rows.Keys;
    assert TilesWithHash(src, md5).Keys == View(src).Keys;
  }

  /** A new file with the patched tiles and metadata. */
  method WritePatchedTables(src: File, dif: File, dstType: MbtType, codec: Codec, md5: Md5)
    returns (ok: bool, dst: Database)
    requires dif.binDiff.Some? ==> !dstType.Normalized?
    ensures fresh(dst) && dst.binDiff == None && dst.metadata == PatchedMetadata(src.metadata, dif.metadata)
    ensures !ok ==> dif.binDiff.Some? && SomeRowFails(src.tables, dif.binDiff.value, codec)
    ensures ok ==> IsPatchedTables(src.tables, dif, dstType, codec, dst.tables, md5)
  {
    dst := new Database(InitSchema(src.tables.Type(), dstType));
    CopyTiles(dst, SelectPatched(src.tables, dif.tables, dstType, BinDiffKeys(dif), md5), Override);
    CopyMetadata(dst, src.metadata, ApplyPatchOf(dif.metadata), Override);
    ghost var joined, tiles := dst.tables, map[];
    ok := true;
    if dif.binDiff.Some? {
      BinDiffKeysFree(src.tables, dif, dstType, joined, md5);
      ok, tiles := RunPatcher(dst, src.tables, dif.binDiff.value, codec, md5);
    }
    if ok {
      assert IsPatchedVia(src.tables, dif, dstType, codec, joined, tiles, dst.tables, md5);
    }
  }

  /** The writing part of a patched copy. */
  method WritePatched(src: File, dif: File, dstType: MbtType, codec: Codec, force: bool, hashing: Hashing)
    returns (r: Result<Database, MbtError>)
    requires dif.binDiff.Some? ==> !dstType.Normalized?
    ensures r.Failure? ==> IsCopyFailure(src, dif, dstType, codec, force, r.error, hashing)
    ensures r.Success? ==> fresh(r.value) && IsPatchedFile(src, dif, dstType, codec, force, r.value.Contents(), hashing)
  {
    var difInfo := ExamineDiff(dif);
    var ok, dst := WritePatchedTables(src, dif, dstType, codec, hashing.md5);
    if !ok { return Failure(BindiffError); }
    ghost var tables := dst.tables;
    var newHash := dst.UpdateAggTilesHash(hashing.agg);
    if difInfo.patchType != Some(BinDiffGz) {
      if difInfo.afterApply.Some? && difInfo.afterApply.value != newHash && !force {
        return Failure(AggHashMismatchAfterApply(difInfo.afterApply.value, newHash));
      }
    }
    ghost var metadata := PatchedMetadata(src.metadata, dif.metadata);
    ghost var file := File(tables, metadata[AGG_TILES_HASH := Some(hashing.agg(View(tables)))], None);
    assert IsPatchedFile(src, dif, dstType, codec, force, file, hashing);
    assert dst.Contents() == file;
    return Success(dst);
  }
}
