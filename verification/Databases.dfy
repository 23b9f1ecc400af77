/** An MBTiles file as the object that the statements update, and the decisions taken on its hashes. */
module Databases {
  import opened Sql
  import opened Tilesets
  import opened Layouts
  import opened MetadataTables

  datatype Result<+T, +E> = Success(value: T) | Failure(error: E)

  datatype PatchType = BinDiffGz | BinDiffRaw

  /** A row of the `bsdiffraw` or `bsdiffrawgz` table. */
  datatype BinDiffRow = BinDiffRow(patchData: Bytes, tileXxh3: int)

  datatype BinDiffTable = BinDiffTable(patchType: PatchType, rows: map<Coord, BinDiffRow>)

  /** The contents of a file. */
  datatype File = File(tables: Tables, metadata: Metadata, binDiff: Option<BinDiffTable>)

  /** The hash functions of the database: MD5 of one blob, and of a whole tileset in key order. */
  datatype Hashing = Hashing(md5: Md5, agg: Tileset -> string)

  datatype MbtError =
    | CannotDiffFileWithoutHash
    | DiffingDiffFile
    | PatchFileHasNoBeforeHash
    | PatchFileHasNoHashes
    | AggHashMismatchWithDiff(beforeApply: string, aggHash: string)
    | AggHashMismatchAfterApply(afterApply: string, aggHash: string)
    | UnsupportedPatchType
    | BinDiffRequiresFlatWithHash(mbtType: MbtType)
    | DestinationFileExists
    | MismatchedTargetType
    | SameSourceAndDestination
    | BindiffError
    | NotNullConstraint

  datatype PatchFileInfo = PatchFileInfo(
    mbtType: MbtType,
    aggTilesHash: Option<string>,
    beforeApply: Option<string>,
    afterApply: Option<string>,
    patchType: Option<PatchType>)

  function ExamineDiff(f: File): PatchFileInfo {
    PatchFileInfo(
      f.tables.Type(),
      Cell(f.metadata, AGG_TILES_HASH),
      Cell(f.metadata, AGG_TILES_HASH_BEFORE_APPLY),
      Cell(f.metadata, AGG_TILES_HASH_AFTER_APPLY),
      if f.binDiff.Some? then Some(f.binDiff.value.patchType) else None)
  }

  /** The stored aggregate hash is the one that would be recomputed. */
  predicate HashIsRight(f: File, hashing: Hashing) {
    Cell(f.metadata, AGG_TILES_HASH) == Some(hashing.agg(View(f.tables)))
  }

  /** A file to be compared or patched must have its hash and must not itself be a patch. */
  function AssertHashes(info: PatchFileInfo, force: bool): Option<MbtError> {
    if force then None
    else if info.aggTilesHash.None? then Some(CannotDiffFileWithoutHash)
    else if info.beforeApply.Some? || info.afterApply.Some? then Some(DiffingDiffFile)
    else None
  }

  /** A patch must say what it expects before and promises after. */
  function ValidateDiffInfo(info: PatchFileInfo, force: bool): Option<MbtError> {
    if force || (info.beforeApply.Some? && info.afterApply.Some?) then None
    else if info.afterApply.Some? then Some(PatchFileHasNoBeforeHash)
    else Some(PatchFileHasNoHashes)
  }

  /** A file that statements update. The tile tables have the layout fixed when they were created. */
  class Database {
    var tables: Tables
    var metadata: Metadata
    var binDiff: Option<BinDiffTable>

    /** A new file with the tables of its type. */
    constructor (kind: MbtType)
      ensures Contents() == File(Empty(kind), map[], None)
    {
      tables, metadata, binDiff := Empty(kind), map[], None;
    }

    function Contents(): File
      reads this
    {
      File(tables, metadata, binDiff)
    }

    method SetMetadataValue(key: string, value: string)
      modifies this`metadata
      ensures metadata == old(metadata)[key := Some(value)]
    {
      metadata := metadata[key := Some(value)];
    }

    /** Recompute the aggregate hash and store it unless it is already there. */
    method UpdateAggTilesHash(agg: Tileset -> string) returns (hash: string)
      modifies this`metadata
      ensures hash == agg(View(tables))
      ensures metadata == old(metadata)[AGG_TILES_HASH := Some(hash)]
    {
      var stored := Cell(metadata, AGG_TILES_HASH);
      hash := agg(View(tables));
      if stored != Some(hash) {
        SetMetadataValue(AGG_TILES_HASH, hash);
      }
    }
  }
}
