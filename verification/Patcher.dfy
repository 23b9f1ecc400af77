/** `patcher.rs`: applying a patch to a file in place. */
module Patcher {
  import opened Sql
  import opened Tilesets
  import opened Layouts
  import opened Statements
  import opened Queries
  import opened MetadataTables
  import opened Databases

  /** The checks before anything is written. */
  function ApplyGuard(base: PatchFileInfo, patch: PatchFileInfo, force: bool): Option<MbtError> {
    if patch.patchType.Some? then Some(UnsupportedPatchType)
    else if ValidateDiffInfo(patch, force).Some? then ValidateDiffInfo(patch, force)
    else if AssertHashes(base, force).Some? then AssertHashes(base, force)
    else if !force && base.aggTilesHash.Some? && patch.beforeApply.Some? && base.aggTilesHash != patch.beforeApply
    then Some(AggHashMismatchWithDiff(patch.beforeApply.value, base.aggTilesHash.value))
    else None
  }

  /** A tile that the patch would write to the images table without an id. */
  predicate HasUnnamedTile(baseType: MbtType, patch: Tables, md5: Md5) {
    baseType.Normalized? && exists c :: c in Upserts(SelectPatch(baseType, patch, md5))
                                     && Upserts(SelectPatch(baseType, patch, md5))[c].hash.None?
  }

  /** A normalized base after the first statement only. */
  function PartlyApplied(base: Tables, rows: Rows): Tables
    requires base.NormalizedTables?
  {
    base.(mapping := base.mapping + Hashes(Upserts(rows)))
  }

  /** The first statement changes nothing exactly when the map already has all its rows. */
  lemma PartlyAppliedUnchanged(base: Tables, rows: Rows)
    requires base.NormalizedTables?
    ensures PartlyApplied(base, rows) == base
       <==> forall c | c in Upserts(rows) :: c in base.mapping && base.mapping[c] == rows[c].hash
  {
    if forall c | c in Upserts(rows) :: c in base.mapping && base.mapping[c] == rows[c].hash {
      assert base.mapping + Hashes(Upserts(rows)) == base.mapping;
    } else {
      var c :| c in Upserts(rows) && !(c in base.mapping && base.mapping[c] == rows[c].hash);
      assert (base.mapping + Hashes(Upserts(rows)))[c] == rows[c].hash;
    }
  }

  /** An apply that fails and leaves its mark: a FlatWithHash patch with a tile that has no hash. */
  lemma FailedApplyChangesBase(base: Tables, c: Coord, data: Bytes, md5: Md5)
    requires base.NormalizedTables? && c !in base.mapping
    ensures var patch := HashedTables(map[c := Row(Some(data), None)]);
            && HasUnnamedTile(base.Type(), patch, md5)
            && PartlyApplied(base, SelectPatch(base.Type(), patch, md5)) != base
  {
    var patch := HashedTables(map[c := Row(Some(data), None)]);
    var rows := SelectPatch(base.Type(), patch, md5);
    assert c in Upserts(rows) && Upserts(rows)[c].hash.None?;
    PartlyAppliedUnchanged(base, rows);
  }

  /** INSERT, INSERT, DELETE and garbage collection on the tile tables. When the images statement
      fails, the map statement before it has already been committed. */
  method ApplyTiles(base: Database, rows: Rows) returns (ok: bool)
    modifies base
    ensures ok <==>
              !(old(base.tables).NormalizedTables? && exists c :: c in Upserts(rows) && Upserts(rows)[c].hash.None?)
    ensures ok ==> AppliedTiles(old(base.tables), rows, base.tables)
    ensures !ok ==> old(base.tables).NormalizedTables? && base.tables == PartlyApplied(old(base.tables), rows)
    ensures base.metadata == old(base.metadata) && base.binDiff == old(base.binDiff)
  {
    ok := true;
    match base.tables
    case FlatTables(tiles) =>
      tiles := InsertRows(tiles, Data(Upserts(rows)), Override);
      tiles := DeleteRows(tiles, Deletions(rows));
      base.tables := FlatTables(tiles);
    case HashedTables(stored) =>
      stored := InsertRows(stored, Upserts(rows), Override);
      stored := DeleteRows(stored, Deletions(rows));
      base.tables := HashedTables(stored);
    case NormalizedTables(mapping, images, hashView) =>
      mapping := InsertRows(mapping, Hashes(Upserts(rows)), Override);
      base.tables := base.tables.(mapping := mapping);
      ok, images := ReplaceImages(images, Upserts(rows));
      if !ok {
        return;
      }
      ghost var replaced := images;
      mapping := DeleteRows(mapping, Deletions(rows));
      images := DeleteUnreferenced(images, mapping);
      base.tables := NormalizedTables(mapping, images, hashView);
      assert ImagesReplaced(old(base.tables).images, Upserts(rows), replaced);
  }

  /** The two metadata statements. */
  method ApplyMetadata(base: Database, patch: Metadata)
    modifies base`metadata
    ensures base.metadata == AppliedMetadata(old(base.metadata), patch)
  {
    base.metadata := InsertRows(base.metadata, RenamedMetadata(patch), Override);
    base.metadata := DeleteRows(base.metadata, NullKeys(patch));
  }

  /** The file that a successful application leaves. */
  ghost predicate IsAppliedFile(base: File, patch: File, after: File, md5: Md5) {
    && AppliedTiles(base.tables, SelectPatch(base.tables.Type(), patch.tables, md5), after.tables)
    && after.metadata == AppliedMetadata(base.metadata, patch.metadata)
    && after.binDiff == base.binDiff
  }

  /** Apply a patch file to the base in place. A refused patch leaves the base as it was; a tile without
      an id stops the patcher after the map rows were written. */
  method ApplyPatch(base: Database, patch: Database, force: bool, md5: Md5) returns (r: Option<MbtError>)
    requires base != patch
    modifies base
    ensures var guard := ApplyGuard(ExamineDiff(old(base.Contents())), ExamineDiff(old(patch.Contents())), force);
            && (guard.Some? ==> r == guard && base.Contents() == old(base.Contents()))
            && (guard.None? ==>
                  r == if HasUnnamedTile(old(base.tables.Type()), old(patch.tables), md5)
                       then Some(NotNullConstraint) else None)
            && (r.None? ==> IsAppliedFile(old(base.Contents()), old(patch.Contents()), base.Contents(), md5))
            && (guard.None? && r.Some? ==>
                  && old(base.tables).NormalizedTables?
                  && base.Contents() == old(base.Contents()).(
                       tables := PartlyApplied(old(base.tables),
                                               SelectPatch(old(base.tables.Type()), old(patch.tables), md5))))
    ensures old(patch.binDiff).Some? ==> r == Some(UnsupportedPatchType) && base.Contents() == old(base.Contents())
  {
    var patchInfo := ExamineDiff(patch.Contents());
    if patchInfo.patchType.Some? {
      return Some(UnsupportedPatchType);
    }
    r := ValidateDiffInfo(patchInfo, force);
    if r.Some? { return; }
    var baseInfo := ExamineDiff(base.Contents());
    r := AssertHashes(baseInfo, force);
    if r.Some? { return; }
    if !force && baseInfo.aggTilesHash.Some? && patchInfo.beforeApply.Some?
       && baseInfo.aggTilesHash.value != patchInfo.beforeApply.value {
      return Some(AggHashMismatchWithDiff(patchInfo.beforeApply.value, baseInfo.aggTilesHash.value));
    }
    var ok := ApplyTiles(base, SelectPatch(base.tables.Type(), patch.tables, md5));
    if !ok {
      return Some(NotNullConstraint);
    }
    ApplyMetadata(base, patch.metadata);
    return None;
  }
}
