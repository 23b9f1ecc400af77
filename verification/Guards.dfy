/** What the checks before a comparison, a patched copy and an in-place application let through, in terms of
    the metadata of the files, and what that means for patch files. */
module Guards {
  import opened Sql
  import opened Tilesets
  import opened Layouts
  import opened MetadataTables
  import opened Databases
  import opened BinDiff
  import opened Copier
  import opened Patcher

  // ---------------------------------------------------------------- who is refused

  /** An unforced comparison wants two files that have their hash and are not patches; the second file is
      looked at first. Bin-diff also wants a destination that is not normalized. */
  lemma ComparisonGuard(src: File, dif: File, dstType: MbtType, patchType: Option<PatchType>)
    ensures var guard := DiffGuard(ExamineDiff(src), ExamineDiff(dif), dstType, patchType, false);
            && (guard.None? <==>
                && (forall f | f in {src, dif} ::
                      && Cell(f.metadata, AGG_TILES_HASH).Some?
                      && Cell(f.metadata, AGG_TILES_HASH_BEFORE_APPLY).None?
                      && Cell(f.metadata, AGG_TILES_HASH_AFTER_APPLY).None?)
                && (patchType.None? || !dstType.Normalized?))
            && (Cell(dif.metadata, AGG_TILES_HASH).None? ==> guard == Some(CannotDiffFileWithoutHash))
            && (guard == Some(CannotDiffFileWithoutHash) ==>
                  Cell(dif.metadata, AGG_TILES_HASH).None? || Cell(src.metadata, AGG_TILES_HASH).None?)
            && (guard == Some(DiffingDiffFile) ==>
                  exists f :: f in {src, dif} && Cell(f.metadata, AGG_TILES_HASH).Some?
                              && (Cell(f.metadata, AGG_TILES_HASH_BEFORE_APPLY).Some?
                                  || Cell(f.metadata, AGG_TILES_HASH_AFTER_APPLY).Some?))
            && (guard.Some? ==>
                  guard.value in {CannotDiffFileWithoutHash, DiffingDiffFile, BinDiffRequiresFlatWithHash(dstType)})
  {
    assert src in {src, dif} && dif in {src, dif};
    var a, b := AssertHashes(ExamineDiff(src), false), AssertHashes(ExamineDiff(dif), false);
    assert a.None? <==> && Cell(src.metadata, AGG_TILES_HASH).Some?
                        && Cell(src.metadata, AGG_TILES_HASH_BEFORE_APPLY).None?
                        && Cell(src.metadata, AGG_TILES_HASH_AFTER_APPLY).None?;
    assert b.None? <==> && Cell(dif.metadata, AGG_TILES_HASH).Some?
                        && Cell(dif.metadata, AGG_TILES_HASH_BEFORE_APPLY).None?
                        && Cell(dif.metadata, AGG_TILES_HASH_AFTER_APPLY).None?;
  }

  /** An unforced patched copy wants a patch that says what it expects and promises, and a base that has its
      hash and is not a patch; whether that hash is the expected one is not asked. */
  lemma CopyGuard(base: File, patch: File, dstType: MbtType)
    ensures var guard := PatchGuard(ExamineDiff(base), ExamineDiff(patch), dstType, false);
            && (guard.None? <==>
                && Cell(patch.metadata, AGG_TILES_HASH_BEFORE_APPLY).Some?
                && Cell(patch.metadata, AGG_TILES_HASH_AFTER_APPLY).Some?
                && Cell(base.metadata, AGG_TILES_HASH).Some?
                && Cell(base.metadata, AGG_TILES_HASH_BEFORE_APPLY).None?
                && Cell(base.metadata, AGG_TILES_HASH_AFTER_APPLY).None?
                && (patch.binDiff.None? || !dstType.Normalized?))
            && (guard == Some(PatchFileHasNoHashes) <==> Cell(patch.metadata, AGG_TILES_HASH_AFTER_APPLY).None?)
            && (guard == Some(PatchFileHasNoBeforeHash) <==>
                && Cell(patch.metadata, AGG_TILES_HASH_AFTER_APPLY).Some?
                && Cell(patch.metadata, AGG_TILES_HASH_BEFORE_APPLY).None?)
            && (guard.Some? && guard.value.BinDiffRequiresFlatWithHash? ==> patch.binDiff.Some? && dstType.Normalized?)
  {
  }

  /** An unforced in-place application also wants the base's hash to be the one that the patch expects. */
  lemma InPlaceGuard(base: File, patch: File)
    ensures var guard := ApplyGuard(ExamineDiff(base), ExamineDiff(patch), false);
            var before := Cell(patch.metadata, AGG_TILES_HASH_BEFORE_APPLY);
            var hash := Cell(base.metadata, AGG_TILES_HASH);
            && (guard.None? <==>
                && patch.binDiff.None?
                && before.Some? && Cell(patch.metadata, AGG_TILES_HASH_AFTER_APPLY).Some?
                && hash == before
                && Cell(base.metadata, AGG_TILES_HASH_BEFORE_APPLY).None?
                && Cell(base.metadata, AGG_TILES_HASH_AFTER_APPLY).None?)
            && (guard == Some(UnsupportedPatchType) <==> patch.binDiff.Some?)
            && (guard.Some? && guard.value.AggHashMismatchWithDiff? ==>
                  before.Some? && hash.Some? && before != hash
                  && guard.value == AggHashMismatchWithDiff(before.value, hash.value))
            && (patch.binDiff.None? ==>
                  (guard == Some(PatchFileHasNoHashes) <==> Cell(patch.metadata, AGG_TILES_HASH_AFTER_APPLY).None?))
  {
  }

  /** Force sets aside every check on hashes, and only those: it neither makes a bin-diff patch applicable in
      place nor a normalized destination fit for bin-diff. */
  lemma ForceSkipsHashChecks(a: File, b: File, dstType: MbtType, patchType: Option<PatchType>)
    ensures DiffGuard(ExamineDiff(a), ExamineDiff(b), dstType, patchType, true)
         == if patchType.Some? && dstType.Normalized? then Some(BinDiffRequiresFlatWithHash(dstType)) else None
    ensures PatchGuard(ExamineDiff(a), ExamineDiff(b), dstType, true)
         == if b.binDiff.Some? && dstType.Normalized? then Some(BinDiffRequiresFlatWithHash(dstType)) else None
    ensures ApplyGuard(ExamineDiff(a), ExamineDiff(b), true)
         == if b.binDiff.Some? then Some(UnsupportedPatchType) else None
  {
  }

  // ---------------------------------------------------------------- what that means for patches

  /** A file that a comparison has written carries the hashes of both sides and its own. */
  lemma DiffFileHashes(src: File, newer: File, dstType: MbtType, patchType: Option<PatchType>, codec: Codec,
                       patch: File, hashing: Hashing)
    requires IsDiffFile(src, newer, dstType, patchType, codec, patch, hashing)
    ensures HashIsRight(patch, hashing)
    ensures Cell(patch.metadata, AGG_TILES_HASH_BEFORE_APPLY) == Cell(src.metadata, AGG_TILES_HASH)
    ensures Cell(patch.metadata, AGG_TILES_HASH_AFTER_APPLY) == Cell(newer.metadata, AGG_TILES_HASH)
  {
    HashKeysDistinct();
  }

  /** A patch is no version: unforced it can be neither side of a comparison nor the base of a patch. */
  lemma PatchIsNoVersion(src: File, newer: File, dstType: MbtType, patchType: Option<PatchType>, codec: Codec,
                         patch: File, other: File, kind: MbtType, otherType: Option<PatchType>, hashing: Hashing)
    requires IsDiffFile(src, newer, dstType, patchType, codec, patch, hashing)
    requires Cell(src.metadata, AGG_TILES_HASH).Some? || Cell(newer.metadata, AGG_TILES_HASH).Some?
    ensures DiffGuard(ExamineDiff(other), ExamineDiff(patch), kind, otherType, false) == Some(DiffingDiffFile)
    ensures AssertHashes(ExamineDiff(other), false).None? ==>
              DiffGuard(ExamineDiff(patch), ExamineDiff(other), kind, otherType, false) == Some(DiffingDiffFile)
    ensures PatchGuard(ExamineDiff(patch), ExamineDiff(other), kind, false).Some?
    ensures ApplyGuard(ExamineDiff(patch), ExamineDiff(other), false).Some?
  {
    DiffFileHashes(src, newer, dstType, patchType, codec, patch, hashing);
  }

  /** A version is no patch: unforced it can be applied neither in place nor while copying. */
  lemma VersionIsNoPatch(base: File, version: File, kind: MbtType)
    requires AssertHashes(ExamineDiff(version), false).None?
    ensures PatchGuard(ExamineDiff(base), ExamineDiff(version), kind, false) == Some(PatchFileHasNoHashes)
    ensures ApplyGuard(ExamineDiff(base), ExamineDiff(version), false)
         == Some(if version.binDiff.Some? then UnsupportedPatchType else PatchFileHasNoHashes)
  {
  }

  /** Applying a bin-diff patch in place is refused, forced or not, and leaves any base as it was. */
  method ApplyBinDiffInPlace(base: Database, patch: Database, force: bool, md5: Md5, ghost src: File,
                             ghost newer: File, ghost dstType: MbtType, ghost patchType: PatchType, ghost codec: Codec,
                             ghost hashing: Hashing)
    returns (r: Option<MbtError>)
    requires base != patch
    requires IsDiffFile(src, newer, dstType, Some(patchType), codec, patch.Contents(), hashing)
    modifies base
    ensures r == Some(UnsupportedPatchType) && base.Contents() == old(base.Contents())
  {
    r := ApplyPatch(base, patch, force, md5);
  }

  /** A patch that was just written passes every check against a base with the source's hash. */
  lemma DiffPassesChecks(src: File, newer: File, dstType: MbtType, patchType: Option<PatchType>, codec: Codec,
                         patch: File, base: File, kind: MbtType, hashing: Hashing)
    requires IsDiffFile(src, newer, dstType, patchType, codec, patch, hashing)
    requires Cell(src.metadata, AGG_TILES_HASH).Some? && Cell(newer.metadata, AGG_TILES_HASH).Some?
    requires AssertHashes(ExamineDiff(base), false).None?
    ensures PatchGuard(ExamineDiff(base), ExamineDiff(patch), kind, false)
         == if patchType.Some? && kind.Normalized? then Some(BinDiffRequiresFlatWithHash(kind)) else None
    ensures ApplyGuard(ExamineDiff(base), ExamineDiff(patch), false)
         == if patchType.Some? then Some(UnsupportedPatchType)
            else if Cell(base.metadata, AGG_TILES_HASH) == Cell(src.metadata, AGG_TILES_HASH) then None
            else Some(AggHashMismatchWithDiff(Cell(src.metadata, AGG_TILES_HASH).value,
                                              Cell(base.metadata, AGG_TILES_HASH).value))
  {
    DiffFileHashes(src, newer, dstType, patchType, codec, patch, hashing);
  }
}
