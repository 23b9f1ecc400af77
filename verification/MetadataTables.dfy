/** The metadata table and its share of comparing and patching. */
module MetadataTables {
  import opened Sql
  import opened Tilesets

  type Metadata = map<string, Option<string>>

  const AGG_TILES_HASH := "agg_tiles_hash"
  const AGG_TILES_HASH_BEFORE_APPLY := "agg_tiles_hash_before_apply"
  const AGG_TILES_HASH_AFTER_APPLY := "agg_tiles_hash_after_apply"
  const HASH_KEYS := {AGG_TILES_HASH, AGG_TILES_HASH_BEFORE_APPLY, AGG_TILES_HASH_AFTER_APPLY}

  /** The rows a comparison writes: changed, added and (as NULL) removed values. */
  function DiffMetadata(src: Metadata, dif: Metadata): Metadata {
    map k | && k in src.Keys + dif.Keys
            && Keeps(Or(Or(NotEqual(Cell(src, k), Cell(dif, k)), IsNull(Cell(src, k))), IsNull(Cell(dif, k))))
            && k !in HASH_KEYS ::
      Cell(dif, k)
  }

  /** The rows written when copying with a patch. */
  function PatchedMetadata(src: Metadata, dif: Metadata): Metadata {
    map k | && k in src.Keys + dif.Keys
            && Keeps(Or(if k !in dif then True else False, NotNull(Cell(dif, k))))
            && k !in HASH_KEYS ::
      Coalesce(Cell(dif, k), Cell(src, k))
  }

  /** What the in-place patcher reads from the patch: "after apply" becomes the hash of the result. */
  function RenamedMetadata(patch: Metadata): Metadata {
    map k | k in patch.Keys + {AGG_TILES_HASH}
            && k !in {AGG_TILES_HASH_BEFORE_APPLY, AGG_TILES_HASH_AFTER_APPLY}
            && (k == AGG_TILES_HASH ==> AGG_TILES_HASH_AFTER_APPLY in patch) ::
      if k == AGG_TILES_HASH then patch[AGG_TILES_HASH_AFTER_APPLY] else patch[k]
  }

  /** The metadata that the in-place patcher leaves: replace, then delete what the patch sets to NULL. */
  function AppliedMetadata(base: Metadata, patch: Metadata): Metadata {
    base + RenamedMetadata(patch) - NullKeys(patch)
  }

  /** Rows with the expected hashes and the file's own hash set on top. */
  function Stamped(rows: Metadata, before: Option<string>, after: Option<string>, own: string): Metadata {
    var withBefore := if before.Some? then rows[AGG_TILES_HASH_BEFORE_APPLY := before] else rows;
    var withAfter := if after.Some? then withBefore[AGG_TILES_HASH_AFTER_APPLY := after] else withBefore;
    withAfter[AGG_TILES_HASH := Some(own)]
  }

  /** The metadata of a patch file: the differences, the two expected hashes and its own hash. */
  function DiffFileMetadata(src: Metadata, dif: Metadata, ownHash: string): Metadata {
    Stamped(DiffMetadata(src, dif), Cell(src, AGG_TILES_HASH), Cell(dif, AGG_TILES_HASH), ownHash)
  }

  /** Both ways of applying a patch treat every key but the hashes alike. */
  lemma MetadataAgreement(base: Metadata, patch: Metadata)
    ensures AppliedMetadata(base, patch) - HASH_KEYS == PatchedMetadata(base, patch)
    ensures PatchedMetadata(base, patch) == Overlay(base, patch) - HASH_KEYS
  {
  }

  lemma HashKeysDistinct()
    ensures |AGG_TILES_HASH| == 14 && |AGG_TILES_HASH_BEFORE_APPLY| == 27 && |AGG_TILES_HASH_AFTER_APPLY| == 26
  {
  }

  /** Comparing and applying carries the new metadata over, and installs the expected hash. */
  lemma DiffThenApplyMetadata(src: Metadata, newer: Metadata, base: Metadata, ownHash: string)
    requires Cell(newer, AGG_TILES_HASH).Some?
    requires DropNull(base - HASH_KEYS) == DropNull(src - HASH_KEYS)
    ensures var result := AppliedMetadata(base, DiffFileMetadata(src, newer, ownHash));
            && DropNull(result - HASH_KEYS) == DropNull(newer - HASH_KEYS)
            && Cell(result, AGG_TILES_HASH) == Cell(newer, AGG_TILES_HASH)
            && Cell(result, AGG_TILES_HASH_BEFORE_APPLY) == Cell(base, AGG_TILES_HASH_BEFORE_APPLY)
            && Cell(result, AGG_TILES_HASH_AFTER_APPLY) == Cell(base, AGG_TILES_HASH_AFTER_APPLY)
  {
    DiffThenApplyHashes(src, newer, base, ownHash);
    var result := AppliedMetadata(base, DiffFileMetadata(src, newer, ownHash));
    forall k
      ensures Cell(DropNull(result - HASH_KEYS), k) == Cell(DropNull(newer - HASH_KEYS), k)
    {
      if k !in HASH_KEYS {
        assert Cell(DropNull(base - HASH_KEYS), k) == Cell(base, k);
        assert Cell(DropNull(src - HASH_KEYS), k) == Cell(src, k);
        DiffThenApplyKey(src, newer, base, ownHash, k);
      }
    }
    DropNullByCell(result - HASH_KEYS, newer - HASH_KEYS);
  }

  /** Comparing and copying with the patch carries the new metadata over in the same way. */
  lemma DiffThenCopyMetadata(src: Metadata, newer: Metadata, base: Metadata, ownHash: string)
    requires Cell(newer, AGG_TILES_HASH).Some?
    requires DropNull(base - HASH_KEYS) == DropNull(src - HASH_KEYS)
    ensures DropNull(PatchedMetadata(base, DiffFileMetadata(src, newer, ownHash))) == DropNull(newer - HASH_KEYS)
  {
    MetadataAgreement(base, DiffFileMetadata(src, newer, ownHash));
    DiffThenApplyMetadata(src, newer, base, ownHash);
  }

  lemma DiffThenApplyHashes(src: Metadata, newer: Metadata, base: Metadata, ownHash: string)
    requires Cell(newer, AGG_TILES_HASH).Some?
    ensures var result := AppliedMetadata(base, DiffFileMetadata(src, newer, ownHash));
            && Cell(result, AGG_TILES_HASH) == Cell(newer, AGG_TILES_HASH)
            && Cell(result, AGG_TILES_HASH_BEFORE_APPLY) == Cell(base, AGG_TILES_HASH_BEFORE_APPLY)
            && Cell(result, AGG_TILES_HASH_AFTER_APPLY) == Cell(base, AGG_TILES_HASH_AFTER_APPLY)
  {
    HashKeysDistinct();
    var patch := DiffFileMetadata(src, newer, ownHash);
    assert patch[AGG_TILES_HASH_AFTER_APPLY] == Cell(newer, AGG_TILES_HASH);
    assert AGG_TILES_HASH !in NullKeys(patch);
    assert RenamedMetadata(patch)[AGG_TILES_HASH] == Cell(newer, AGG_TILES_HASH);
  }

  lemma DiffThenApplyKey(src: Metadata, newer: Metadata, base: Metadata, ownHash: string, k: string)
    requires k !in HASH_KEYS && Cell(base, k) == Cell(src, k)
    ensures Cell(AppliedMetadata(base, DiffFileMetadata(src, newer, ownHash)), k) == Cell(newer, k)
  {
    var patch := DiffFileMetadata(src, newer, ownHash);
    assert Cell(patch, k) == Cell(DiffMetadata(src, newer), k);
    assert k in patch <==> k in DiffMetadata(src, newer);
    assert k in RenamedMetadata(patch) <==> k in patch;
  }

  lemma DropNullByCell<K, V>(a: map<K, Option<V>>, b: map<K, Option<V>>)
    requires forall k :: Cell(DropNull(a), k) == Cell(DropNull(b), k)
    ensures DropNull(a) == DropNull(b)
  {
    assert forall k :: k in DropNull(a) <==> Cell(DropNull(a), k).Some?;
    assert forall k :: k in DropNull(b) <==> Cell(DropNull(b), k).Some?;
  }
}
