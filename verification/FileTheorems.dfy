/** End-to-end results about whole files: the hashes, the guards and the tiles together. */
module FileTheorems {
  import opened Sql
  import opened Tilesets
  import opened Layouts
  import opened Queries
  import opened PatchLaws
  import opened PatchTheorems
  import opened MetadataTables
  import opened Databases
  import opened BinDiff
  import opened Copier
  import opened Patcher

  lemma SelectDiffOfKind(src: Tables, newer: Tables, dstType: MbtType, md5: Md5)
    ensures SelectDiff(src, newer, dstType, false, md5)
         == SelectDiff(src, newer, InitSchema(src.Type(), dstType), false, md5)
  {
  }

  /** A file written by a comparison is a diff in the sense of the tile tables. */
  lemma DiffFileTables(src: File, newer: File, dstType: MbtType, codec: Codec, patch: File, hashing: Hashing)
    requires IsDiffFile(src, newer, dstType, None, codec, patch, hashing)
    ensures IsDiff(src.tables, newer.tables, InitSchema(src.tables.Type(), dstType), patch.tables, hashing.md5)
  {
    SelectDiffOfKind(src.tables, newer.tables, dstType, hashing.md5);
  }

  /** An unforced in-place application of a diff is safe. If the stored hashes are right and tell the
      tilesets apart, passing the guards means that the base held the source's tiles; then it ends up
      with exactly the new tiles and metadata, with the new file's hash, ready to be patched again.
      The one exception, a base that refers to images it lacks, is met exactly when the patch brings
      one of them. The stored hash is right for the result if and only if dropping the NULL rows of
      the new file does not change its hash. */
  lemma SafeApply(src: File, newer: File, dstType: MbtType, codec: Codec, patch: File, base: File, after: File,
                  hashing: Hashing, store: Store)
    requires IsDiffFile(src, newer, dstType, None, codec, patch, hashing)
    requires HashIsRight(src, hashing) && HashIsRight(newer, hashing) && HashIsRight(base, hashing)
    requires hashing.agg(View(base.tables)) == hashing.agg(View(src.tables)) ==> View(base.tables) == View(src.tables)
    requires ApplyGuard(ExamineDiff(base), ExamineDiff(patch), false).None?
    requires IsAppliedFile(base, patch, after, hashing.md5)
    requires dstType.Normalized? ==> Addressed(newer.tables, hashing.md5, store) && EmptyIdIsNull(store)
    requires base.tables.NormalizedTables? ==>
              Addressed(base.tables, hashing.md5, store) && Addressed(patch.tables, hashing.md5, store)
    ensures View(after.tables) == DropNull(View(newer.tables))
       <==> Adopted(base.tables, SelectPatch(base.tables.Type(), patch.tables, hashing.md5)) == {}
    ensures base.tables.Resolved() ==> View(after.tables) == DropNull(View(newer.tables))
    ensures Cell(after.metadata, AGG_TILES_HASH) == Some(hashing.agg(View(newer.tables)))
    ensures View(after.tables) == DropNull(View(newer.tables)) ==>
              (HashIsRight(after, hashing) <==>
               hashing.agg(DropNull(View(newer.tables))) == hashing.agg(View(newer.tables)))
    ensures AssertHashes(ExamineDiff(after), false).None?
    ensures DropNull(base.metadata - HASH_KEYS) == DropNull(src.metadata - HASH_KEYS) ==>
              DropNull(after.metadata - HASH_KEYS) == DropNull(newer.metadata - HASH_KEYS)
  {
    DiffFileTables(src, newer, dstType, codec, patch, hashing);
    var ownHash := hashing.agg(View(patch.tables));
    PatchHashes(src.metadata, newer.metadata, ownHash);
    assert View(base.tables) == View(src.tables);
    DiffThenApply(src.tables, newer.tables, base.tables, InitSchema(src.tables.Type(), dstType), patch.tables,
                  after.tables,
                  hashing.md5, store);
    DiffThenApplyHashes(src.metadata, newer.metadata, base.metadata, ownHash);
    if DropNull(base.metadata - HASH_KEYS) == DropNull(src.metadata - HASH_KEYS) {
      DiffThenApplyMetadata(src.metadata, newer.metadata, base.metadata, ownHash);
    }
  }

  /** With addressed files there is no tile without an id for the patcher to stumble over. */
  lemma NoUnnamedTile(base: Tables, patch: Tables, md5: Md5, store: Store)
    requires base.NormalizedTables? ==> Addressed(patch, md5, store)
    ensures !HasUnnamedTile(base.Type(), patch, md5)
  {
    if base.NormalizedTables? {
      UpsertsAddressed(base.Type(), patch, md5, store);
    }
  }

  /** A NULL row in the new file makes the installed hash wrong, if the hash notices the row at all. */
  lemma NullRowSpoilsHash(newer: File, after: File, hashing: Hashing, c: Coord)
    requires c in NullKeys(View(newer.tables))
    requires hashing.agg(View(newer.tables)) == hashing.agg(DropNull(View(newer.tables))) ==>
               View(newer.tables) == DropNull(View(newer.tables))
    requires View(after.tables) == DropNull(View(newer.tables))
    requires Cell(after.metadata, AGG_TILES_HASH) == Some(hashing.agg(View(newer.tables)))
    ensures !HashIsRight(after, hashing)
  {
    assert c in View(newer.tables) && c !in DropNull(View(newer.tables));
  }

  /** Such files and such hashes exist. */
  lemma NullRowExists(c: Coord, d: Coord, data: Bytes, hashing: Hashing)
    requires c != d && hashing.agg == ((tiles: Tileset) => if c in tiles then "with" else "without")
    ensures var tables := FlatTables(map[c := None, d := Some(data)]);
            c in NullKeys(View(tables)) && hashing.agg(View(tables)) != hashing.agg(DropNull(View(tables)))
  {
    assert |"with"| != |"without"|;
  }

  /** An unforced application of a diff is accepted exactly by files whose stored hash is the source's and
      which are not patches themselves. */
  lemma AcceptedIff(src: File, newer: File, dstType: MbtType, codec: Codec, patch: File, base: File, hashing: Hashing)
    requires IsDiffFile(src, newer, dstType, None, codec, patch, hashing)
    requires Cell(src.metadata, AGG_TILES_HASH).Some? && Cell(newer.metadata, AGG_TILES_HASH).Some?
    ensures ApplyGuard(ExamineDiff(base), ExamineDiff(patch), false).None? <==> AtVersion(base, src)
  {
    PatchHashes(src.metadata, newer.metadata, hashing.agg(View(patch.tables)));
  }

  /** By its stored hashes the file is at the given version. */
  predicate AtVersion(f: File, version: File) {
    && Cell(f.metadata, AGG_TILES_HASH) == Cell(version.metadata, AGG_TILES_HASH)
    && Cell(f.metadata, AGG_TILES_HASH_BEFORE_APPLY).None? && Cell(f.metadata, AGG_TILES_HASH_AFTER_APPLY).None?
  }

  /** Files of successive versions, a diff from each to the next, and a file to which they are applied. */
  ghost predicate IsFileChain(versions: seq<File>, patches: seq<File>, kinds: seq<MbtType>, codec: Codec,
                              states: seq<File>, hashing: Hashing) {
    && |versions| == |states| == |patches| + 1 && |kinds| == |patches|
    && forall i | 0 <= i < |patches| ::
         IsFileLink(versions[i], versions[i + 1], patches[i], kinds[i], codec, states[i], states[i + 1], hashing)
  }

  ghost predicate IsFileLink(src: File, newer: File, patch: File, dstType: MbtType, codec: Codec, base: File,
                             after: File, hashing: Hashing) {
    && Cell(src.metadata, AGG_TILES_HASH).Some? && Cell(newer.metadata, AGG_TILES_HASH).Some?
    && IsDiffFile(src, newer, dstType, None, codec, patch, hashing)
    && IsAppliedFile(base, patch, after, hashing.md5)
  }

  lemma {:induction false} ChainKeepsVersion(versions: seq<File>, patches: seq<File>, kinds: seq<MbtType>, codec: Codec,
                                             states: seq<File>, hashing: Hashing, n: nat)
    requires IsFileChain(versions, patches, kinds, codec, states, hashing) && n < |states|
    requires AtVersion(states[0], versions[0])
    ensures AtVersion(states[n], versions[n])
  {
    if n == 0 {
    } else {
      var m := n - 1;
      ChainKeepsVersion(versions, patches, kinds, codec, states, hashing, m);
      AppliedIsAtVersion(versions[m], versions[n], patches[m], states[m], states[n], kinds[m], codec, hashing);
    }
  }

  /** A file that starts at the first version accepts every patch of the chain, unforced. */
  lemma ChainIsNeverRefused(versions: seq<File>, patches: seq<File>, kinds: seq<MbtType>, codec: Codec,
                            states: seq<File>, hashing: Hashing, n: nat)
    requires IsFileChain(versions, patches, kinds, codec, states, hashing) && n < |patches|
    requires AtVersion(states[0], versions[0])
    ensures ApplyGuard(ExamineDiff(states[n]), ExamineDiff(patches[n]), false).None?
  {
    ChainKeepsVersion(versions, patches, kinds, codec, states, hashing, n);
    LinkIsAccepted(versions[n], versions[n + 1], patches[n], states[n], states[n + 1], kinds[n], codec, hashing);
  }

  lemma LinkIsAccepted(src: File, newer: File, patch: File, base: File, after: File, dstType: MbtType, codec: Codec,
                       hashing: Hashing)
    requires IsFileLink(src, newer, patch, dstType, codec, base, after, hashing) && AtVersion(base, src)
    ensures ApplyGuard(ExamineDiff(base), ExamineDiff(patch), false).None?
  {
    AcceptedIff(src, newer, dstType, codec, patch, base, hashing);
  }

  lemma AppliedIsAtVersion(src: File, newer: File, patch: File, base: File, after: File, dstType: MbtType, codec: Codec,
                           hashing: Hashing)
    requires IsFileLink(src, newer, patch, dstType, codec, base, after, hashing) && AtVersion(base, src)
    ensures AtVersion(after, newer)
  {
    DiffThenApplyHashes(src.metadata, newer.metadata, base.metadata, hashing.agg(View(patch.tables)));
  }

  /** The dichotomy, as one call: an unforced application of a diff is refused with the base unchanged, or
      leaves exactly the new tileset with the new file's hash; it is accepted exactly by a base at the
      source's version. */
  method SafeApplyPatch(base: Database, patch: Database, ghost src: File, ghost newer: File, ghost dstType: MbtType,
                        ghost codec: Codec, hashing: Hashing, ghost store: Store)
    returns (r: Option<MbtError>)
    requires base != patch
    requires IsDiffFile(src, newer, dstType, None, codec, patch.Contents(), hashing)
    requires HashIsRight(src, hashing) && HashIsRight(newer, hashing) && HashIsRight(base.Contents(), hashing)
    requires hashing.agg(View(base.tables)) == hashing.agg(View(src.tables)) ==> View(base.tables) == View(src.tables)
    requires dstType.Normalized? ==> Addressed(newer.tables, hashing.md5, store) && EmptyIdIsNull(store)
    requires base.tables.NormalizedTables? ==>
              Addressed(base.tables, hashing.md5, store) && Addressed(patch.tables, hashing.md5, store)
    modifies base
    ensures r.None? <==> AtVersion(old(base.Contents()), src)
    ensures r.Some? ==> base.Contents() == old(base.Contents())
    ensures r.None? ==>
              (Adopted(old(base.tables), SelectPatch(old(base.tables.Type()), old(patch.tables), hashing.md5)) == {}
               <==> View(base.tables) == DropNull(View(newer.tables)))
    ensures r.None? && old(base.tables).Resolved() ==> View(base.tables) == DropNull(View(newer.tables))
    ensures r.None? ==> Cell(base.metadata, AGG_TILES_HASH) == Some(hashing.agg(View(newer.tables)))
    ensures r.None? && old(base.tables).Resolved() && NullKeys(View(newer.tables)) == {} ==>
              View(base.tables) == View(newer.tables) && HashIsRight(base.Contents(), hashing)
  {
    ghost var before, patchFile := base.Contents(), patch.Contents();
    NoUnnamedTile(base.tables, patch.tables, hashing.md5, store);
    AcceptedIff(src, newer, dstType, codec, patchFile, before, hashing);
    r := ApplyPatch(base, patch, false, hashing.md5);
    if r.None? {
      SafeApply(src, newer, dstType, codec, patchFile, before, base.Contents(), hashing, store);
      if NullKeys(View(newer.tables)) == {} {
        NullFree(View(newer.tables));
      }
    }
  }

  lemma PatchHashes(src: Metadata, newer: Metadata, ownHash: string)
    requires Cell(src, AGG_TILES_HASH).Some? && Cell(newer, AGG_TILES_HASH).Some?
    ensures var patch := DiffFileMetadata(src, newer, ownHash);
            && Cell(patch, AGG_TILES_HASH_BEFORE_APPLY) == Cell(src, AGG_TILES_HASH)
            && Cell(patch, AGG_TILES_HASH_AFTER_APPLY) == Cell(newer, AGG_TILES_HASH)
  {
    HashKeysDistinct();
  }

  // ---------------------------------------------------------------- bin-diff

  predicate Unchanged(src: Tables, dif: Tables, c: Coord) {
    Cell(View(src), c).Some? && Cell(View(src), c) == Cell(View(dif), c)
  }

  lemma HashColumn(t: Tables, md5: Md5, c: Coord)
    ensures c in TilesWithHash(t, md5) <==> c in View(t)
    ensures Cell(Data(TilesWithHash(t, md5)), c) == Cell(View(t), c)
  {
  }

  /** The add/delete table holds the coordinates where one side has nothing. */
  lemma WholeTiles(src: Tables, dif: Tables, dstType: MbtType, md5: Md5, c: Coord)
    ensures var rows := SelectDiff(src, dif, dstType, true, md5);
            && (c in rows <==>
                (c in View(src) || c in View(dif)) && (Cell(View(src), c).None? || Cell(View(dif), c).None?))
            && (c in rows ==> rows[c].data == Cell(View(dif), c))
  {
    HashColumn(dif, md5, c);
  }

  /** A bin-diff patch splits the coordinates of the two files: unchanged, in the add/delete table, or
      in the bin-diff table, and never in two of them. */
  lemma BinDiffPartition(src: Tables, dif: Tables, dstType: MbtType, md5: Md5, c: Coord)
    requires c in View(src) || c in View(dif)
    ensures var whole, bin := c in SelectDiff(src, dif, dstType, true, md5), c in DifferQuery(src, dif);
            && (Unchanged(src, dif, c) || whole || bin)
            && !(Unchanged(src, dif, c) && whole) && !(Unchanged(src, dif, c) && bin) && !(whole && bin)
  {
    WholeTiles(src, dif, dstType, md5, c);
  }

  /** What one bin-diffed tile comes back as. */
  lemma BinDiffRoundTrip(older: Bytes, newer: Bytes, patchType: PatchType, codec: Codec, c: Coord)
    requires codec.Sound()
    requires DifferProcess(DifferBefore(c, older, newer), patchType, codec).Some?
    ensures var row := DifferProcess(DifferBefore(c, older, newer), patchType, codec).value;
            var result := PatcherProcess(ApplierBefore(c, older, row.patchData, row.tileXxh3), patchType, codec);
            && (patchType == BinDiffRaw ==> result == Some(newer))
            && (patchType == BinDiffGz && result.Some? ==> codec.gunzip(result.value) == codec.gunzip(newer))
            && (patchType == BinDiffGz ==> (result.Some? <==> codec.gzip(codec.gunzip(newer).value).Some?))
            && (patchType == BinDiffRaw || (forall b :: codec.gzip(b).Some?) ==> result.Some?)
  {
    var a := Unpacked(patchType, older, codec).value;
    var b := Unpacked(patchType, newer, codec).value;
    assert codec.patch(a, codec.diff(a, b)) == Some(b);
    assert codec.unbrotli(codec.brotli(codec.diff(a, b)).value) == Some(codec.diff(a, b));
  }

  /** Two gzip-ed tiles with the same contents. */
  predicate SameUnzipped(a: Option<Bytes>, b: Option<Bytes>, codec: Codec) {
    a.Some? && b.Some? && codec.gunzip(a.value).Some? && codec.gunzip(a.value) == codec.gunzip(b.value)
  }

  /** Bin-diff is exact: applying both parts of a bin-diff patch to a source with the same tiles gives
      exactly the new tiles; for gzip-ed tiles the bin-diffed ones are equal after decompression. */
  lemma BinDiffExact(src: Tables, newer: Tables, patch: File, base: Tables, kind: MbtType, codec: Codec, joined: Tables,
                     tiles: Tileset, after: Tables, patchKind: MbtType, md5: Md5)
    requires codec.Sound() && patch.binDiff.Some? && !kind.Normalized? && !patchKind.Normalized?
    requires CopiedTiles(Empty(patchKind), SelectDiff(src, newer, patchKind, true, md5), Override, patch.tables)
    requires IsDiffTable(src, newer, patch.binDiff.value.patchType, codec, patch.binDiff.value.rows)
    requires View(base) == View(src)
    requires IsPatchedVia(base, patch, kind, codec, joined, tiles, after, md5)
    ensures forall c :: c in View(after) <==> c in DropNull(View(newer))
    ensures forall c | c in View(after) ::
              View(after)[c] == View(newer)[c]
              || (c in DifferQuery(src, newer) && patch.binDiff.value.patchType == BinDiffGz
                  && SameUnzipped(View(after)[c], View(newer)[c], codec))
    ensures patch.binDiff.value.patchType == BinDiffRaw ==> View(after) == DropNull(View(newer))
  {
    forall c {
      BinDiffExactAt(src, newer, patch, base, kind, codec, joined, tiles, after, patchKind, md5, c);
    }
    if patch.binDiff.value.patchType == BinDiffRaw {
      SameMaps(View(after), DropNull(View(newer)));
    }
  }

  /** The same about files: a bin-diff patch that a comparison wrote, copied onto a file with the source's tiles,
      gives the new tiles, the right hash, and the new metadata if the base had the source's. */
  lemma BinDiffCopy(src: File, newer: File, patchKind: MbtType, patchType: PatchType, codec: Codec, patch: File,
                    base: File, kind: MbtType, force: bool, after: File, hashing: Hashing)
    requires codec.Sound() && !kind.Normalized? && !patchKind.Normalized?
    requires IsDiffFile(src, newer, patchKind, Some(patchType), codec, patch, hashing)
    requires View(base.tables) == View(src.tables)
    requires IsPatchedFile(base, patch, kind, codec, force, after, hashing)
    ensures HashIsRight(after, hashing)
    ensures forall c :: c in View(after.tables) <==> c in DropNull(View(newer.tables))
    ensures forall c | c in View(after.tables) ::
              View(after.tables)[c] == View(newer.tables)[c]
              || (patchType == BinDiffGz && SameUnzipped(View(after.tables)[c], View(newer.tables)[c], codec))
    ensures patchType == BinDiffRaw ==> View(after.tables) == DropNull(View(newer.tables))
    ensures Cell(newer.metadata, AGG_TILES_HASH).Some?
            && DropNull(base.metadata - HASH_KEYS) == DropNull(src.metadata - HASH_KEYS) ==>
              DropNull(after.metadata - HASH_KEYS) == DropNull(newer.metadata - HASH_KEYS)
  {
    var joined, tiles :| IsPatchedVia(base.tables, patch, kind, codec, joined, tiles, after.tables, hashing.md5);
    BinDiffExact(src.tables, newer.tables, patch, base.tables, kind, codec, joined, tiles, after.tables, patchKind,
                 hashing.md5);
    PatchedFileLaw(base, patch, kind, codec, force, after, hashing);
    if Cell(newer.metadata, AGG_TILES_HASH).Some?
       && DropNull(base.metadata - HASH_KEYS) == DropNull(src.metadata - HASH_KEYS) {
      CopiedMetadata(src, newer, patch, base, after, hashing);
    }
  }

  /** A patched copy of a file with the source's metadata has the new file's. */
  lemma CopiedMetadata(src: File, newer: File, patch: File, base: File, after: File, hashing: Hashing)
    requires patch.metadata == DiffFileMetadata(src.metadata, newer.metadata, hashing.agg(View(patch.tables)))
    requires after.metadata - HASH_KEYS == Overlay(base.metadata, patch.metadata) - HASH_KEYS
    requires Cell(newer.metadata, AGG_TILES_HASH).Some?
    requires DropNull(base.metadata - HASH_KEYS) == DropNull(src.metadata - HASH_KEYS)
    ensures DropNull(after.metadata - HASH_KEYS) == DropNull(newer.metadata - HASH_KEYS)
  {
    MetadataAgreement(base.metadata, patch.metadata);
    DiffThenCopyMetadata(src.metadata, newer.metadata, base.metadata, hashing.agg(View(patch.tables)));
  }

  /** The tiles view after the join without the bin-diffed tiles. */
  lemma JoinedWithoutBinDiff(src: Tables, newer: Tables, patch: File, base: Tables, kind: MbtType, joined: Tables,
                             patchKind: MbtType, md5: Md5, c: Coord)
    requires patch.binDiff.Some? && patch.binDiff.value.rows.Keys == DifferQuery(src, newer).Keys
    requires !kind.Normalized? && !patchKind.Normalized?
    requires CopiedTiles(Empty(patchKind), SelectDiff(src, newer, patchKind, true, md5), Override, patch.tables)
    requires View(base) == View(src)
    requires CopiedTiles(Empty(kind), SelectPatched(base, patch.tables, kind, BinDiffKeys(patch), md5), Override,
                         joined)
    ensures c in View(joined) <==> Cell(View(newer), c).Some? && c !in DifferQuery(src, newer)
    ensures c in View(joined) ==> View(joined)[c] == View(newer)[c]
  {
    WholeTiles(src, newer, patchKind, md5, c);
    FreshDirectCell(patchKind, SelectDiff(src, newer, patchKind, true, md5), patch.tables, c);
    FreshDirectCell(kind, SelectPatched(base, patch.tables, kind, BinDiffKeys(patch), md5), joined, c);
    JoinedCell(base, patch.tables, kind, BinDiffKeys(patch), md5, c);
  }

  lemma FreshDirectCell(kind: MbtType, rows: Rows, after: Tables, c: Coord)
    requires !kind.Normalized? && CopiedTiles(Empty(kind), rows, Override, after)
    ensures c in View(after) <==> c in rows
    ensures c in rows ==> View(after)[c] == rows[c].data
  {
  }

  lemma JoinedCell(src: Tables, dif: Tables, kind: MbtType, binDiffed: set<Coord>, md5: Md5, c: Coord)
    ensures var rows := SelectPatched(src, dif, kind, binDiffed, md5);
            && (c in rows <==> && (c in View(src) || c in View(dif))
                               && (c in View(dif) ==> View(dif)[c].Some?)
                               && !(c in View(src) && c in binDiffed))
            && (c in rows ==> rows[c].data == Coalesce(Cell(View(dif), c), Cell(View(src), c)))
  {
    HashColumn(src, md5, c);
    HashColumn(dif, md5, c);
  }

  lemma BinDiffExactAt(src: Tables, newer: Tables, patch: File, base: Tables, kind: MbtType, codec: Codec,
                       joined: Tables, tiles: Tileset, after: Tables, patchKind: MbtType, md5: Md5, c: Coord)
    requires codec.Sound() && patch.binDiff.Some? && !kind.Normalized? && !patchKind.Normalized?
    requires CopiedTiles(Empty(patchKind), SelectDiff(src, newer, patchKind, true, md5), Override, patch.tables)
    requires IsDiffTable(src, newer, patch.binDiff.value.patchType, codec, patch.binDiff.value.rows)
    requires View(base) == View(src)
    requires CopiedTiles(Empty(kind), SelectPatched(base, patch.tables, kind, BinDiffKeys(patch), md5), Override,
                         joined)
    requires IsPatcherOutput(base, patch.binDiff.value, codec, tiles) && IsBinPatched(joined, tiles, after, md5)
    ensures c in View(after) <==> c in DropNull(View(newer))
    ensures c in View(after) ==>
              View(after)[c] == View(newer)[c]
              || (c in DifferQuery(src, newer) && patch.binDiff.value.patchType == BinDiffGz
                  && SameUnzipped(View(after)[c], View(newer)[c], codec))
  {
    var table := patch.binDiff.value;
    JoinedWithoutBinDiff(src, newer, patch, base, kind, joined, patchKind, md5, c);
    BinPatchedTiles(src, newer, table, base, codec, tiles, c);
    ExactVerdict(src, newer, table.patchType, codec, joined, tiles, after, md5, c);
  }

  /** The verdict on one coordinate, from what the two stages leave there. */
  lemma ExactVerdict(src: Tables, newer: Tables, patchType: PatchType, codec: Codec, joined: Tables, tiles: Tileset,
                     after: Tables, md5: Md5, c: Coord)
    requires c in View(joined) <==> Cell(View(newer), c).Some? && c !in DifferQuery(src, newer)
    requires c in View(joined) ==> View(joined)[c] == View(newer)[c]
    requires c in tiles <==> c in DifferQuery(src, newer)
    requires c in tiles && patchType == BinDiffRaw ==> tiles[c] == View(newer)[c]
    requires c in tiles && patchType == BinDiffGz ==> SameUnzipped(tiles[c], View(newer)[c], codec)
    requires IsBinPatched(joined, tiles, after, md5)
    ensures c in View(after) <==> c in DropNull(View(newer))
    ensures c in View(after) ==>
              View(after)[c] == View(newer)[c]
              || (c in DifferQuery(src, newer) && patchType == BinDiffGz
                  && SameUnzipped(View(after)[c], View(newer)[c], codec))
  {
    BinPatchedCell(joined, tiles, after, md5, c);
  }

  lemma BinPatchedCell(before: Tables, tiles: Tileset, after: Tables, md5: Md5, c: Coord)
    requires IsBinPatched(before, tiles, after, md5)
    ensures c in View(after) <==> c in View(before) || c in tiles
    ensures c in View(after) ==> View(after)[c] == if c in tiles then tiles[c] else View(before)[c]
  {
  }

  lemma PatchedRowsAreDiffed(src: Tables, newer: Tables, table: BinDiffTable, base: Tables, codec: Codec)
    requires IsDiffTable(src, newer, table.patchType, codec, table.rows) && View(base) == View(src)
    ensures PatcherQuery(base, table).Keys == DifferQuery(src, newer).Keys && Readable(base, table)
  {
  }

  lemma BinPatchedTiles(src: Tables, newer: Tables, table: BinDiffTable, base: Tables, codec: Codec, tiles: Tileset,
                        c: Coord)
    requires codec.Sound() && IsDiffTable(src, newer, table.patchType, codec, table.rows)
    requires View(base) == View(src) && IsPatcherOutput(base, table, codec, tiles)
    ensures c in tiles <==> c in DifferQuery(src, newer)
    ensures c in tiles && table.patchType == BinDiffRaw ==> tiles[c] == View(newer)[c]
    ensures c in tiles && table.patchType == BinDiffGz ==> SameUnzipped(tiles[c], View(newer)[c], codec)
  {
    PatchedRowsAreDiffed(src, newer, table, base, codec);
    if c in tiles {
      var row := DifferQuery(src, newer)[c];
      assert DifferProcess(row, table.patchType, codec) == Some(table.rows[c]);
      BinDiffRoundTrip(row.older, row.newer, table.patchType, codec, c);
    }
  }

  /** On the tiles it was made from, a raw bin-diff never fails. */
  lemma BinDiffSucceeds(src: Tables, newer: Tables, table: BinDiffTable, base: Tables, codec: Codec, c: Coord)
    requires codec.Sound() && table.patchType == BinDiffRaw
    requires IsDiffTable(src, newer, table.patchType, codec, table.rows) && View(base) == View(src)
    requires c in PatcherQuery(base, table)
    ensures PatcherResult(base, table, codec, c) == View(newer)[c]
  {
    var row := DifferQuery(src, newer)[c];
    assert DifferProcess(row, table.patchType, codec) == Some(table.rows[c]);
    BinDiffRoundTrip(row.older, row.newer, table.patchType, codec, c);
  }
}
