/** Files that follow the hash convention, and whole chains of patches between them. */
module PatchChains {
  import opened Sql
  import opened Tilesets
  import opened Layouts
  import opened Statements
  import opened Queries
  import opened PatchLaws
  import opened PatchTheorems

  /** The hash column is right, and ids name the same bytes as in every other file of the store. */
  ghost predicate Honest(t: Tables, md5: Md5, store: Store) {
    forall c | c in TilesWithHash(t, md5) :: HonestRow(TilesWithHash(t, md5)[c], md5, store)
  }

  predicate HonestRow(row: Row, md5: Md5, store: Store) {
    RowHashed(row, md5) && RowAddressed(row, store)
  }

  lemma HonestMeans(t: Tables, md5: Md5, store: Store)
    ensures Honest(t, md5, store) <==> Hashed(t, md5) && Addressed(t, md5, store)
  {
    if Hashed(t, md5) && Addressed(t, md5, store) {
      forall c | c in TilesWithHash(t, md5)
        ensures HonestRow(TilesWithHash(t, md5)[c], md5, store)
      {
        assert RowHashed(TilesWithHash(t, md5)[c], md5);
      }
    }
    if Honest(t, md5, store) {
      forall c | c in TilesWithHash(t, md5)
        ensures RowHashed(TilesWithHash(t, md5)[c], md5) && RowAddressed(TilesWithHash(t, md5)[c], store)
      {
        assert HonestRow(TilesWithHash(t, md5)[c], md5, store);
      }
    }
  }

  // ---------------------------------------------------------------- a diff is honest

  /** What a comparison selects for the tables that store a hash. */
  lemma SelectDiffHonest(src: Tables, newer: Tables, patchType: MbtType, binDiff: bool, md5: Md5, store: Store,
                         c: Coord)
    requires Honest(newer, md5, store) && EmptyIdIsNull(store)
    requires c in SelectDiff(src, newer, patchType, binDiff, md5)
    ensures var row := SelectDiff(src, newer, patchType, binDiff, md5)[c];
            && (!patchType.Flat? ==> HonestRow(row, md5, store) && row.hash.Some?)
            && HonestRow(Row(row.data, Apply(md5, row.data)), md5, store)
  {
    var d := TilesWithHash(newer, md5);
    if c in d {
      assert HonestRow(d[c], md5, store);
    }
  }

  lemma DiffHonestAt(src: Tables, newer: Tables, patchType: MbtType, patch: Tables, md5: Md5, store: Store, c: Coord)
    requires IsDiff(src, newer, patchType, patch, md5)
    requires Honest(newer, md5, store) && EmptyIdIsNull(store)
    requires c in TilesWithHash(patch, md5)
    ensures HonestRow(TilesWithHash(patch, md5)[c], md5, store)
  {
    var rows := SelectDiff(src, newer, patchType, false, md5);
    if patchType.Normalized? {
      HonestMeans(newer, md5, store);
      SelectDiffAddressed(src, newer, patchType, false, md5, store);
      CopiedImages(Empty(patchType), rows, Override, patch, store);
      CopiedCell(Empty(patchType), rows, Override, patch, store, c);
      assert patch.mapping[c] == rows[c].hash;
    }
    SelectDiffHonest(src, newer, patchType, false, md5, store, c);
  }

  /** A patch follows the hash convention if the new file does. */
  lemma DiffIsHonest(src: Tables, newer: Tables, patchType: MbtType, patch: Tables, md5: Md5, store: Store)
    requires IsDiff(src, newer, patchType, patch, md5)
    requires Honest(newer, md5, store) && EmptyIdIsNull(store)
    ensures Honest(patch, md5, store)
  {
    forall c | c in TilesWithHash(patch, md5)
      ensures HonestRow(TilesWithHash(patch, md5)[c], md5, store)
    {
      DiffHonestAt(src, newer, patchType, patch, md5, store, c);
    }
  }

  /** So does the add/delete table of a bin-diff patch. */
  lemma BinDiffIsHonest(src: Tables, newer: Tables, patchType: MbtType, patch: Tables, md5: Md5, store: Store)
    requires !patchType.Normalized?
    requires CopiedTiles(Empty(patchType), SelectDiff(src, newer, patchType, true, md5), Override, patch)
    requires Honest(newer, md5, store) && EmptyIdIsNull(store)
    ensures Honest(patch, md5, store)
  {
    forall c | c in TilesWithHash(patch, md5)
      ensures HonestRow(TilesWithHash(patch, md5)[c], md5, store)
    {
      SelectDiffHonest(src, newer, patchType, true, md5, store, c);
    }
  }

  // ---------------------------------------------------------------- applying keeps honesty

  /** A joined row comes from the patch or, where the patch has none, from the source. */
  lemma SelectPatchedHonest(src: Tables, patch: Tables, kind: MbtType, binDiffed: set<Coord>, md5: Md5, store: Store,
                            c: Coord)
    requires Honest(src, md5, store) && Honest(patch, md5, store)
    requires c in SelectPatched(src, patch, kind, binDiffed, md5)
    ensures var row := SelectPatched(src, patch, kind, binDiffed, md5)[c];
            && (!kind.Flat? ==> HonestRow(row, md5, store))
            && HonestRow(Row(row.data, Apply(md5, row.data)), md5, store)
  {
    var s, d := TilesWithHash(src, md5), TilesWithHash(patch, md5);
    if c in d {
      assert HonestRow(d[c], md5, store);
    } else {
      assert HonestRow(s[c], md5, store);
    }
  }

  /** Copying with a patch keeps the hash convention, in every layout. */
  lemma JoinedIsHonest(src: Tables, patch: Tables, kind: MbtType, binDiffed: set<Coord>, joined: Tables, md5: Md5,
                       store: Store)
    requires CopiedTiles(Empty(kind), SelectPatched(src, patch, kind, binDiffed, md5), Override, joined)
    requires Honest(src, md5, store) && Honest(patch, md5, store)
    ensures Honest(joined, md5, store)
  {
    var rows := SelectPatched(src, patch, kind, binDiffed, md5);
    if kind.Normalized? {
      HonestMeans(src, md5, store);
      HonestMeans(patch, md5, store);
      SelectPatchedAddressed(src, patch, kind, binDiffed, md5, store);
      CopiedImages(Empty(kind), rows, Override, joined, store);
    }
    forall c | c in TilesWithHash(joined, md5)
      ensures HonestRow(TilesWithHash(joined, md5)[c], md5, store)
    {
      SelectPatchedHonest(src, patch, kind, binDiffed, md5, store, c);
    }
  }

  /** Rows to be written are honest, also when only their data is stored. */
  lemma UpsertsHonest(baseType: MbtType, patch: Tables, md5: Md5, store: Store, c: Coord)
    requires Honest(patch, md5, store) && c in Upserts(SelectPatch(baseType, patch, md5))
    ensures var row := SelectPatch(baseType, patch, md5)[c];
            && row.data.Some?
            && HonestRow(Row(row.data, Apply(md5, row.data)), md5, store)
            && (!baseType.Flat? ==> row == Row(row.data, Apply(md5, row.data)))
  {
    var rows := SelectPatch(baseType, patch, md5);
    TilesWithHashData(patch, md5);
    assert c in TilesWithHash(patch, md5) && TilesWithHash(patch, md5)[c].data == rows[c].data;
    assert HonestRow(TilesWithHash(patch, md5)[c], md5, store);
  }

  lemma AppliedHonestAt(base: Tables, patch: Tables, after: Tables, md5: Md5, store: Store, c: Coord)
    requires !base.NormalizedTables? && IsApplied(base, patch, after, md5)
    requires Honest(base, md5, store) && Honest(patch, md5, store)
    requires c in TilesWithHash(after, md5)
    ensures HonestRow(TilesWithHash(after, md5)[c], md5, store)
  {
    if c in Upserts(SelectPatch(base.Type(), patch, md5)) {
      UpsertsHonest(base.Type(), patch, md5, store, c);
    } else {
      assert c in TilesWithHash(base, md5);
      assert TilesWithHash(after, md5)[c] == TilesWithHash(base, md5)[c];
    }
  }

  lemma AppliedHonestNormalized(base: Tables, patch: Tables, after: Tables, replaced: map<string, Option<Bytes>>,
                                md5: Md5, store: Store, c: Coord)
    requires base.NormalizedTables? && base.Resolved() && IsApplied(base, patch, after, md5)
    requires Honest(base, md5, store) && Honest(patch, md5, store)
    requires ImagesReplaced(base.images, Upserts(SelectPatch(base.Type(), patch, md5)), replaced)
    requires after.images == (map id | id in replaced && id in References(after.mapping) :: replaced[id])
    requires c in after.mapping && after.mapping[c].Some?
    ensures after.mapping[c].value in after.images
    ensures HonestRow(Row(after.images[after.mapping[c].value], after.mapping[c]), md5, store)
  {
    var rows := SelectPatch(base.Type(), patch, md5);
    HonestMeans(base, md5, store);
    HonestMeans(patch, md5, store);
    UpsertsAddressed(base.Type(), patch, md5, store);
    AppliedImages(base, rows, replaced, md5, store);
    var id := after.mapping[c].value;
    assert id in References(after.mapping);
    if c in Upserts(rows) {
      UpsertsHonest(base.Type(), patch, md5, store, c);
      assert Upserts(rows)[c].hash == Some(id) && id in Ids(Upserts(rows));
    } else {
      assert base.mapping[c] == Some(id) && c in View(base);
      assert HonestRow(TilesWithHash(base, md5)[c], md5, store);
    }
  }

  /** Applying a patch in place keeps the hash convention and leaves no dangling reference. */
  lemma AppliedIsHonest(base: Tables, patch: Tables, after: Tables, md5: Md5, store: Store)
    requires IsApplied(base, patch, after, md5) && base.Resolved()
    requires Honest(base, md5, store) && Honest(patch, md5, store)
    ensures Honest(after, md5, store) && after.Resolved()
  {
    if base.NormalizedTables? {
      var replaced :| ImagesReplaced(base.images, Upserts(SelectPatch(base.Type(), patch, md5)), replaced)
        && after.images == (map id | id in replaced && id in References(after.mapping) :: replaced[id]);
      forall c | c in after.mapping && after.mapping[c].Some?
        ensures after.mapping[c].value in after.images
        ensures HonestRow(Row(after.images[after.mapping[c].value], after.mapping[c]), md5, store)
      {
        AppliedHonestNormalized(base, patch, after, replaced, md5, store, c);
      }
    } else {
      forall c | c in TilesWithHash(after, md5)
        ensures HonestRow(TilesWithHash(after, md5)[c], md5, store)
      {
        AppliedHonestAt(base, patch, after, md5, store, c);
      }
    }
  }

  // ---------------------------------------------------------------- chains of patches

  /** Version after version, a patch from each to the next, and a file to which they are applied in turn. */
  ghost predicate IsPatchChain(versions: seq<Tables>, patches: seq<Tables>, kinds: seq<MbtType>, states: seq<Tables>,
                               md5: Md5) {
    && |versions| == |states| == |patches| + 1 && |kinds| == |patches|
    && forall i | 0 <= i < |patches| ::
         && IsDiff(versions[i], versions[i + 1], kinds[i], patches[i], md5)
         && IsApplied(states[i], patches[i], states[i + 1], md5)
  }

  lemma {:induction false} ChainKeepsUp(versions: seq<Tables>, patches: seq<Tables>, kinds: seq<MbtType>,
                                        states: seq<Tables>, md5: Md5, store: Store, n: nat)
    requires IsPatchChain(versions, patches, kinds, states, md5) && n < |states|
    requires EmptyIdIsNull(store) && forall i | 0 <= i < |versions| :: Honest(versions[i], md5, store)
    requires Honest(states[0], md5, store) && states[0].Resolved()
    requires DropNull(View(states[0])) == DropNull(View(versions[0]))
    ensures DropNull(View(states[n])) == DropNull(View(versions[n]))
    ensures Honest(states[n], md5, store) && states[n].Resolved()
  {
    if n == 0 {
    } else {
      var m := n - 1;
      ChainKeepsUp(versions, patches, kinds, states, md5, store, m);
      DiffIsHonest(versions[m], versions[n], kinds[m], patches[m], md5, store);
      HonestMeans(versions[n], md5, store);
      HonestMeans(patches[m], md5, store);
      HonestMeans(states[m], md5, store);
      DiffThenApply(versions[m], versions[n], states[m], kinds[m], patches[m], states[n], md5, store);
      AppliedIsHonest(states[m], patches[m], states[n], md5, store);
    }
  }

  /** No two tiles of the files collide under MD5. */
  ghost predicate NoCollision(files: set<Tables>, md5: Md5) {
    forall t, t', c, c' | t in files && t' in files && c in DropNull(View(t)) && c' in DropNull(View(t')) ::
      md5(View(t)[c].value) == md5(View(t')[c'].value) ==> View(t)[c] == View(t')[c']
  }

  /** A file that is kept up to date by patches never drifts. For any number of versions and any mix of
      layouts: if the versions and the file follow the hash convention and no two of their tiles
      collide under MD5, then after each patch the file has exactly the tiles of that version, and it
      still follows the convention. */
  lemma PatchedFileNeverDrifts(versions: seq<Tables>, patches: seq<Tables>, kinds: seq<MbtType>, states: seq<Tables>,
                               md5: Md5, n: nat)
    requires IsPatchChain(versions, patches, kinds, states, md5) && n < |states|
    requires forall i | 0 <= i < |versions| :: Hashed(versions[i], md5)
    requires Hashed(states[0], md5) && states[0].Resolved()
    requires NoCollision((set i | 0 <= i < |versions| :: versions[i]) + {states[0]}, md5)
    requires DropNull(View(states[0])) == DropNull(View(versions[0]))
    ensures DropNull(View(states[n])) == DropNull(View(versions[n]))
    ensures Hashed(states[n], md5) && states[n].Resolved()
  {
    var files := (set i | 0 <= i < |versions| :: versions[i]) + {states[0]};
    var store := HashedIsAddressed(files, md5);
    forall t | t in files
      ensures Honest(t, md5, store)
    {
      HonestMeans(t, md5, store);
    }
    forall i | 0 <= i < |versions|
      ensures Honest(versions[i], md5, store)
    {
      assert versions[i] in files;
    }
    assert states[0] in files;
    ChainKeepsUp(versions, patches, kinds, states, md5, store, n);
    HonestMeans(states[n], md5, store);
  }
}
