/** The main results about comparing, patching and converting files. */
module PatchTheorems {
  import opened Sql
  import opened Tilesets
  import opened Layouts
  import opened Statements
  import opened Queries
  import opened PatchLaws

  /** `patch` is what comparing `src` with `newer` writes into a new file of type `patchType`. */
  ghost predicate IsDiff(src: Tables, newer: Tables, patchType: MbtType, patch: Tables, md5: Md5) {
    CopiedTiles(Empty(patchType), SelectDiff(src, newer, patchType, false, md5), Override, patch)
  }

  /** `after` is what the in-place patcher makes of `base`. */
  ghost predicate IsApplied(base: Tables, patch: Tables, after: Tables, md5: Md5) {
    AppliedTiles(base, SelectPatch(base.Type(), patch, md5), after)
  }

  /** `joined` is what copying `src` into a new file while applying `patch` writes. */
  ghost predicate IsJoined(src: Tables, patch: Tables, dstType: MbtType, joined: Tables, md5: Md5) {
    CopiedTiles(Empty(dstType), SelectPatched(src, patch, dstType, {}, md5), Override, joined)
  }

  // ---------------------------------------------------------------- compare, then apply in place

  lemma UpsertsAddressed(baseType: MbtType, patch: Tables, md5: Md5, store: Store)
    requires !baseType.Flat? && Addressed(patch, md5, store)
    ensures RowsAddressed(Upserts(SelectPatch(baseType, patch, md5)), store)
  {
    var rows := SelectPatch(baseType, patch, md5);
    forall c | c in Upserts(rows)
      ensures RowAddressed(rows[c], store)
    {
      assert rows[c] == TilesWithHash(patch, md5)[c];
    }
  }

  /** For every mix of layouts, applying a diff in place to a base that carries the source's tiles
      gives exactly the tiles of the new file. The one exception is a base whose map table refers to
      images it does not have: it is met exactly when the patch brings none of those images. */
  lemma DiffThenApply(src: Tables, newer: Tables, base: Tables, patchType: MbtType, patch: Tables, after: Tables,
                      md5: Md5, store: Store)
    requires IsDiff(src, newer, patchType, patch, md5)
    requires IsApplied(base, patch, after, md5)
    requires DropNull(View(base)) == DropNull(View(src))
    requires patchType.Normalized? ==> Addressed(newer, md5, store) && EmptyIdIsNull(store)
    requires base.NormalizedTables? ==> Addressed(base, md5, store) && Addressed(patch, md5, store)
    ensures Adopted(base, SelectPatch(base.Type(), patch, md5)) == {} <==>
              DropNull(View(after)) == DropNull(View(newer))
    ensures View(base) == View(src) ==>
              (Adopted(base, SelectPatch(base.Type(), patch, md5)) == {} <==> View(after) == DropNull(View(newer)))
    ensures base.Resolved() ==> DropNull(View(after)) == DropNull(View(newer))
  {
    var rows := SelectPatch(base.Type(), patch, md5);
    DiffReads(src, newer, base.Type(), patchType, patch, md5, store);
    if base.NormalizedTables? {
      UpsertsAddressed(base.Type(), patch, md5, store);
    }
    AppliedView(base, rows, after, md5, store);
    AppliedDelta(base, rows, View(src), View(newer), store);
    if base.Resolved() {
      assert Adopted(base, rows) == {};
    }
  }

  lemma AppliedDelta(base: Tables, rows: Rows, older: Tileset, newer: Tileset, store: Store)
    requires Data(rows) == Delta(older, newer)
    requires DropNull(View(base)) == DropNull(older)
    requires base.NormalizedTables? ==> RowsAddressed(Upserts(rows), store)
    ensures var result := Overlay(Completed(base, rows, store), Data(rows));
            && (Adopted(base, rows) == {} <==> DropNull(result) == DropNull(newer))
            && (View(base) == older ==> (Adopted(base, rows) == {} <==> result == DropNull(newer)))
  {
    var result := Overlay(Completed(base, rows, store), Data(rows));
    if Adopted(base, rows) == {} {
      OverlayDelta(View(base), older, newer);
      CompletedIsBase(base, rows, store);
      if View(base) == older {
        assert NullKeys(result) == {};
        NullFree(result);
      }
    } else {
      var c :| c in Adopted(base, rows);
      AdoptedHasData(base, rows, store, c);
      assert c !in Data(rows);
      AdoptedNotNew(View(base), older, newer, c);
      DifferentCells(result, newer, c);
      DropNullTwice(newer);
    }
  }

  lemma DropNullTwice<K, V>(m: map<K, Option<V>>)
    ensures DropNull(DropNull(m)) == DropNull(m)
  {
  }

  /** The patcher reads exactly the delta back from a diff, whatever the layout of the patch. */
  lemma DiffReads(src: Tables, newer: Tables, baseType: MbtType, patchType: MbtType, patch: Tables, md5: Md5,
                  store: Store)
    requires IsDiff(src, newer, patchType, patch, md5)
    requires patchType.Normalized? ==> Addressed(newer, md5, store) && EmptyIdIsNull(store)
    ensures Data(SelectPatch(baseType, patch, md5)) == Delta(View(src), View(newer))
  {
    DiffView(src, newer, patchType, patch, md5, store);
    SelectPatchData(baseType, patch, md5);
    assert Dangling(patch) == {};
    SameMaps(Data(SelectPatch(baseType, patch, md5)), View(patch));
  }

  lemma CompletedIsBase(base: Tables, rows: Rows, store: Store)
    requires Adopted(base, rows) == {}
    ensures Completed(base, rows, store) == View(base)
  {
  }

  lemma NullFree<K, V>(m: map<K, Option<V>>)
    requires NullKeys(m) == {}
    ensures m == DropNull(m)
  {
    forall k | k in m
      ensures m[k].Some?
    {
      assert k !in NullKeys(m);
    }
  }

  lemma AdoptedNotNew(base: Tileset, older: Tileset, newer: Tileset, c: Coord)
    requires DropNull(base) == DropNull(older)
    requires c !in base && c !in Delta(older, newer)
    ensures Cell(newer, c) == None
  {
    assert Cell(DropNull(base), c) == Cell(DropNull(older), c);
  }

  lemma AdoptedHasData(base: Tables, rows: Rows, store: Store, c: Coord)
    requires c in Adopted(base, rows) && RowsAddressed(Upserts(rows), store)
    ensures store(base.mapping[c].value).Some? && c !in View(base) && c !in rows
  {
    var id := base.mapping[c].value;
    var d :| d in Upserts(rows) && Upserts(rows)[d].hash == Some(id);
    assert RowAddressed(Upserts(rows)[d], store);
  }

  // ---------------------------------------------------------------- the two ways to apply a patch

  lemma SelectPatchedCell(src: Tables, patch: Tables, dstType: MbtType, md5: Md5, c: Coord)
    ensures var rows, overlaid := Data(SelectPatched(src, patch, dstType, {}, md5)), Overlay(View(src), View(patch));
            Cell(rows, c) == Cell(overlaid, c) && (c in rows <==> c in overlaid)
  {
    TilesWithHashCell(src, md5, c);
    TilesWithHashCell(patch, md5, c);
  }

  lemma TilesWithHashCell(t: Tables, md5: Md5, c: Coord)
    ensures Cell(Data(TilesWithHash(t, md5)), c) == Cell(View(t), c)
    ensures c in TilesWithHash(t, md5) <==> c in View(t)
  {
    TilesWithHashData(t, md5);
    assert c in Data(TilesWithHash(t, md5)) <==> c in TilesWithHash(t, md5);
  }

  lemma SelectPatchedData(src: Tables, patch: Tables, dstType: MbtType, md5: Md5)
    ensures Data(SelectPatched(src, patch, dstType, {}, md5)) == Overlay(View(src), View(patch))
  {
    forall c {
      SelectPatchedCell(src, patch, dstType, md5, c);
    }
    SameMaps(Data(SelectPatched(src, patch, dstType, {}, md5)), Overlay(View(src), View(patch)));
  }

  lemma SelectPatchedAddressed(src: Tables, patch: Tables, dstType: MbtType, binDiffed: set<Coord>, md5: Md5,
                               store: Store)
    requires !dstType.Flat? && Addressed(src, md5, store) && Addressed(patch, md5, store)
    ensures RowsAddressed(SelectPatched(src, patch, dstType, binDiffed, md5), store)
  {
    var rows := SelectPatched(src, patch, dstType, binDiffed, md5);
    var s, d := TilesWithHash(src, md5), TilesWithHash(patch, md5);
    forall c | c in rows
      ensures RowAddressed(rows[c], store)
    {
      assert c in d ==> RowAddressed(d[c], store);
      assert c in s ==> RowAddressed(s[c], store);
    }
  }

  /** Copying with a patch overlays the patch on the source, in every layout. */
  lemma JoinedView(src: Tables, patch: Tables, dstType: MbtType, joined: Tables, md5: Md5, store: Store)
    requires IsJoined(src, patch, dstType, joined, md5)
    requires dstType.Normalized? ==> Addressed(src, md5, store) && Addressed(patch, md5, store)
    ensures DropNull(View(joined)) == DropNull(Overlay(View(src), View(patch)))
    ensures !dstType.Normalized? ==> View(joined) == Overlay(View(src), View(patch))
    ensures NullKeys(View(src)) == {} ==> View(joined) == Overlay(View(src), View(patch))
  {
    SelectPatchedData(src, patch, dstType, md5);
    if dstType.Normalized? {
      SelectPatchedAddressed(src, patch, dstType, {}, md5, store);
    }
    var rows := SelectPatched(src, patch, dstType, {}, md5);
    FreshCopyView(dstType, rows, joined, store);
    if NullKeys(View(src)) == {} && dstType.Normalized? {
      forall c | c in rows
        ensures rows[c].hash.Some?
      {
        assert Data(rows)[c] == Overlay(View(src), View(patch))[c];
        assert c !in NullKeys(View(src));
        assert RowAddressed(rows[c], store);
      }
    }
  }

  /** Where the two ways of applying part: tiles of a non-flat base that the in-place patcher deletes
      because of a dangling reference in the patch, and tiles it resurrects. */
  function Divergence(base: Tables, patch: Tables, md5: Md5): set<Coord> {
    (if base.FlatTables? then {} else Dangling(patch) * DropNull(View(base)).Keys)
    + Adopted(base, SelectPatch(base.Type(), patch, md5))
  }

  /** For every base and every patch, diff-generated or not, the in-place patcher and the copying
      patcher give the same tiles if and only if nothing diverges. */
  lemma ApplyAgreement(base: Tables, patch: Tables, dstType: MbtType, after: Tables, joined: Tables, md5: Md5,
                       store: Store)
    requires IsApplied(base, patch, after, md5)
    requires IsJoined(base, patch, dstType, joined, md5)
    requires base.NormalizedTables? || dstType.Normalized? ==>
              Addressed(base, md5, store) && Addressed(patch, md5, store)
    ensures DropNull(View(after)) == DropNull(View(joined)) <==> Divergence(base, patch, md5) == {}
  {
    var rows := SelectPatch(base.Type(), patch, md5);
    var overlaid := Overlay(View(base), View(patch));
    JoinedView(base, patch, dstType, joined, md5, store);
    SelectPatchData(base.Type(), patch, md5);
    if base.NormalizedTables? {
      UpsertsAddressed(base.Type(), patch, md5, store);
    }
    AppliedView(base, rows, after, md5, store);
    forall c
      ensures Cell(View(after), c) == Cell(overlaid, c) <==> c !in Divergence(base, patch, md5)
    {
      AgreementAt(base, patch, rows, md5, store, c);
    }
    if Divergence(base, patch, md5) == {} {
      SameCells(View(after), overlaid);
    } else {
      var c :| c in Divergence(base, patch, md5);
      DifferentCells(View(after), overlaid, c);
    }
  }

  lemma AgreementAt(base: Tables, patch: Tables, rows: Rows, md5: Md5, store: Store, c: Coord)
    requires rows == SelectPatch(base.Type(), patch, md5)
    requires base.NormalizedTables? ==> RowsAddressed(Upserts(rows), store)
    ensures Cell(Overlay(Completed(base, rows, store), Data(rows)), c) == Cell(Overlay(View(base), View(patch)), c)
            <==> c !in Divergence(base, patch, md5)
  {
    SelectPatchData(base.Type(), patch, md5);
    assert Data(rows).Keys == rows.Keys;
    if c in Adopted(base, rows) {
      AdoptedHasData(base, rows, store, c);
    }
    assert c in DropNull(View(base)) <==> c in View(base) && View(base)[c].Some?;
    assert Cell(Completed(base, rows, store), c) ==
           if c in Adopted(base, rows) then store(base.mapping[c].value) else Cell(View(base), c);
  }

  lemma DifferentCells<K, V>(a: map<K, Option<V>>, b: map<K, Option<V>>, k: K)
    requires Cell(a, k) != Cell(b, k)
    ensures DropNull(a) != DropNull(b)
  {
    assert Cell(DropNull(a), k) == Cell(a, k) && Cell(DropNull(b), k) == Cell(b, k);
  }

  /** The divergence is real: a map row of the patch that has no image deletes the tile in place, and is
      ignored by the copy. */
  lemma DanglingPatchDiverges(base: Tables, patch: Tables, after: Tables, joined: Tables, md5: Md5, c: Coord)
    requires base.HashedTables? && c in View(base) && c in Dangling(patch)
    requires IsApplied(base, patch, after, md5) && IsJoined(base, patch, FlatWithHash, joined, md5)
    ensures c !in View(after)
    ensures c in View(joined) && View(joined)[c] == View(base)[c]
  {
    assert c in Deletions(SelectPatch(FlatWithHash, patch, md5));
    SelectPatchedCell(base, patch, FlatWithHash, md5, c);
  }

  /** There are such patches. */
  lemma DanglingPatchExists(c: Coord, d: Coord, data: Bytes)
    requires c != d
    ensures c in Dangling(NormalizedTables(map[c := Some("gone"), d := Some("here")], map["here" := Some(data)], false))
  {
    assert "gone"[0] != "here"[0];
  }

  // ---------------------------------------------------------------- the normalized store

  /** Every map row resolves: no NULL and no missing id. */
  predicate FullyResolved(t: Tables) {
    t.Slots() == View(t).Keys
  }

  /** `id = md5(data)` for every image that has data. */
  predicate ImagesHashed(t: Tables, md5: Md5) {
    t.NormalizedTables? ==> forall id | id in t.images && t.images[id].Some? :: id == md5(t.images[id].value)
  }

  /** In-place application keeps a content-addressed store well formed: references resolve, nothing is
      left unreferenced, ids still name their data. No assumption on collisions is needed. */
  lemma AppliedStoreWellFormed(base: Tables, patch: Tables, after: Tables, md5: Md5)
    requires base.NormalizedTables? && IsApplied(base, patch, after, md5)
    requires base.Resolved() && ImagesHashed(base, md5) && Hashed(patch, md5)
    ensures after.Resolved() && ImagesHashed(after, md5)
    ensures after.images.Keys == References(after.mapping)
    ensures FullyResolved(base) ==> FullyResolved(after)
  {
    var rows := SelectPatch(base.Type(), patch, md5);
    var puts := Upserts(rows);
    forall c | c in puts
      ensures puts[c].hash == Some(md5(puts[c].data.value)) && puts[c].hash.value in Ids(puts)
    {
      assert puts[c] == TilesWithHash(patch, md5)[c];
      assert RowHashed(puts[c], md5);
    }
    var replaced :| ImagesReplaced(base.images, puts, replaced)
      && after.images == (map id | id in replaced && id in References(after.mapping) :: replaced[id]);
    forall c | c in after.mapping && after.mapping[c].Some?
      ensures after.mapping[c].value in after.images
    {
      assert c in puts || after.mapping[c] == base.mapping[c];
    }
    forall id | id in after.images && after.images[id].Some?
      ensures id == md5(after.images[id].value)
    {
      if id in Ids(puts) {
        var c :| c in puts && puts[c] == Row(after.images[id], Some(id));
      }
    }
    if FullyResolved(base) {
      forall c | c in after.mapping
        ensures c in View(after)
      {
        assert c in puts || after.mapping[c] == base.mapping[c];
        assert c !in puts ==> c in View(base);
      }
    }
  }

  /** On fully resolved files the two ways of applying a patch to a normalized base agree on the
      tables themselves, not only on the tiles. */
  lemma NormalizedAgreement(base: Tables, patch: Tables, after: Tables, joined: Tables, md5: Md5, store: Store)
    requires base.NormalizedTables? && FullyResolved(base) && FullyResolved(patch)
    requires IsApplied(base, patch, after, md5)
    requires IsJoined(base, patch, base.Type(), joined, md5)
    requires Addressed(base, md5, store) && Addressed(patch, md5, store)
    ensures after == joined
  {
    NormalizedMappings(base, patch, after, joined, md5, store);
    AppliedImagesExact(base, patch, after, md5, store);
    JoinedImagesExact(base, patch, joined, md5, store);
    assert after.images == joined.images;
  }

  lemma JoinedImagesExact(base: Tables, patch: Tables, joined: Tables, md5: Md5, store: Store)
    requires base.NormalizedTables?
    requires IsJoined(base, patch, base.Type(), joined, md5)
    requires Addressed(base, md5, store) && Addressed(patch, md5, store)
    ensures joined.NormalizedTables? && joined.images.Keys == References(joined.mapping)
    ensures forall id | id in joined.images :: joined.images[id] == store(id)
  {
    var copied := SelectPatched(base, patch, base.Type(), {}, md5);
    SelectPatchedAddressed(base, patch, base.Type(), {}, md5, store);
    CopiedImages(Empty(base.Type()), copied, Override, joined, store);
    FreshImages(base.Type(), copied, joined);
  }

  lemma NormalizedMappings(base: Tables, patch: Tables, after: Tables, joined: Tables, md5: Md5, store: Store)
    requires base.NormalizedTables? && FullyResolved(base) && FullyResolved(patch)
    requires IsApplied(base, patch, after, md5)
    requires IsJoined(base, patch, base.Type(), joined, md5)
    requires Addressed(base, md5, store) && Addressed(patch, md5, store)
    ensures after.NormalizedTables? && joined.NormalizedTables? && after.mapping == joined.mapping
  {
    forall c
      ensures c in after.mapping <==> c in joined.mapping
      ensures c in after.mapping ==> after.mapping[c] == joined.mapping[c]
    {
      NormalizedAgreementAt(base, patch, after, joined, md5, store, c);
    }
  }

  /** After the in-place patcher the images are exactly those referred to, with what their id stands for. */
  lemma AppliedImagesExact(base: Tables, patch: Tables, after: Tables, md5: Md5, store: Store)
    requires base.NormalizedTables? && FullyResolved(base)
    requires IsApplied(base, patch, after, md5)
    requires Addressed(base, md5, store) && Addressed(patch, md5, store)
    ensures after.images.Keys == References(after.mapping)
    ensures forall id | id in after.images :: after.images[id] == store(id)
  {
    var rows := SelectPatch(base.Type(), patch, md5);
    UpsertsAddressed(base.Type(), patch, md5, store);
    var replaced :| ImagesReplaced(base.images, Upserts(rows), replaced)
      && after.images == (map id | id in replaced && id in References(after.mapping) :: replaced[id]);
    AppliedImages(base, rows, replaced, md5, store);
    forall id | id in References(after.mapping)
      ensures id in replaced && replaced[id] == store(id)
    {
      var c :| c in after.mapping && after.mapping[c] == Some(id);
      if c in Upserts(rows) {
        assert Upserts(rows)[c].hash == Some(id);
      } else {
        assert c in View(base) && base.mapping[c] == Some(id);
      }
    }
  }

  /** A fresh normalized copy holds the images it refers to and no others. */
  lemma FreshImages(kind: MbtType, rows: Rows, after: Tables)
    requires kind.Normalized? && CopiedTiles(Empty(kind), rows, Override, after)
    ensures after.images.Keys == References(after.mapping)
  {
    assert after.mapping == Hashes(rows);
    forall id
      ensures id in Ids(rows) <==> id in References(after.mapping)
    {
      if id in Ids(rows) {
        var c :| c in rows && rows[c].hash == Some(id);
        assert after.mapping[c] == Some(id);
      }
      if id in References(after.mapping) {
        var c :| c in after.mapping && after.mapping[c] == Some(id);
        assert rows[c].hash == Some(id);
      }
    }
  }

  lemma SelectPatchIsView(baseType: MbtType, patch: Tables, md5: Md5)
    requires !baseType.Flat? && FullyResolved(patch)
    ensures SelectPatch(baseType, patch, md5) == TilesWithHash(patch, md5)
  {
  }

  lemma NormalizedAgreementAt(base: Tables, patch: Tables, after: Tables, joined: Tables, md5: Md5, store: Store,
                              c: Coord)
    requires base.NormalizedTables? && FullyResolved(base) && FullyResolved(patch)
    requires IsApplied(base, patch, after, md5)
    requires IsJoined(base, patch, base.Type(), joined, md5)
    requires Addressed(base, md5, store) && Addressed(patch, md5, store)
    ensures c in after.mapping <==> c in joined.mapping
    ensures c in after.mapping ==> after.mapping[c] == joined.mapping[c] && after.mapping[c].Some?
  {
    var s, d := TilesWithHash(base, md5), TilesWithHash(patch, md5);
    SelectPatchIsView(base.Type(), patch, md5);
    assert c in d ==> RowAddressed(d[c], store);
    assert c in base.mapping <==> c in View(base);
    if c in d {
      assert c in Deletions(d) <==> d[c].data.None?;
    }
  }

  // ---------------------------------------------------------------- converting layouts

  /** A chain of plain copies, each into a new file. */
  ghost predicate IsCopyChain(files: seq<Tables>, md5: Md5) {
    forall i | 0 < i < |files| ::
      CopiedTiles(Empty(files[i].Type()), SelectCopy(files[i - 1], files[i].Type(), md5), Override, files[i])
  }

  lemma CopyHashed(src: Tables, dst: Tables, md5: Md5, store: Store)
    requires CopiedTiles(Empty(dst.Type()), SelectCopy(src, dst.Type(), md5), Override, dst)
    requires Hashed(src, md5) && Addressed(src, md5, store)
    ensures DropNull(View(dst)) == DropNull(View(src))
    ensures Hashed(dst, md5) && Addressed(dst, md5, store)
  {
    var rows := SelectCopy(src, dst.Type(), md5);
    TilesWithHashData(src, md5);
    FreshCopyView(dst.Type(), rows, dst, store);
    forall c | c in TilesWithHash(dst, md5)
      ensures RowHashed(TilesWithHash(dst, md5)[c], md5) && RowAddressed(TilesWithHash(dst, md5)[c], store)
    {
      CopyHashedRow(src, dst, md5, store, c);
    }
  }

  lemma CopyHashedRow(src: Tables, dst: Tables, md5: Md5, store: Store, c: Coord)
    requires CopiedTiles(Empty(dst.Type()), SelectCopy(src, dst.Type(), md5), Override, dst)
    requires Hashed(src, md5) && Addressed(src, md5, store)
    requires c in TilesWithHash(dst, md5)
    ensures RowHashed(TilesWithHash(dst, md5)[c], md5) && RowAddressed(TilesWithHash(dst, md5)[c], store)
  {
    var rows := SelectCopy(src, dst.Type(), md5);
    TilesWithHashData(src, md5);
    assert c in TilesWithHash(src, md5);
    var row := TilesWithHash(src, md5)[c];
    assert RowHashed(row, md5) && RowAddressed(row, store);
    if dst.NormalizedTables? {
      CopiedImages(Empty(dst.Type()), rows, Override, dst, store);
      CopiedCell(Empty(dst.Type()), rows, Override, dst, store, c);
      assert dst.mapping[c] == row.hash;
    }
  }

  /** Layout conversion is lossless: any chain of copies through any layouts keeps every tile and the
      hash convention, if no two tiles of the first file collide under MD5. */
  lemma {:induction false} ConversionLossless(files: seq<Tables>, n: nat, md5: Md5, store: Store)
    requires n < |files| && IsCopyChain(files, md5)
    requires Hashed(files[0], md5) && Addressed(files[0], md5, store)
    ensures DropNull(View(files[n])) == DropNull(View(files[0]))
    ensures Hashed(files[n], md5) && Addressed(files[n], md5, store)
  {
    if n == 0 {
    } else {
      ConversionLossless(files, n - 1, md5, store);
      CopyHashed(files[n - 1], files[n], md5, store);
    }
  }

  /** The tiles that copying into an existing file is meant to leave: source over destination under
      Override, destination over source under Ignore, where a slot that holds nothing counts as taken. */
  function CopiedOver(src: Tables, dst: Tables, mode: OnDuplicate): Tileset {
    if mode == Override then View(dst) + View(src) else View(dst) + (View(src) - dst.Slots())
  }

  /** Copying into an existing file leaves just that, with one exception: slots that referred to a missing
      image, when the copy brings that image. */
  lemma CopyIntoExisting(src: Tables, dst: Tables, mode: OnDuplicate, after: Tables, md5: Md5, store: Store)
    requires CopiedTiles(dst, SelectCopy(src, dst.Type(), md5), mode, after)
    requires dst.NormalizedTables? ==> Addressed(src, md5, store) && ImagesAddressed(dst, store)
    ensures DropNull(View(after)) == DropNull(CopiedOver(src, dst, mode))
       <==> CopyAdopted(dst, SelectCopy(src, dst.Type(), md5), mode) == {}
    ensures dst.Resolved() ==> CopyAdopted(dst, SelectCopy(src, dst.Type(), md5), mode) == {}
  {
    var rows := SelectCopy(src, dst.Type(), md5);
    var adopted := CopyAdopted(dst, rows, mode);
    forall c
      ensures Cell(View(after), c) == Cell(CopiedOver(src, dst, mode), c) <==> c !in adopted
    {
      CopiedCellAnywhere(dst, rows, mode, after, store, c);
      CopiedOverAt(src, dst, mode, md5, c);
    }
    if adopted == {} {
      SameCells(View(after), CopiedOver(src, dst, mode));
    } else {
      var c :| c in adopted;
      DifferentCells(View(after), CopiedOver(src, dst, mode), c);
    }
  }

  lemma CopiedOverAt(src: Tables, dst: Tables, mode: OnDuplicate, md5: Md5, c: Coord)
    ensures var rows := SelectCopy(src, dst.Type(), md5);
            Cell(CopiedOver(src, dst, mode), c)
            == if Lands(dst, rows, mode, c) then rows[c].data else Cell(View(dst), c)
  {
    TilesWithHashData(src, md5);
    var rows := SelectCopy(src, dst.Type(), md5);
    assert c in rows <==> c in View(src);
    assert c in rows ==> rows[c].data == View(src)[c];
    assert c in View(dst) ==> c in dst.Slots();
  }

  /** In a file without unused slots, Ignore is destination over source. */
  lemma IgnoreKeepsDestination(src: Tables, dst: Tables)
    requires FullyResolved(dst)
    ensures CopiedOver(src, dst, Ignore) == View(src) + View(dst)
  {
  }
}
