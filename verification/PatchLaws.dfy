/** What comparing, copying and patching files means, for every mix of layouts. */
module PatchLaws {
  import opened Sql
  import opened Tilesets
  import opened Layouts
  import opened Statements
  import opened Queries

  // ---------------------------------------------------------------- writing into a layout

  /** Every image of the store agrees with what its id stands for. */
  ghost predicate ImagesAddressed(t: Tables, store: Store) {
    t.NormalizedTables? ==> forall id | id in t.images :: t.images[id] == store(id)
  }

  /** The row of a copy that ends up at a coordinate, if any of the copied rows does. */
  predicate Lands(before: Tables, rows: Rows, mode: OnDuplicate, c: Coord) {
    c in rows && (mode == Override || c !in before.Slots())
  }

  lemma CopiedImages(before: Tables, rows: Rows, mode: OnDuplicate, after: Tables, store: Store)
    requires before.NormalizedTables? && CopiedTiles(before, rows, mode, after)
    requires RowsAddressed(rows, store) && ImagesAddressed(before, store)
    ensures ImagesAddressed(after, store)
  {
    forall id | id in after.images
      ensures after.images[id] == store(id)
    {
      if id !in before.images {
        var c :| c in rows && rows[c] == Row(after.images[id], Some(id));
        assert RowAddressed(rows[c], store);
      }
    }
  }

  lemma CopiedCell(before: Tables, rows: Rows, mode: OnDuplicate, after: Tables, store: Store, c: Coord)
    requires CopiedTiles(before, rows, mode, after)
    requires before.Resolved()
    requires before.NormalizedTables? ==>
              RowsAddressed(rows, store) && ImagesAddressed(before, store) && ImagesAddressed(after, store)
    ensures Cell(View(after), c) == if Lands(before, rows, mode, c) then rows[c].data else Cell(View(before), c)
    ensures c in View(after) <==>
              if Lands(before, rows, mode, c) then before.NormalizedTables? ==> rows[c].hash.Some?
              else c in View(before)
    ensures before.NormalizedTables? && c in after.mapping && after.mapping[c].Some? ==>
              after.mapping[c].value in after.images
  {
    if before.NormalizedTables? && Lands(before, rows, mode, c) {
      assert RowAddressed(rows[c], store);
      assert after.mapping[c] == rows[c].hash;
      if rows[c].hash.Some? {
        assert rows[c].hash.value in Ids(rows);
      }
    }
  }

  /** Copying selected rows into any layout: under Override the rows win wherever they have a slot,
      under Ignore every slot already taken (even one that resolves to nothing) stays as it was. */
  lemma CopiedView(before: Tables, rows: Rows, mode: OnDuplicate, after: Tables, store: Store)
    requires CopiedTiles(before, rows, mode, after)
    requires before.Resolved()
    requires before.NormalizedTables? ==> RowsAddressed(rows, store) && ImagesAddressed(before, store)
    ensures forall c ::
              Cell(View(after), c) == if Lands(before, rows, mode, c) then rows[c].data else Cell(View(before), c)
    ensures forall c :: c in View(after) <==>
              if Lands(before, rows, mode, c) then before.NormalizedTables? ==> rows[c].hash.Some?
              else c in View(before)
    ensures after.Slots() == before.Slots() + rows.Keys
    ensures after.Resolved() && ImagesAddressed(after, store)
  {
    if before.NormalizedTables? {
      CopiedImages(before, rows, mode, after, store);
    }
    forall c {
      CopiedCell(before, rows, mode, after, store, c);
    }
  }

  /** Some selected row has this id and data. */
  ghost predicate BringsData(rows: Rows, id: string) {
    exists c :: c in rows && rows[c].hash == Some(id) && rows[c].data.Some?
  }

  /** Slots that referred to a missing image which the copied rows bring along. */
  ghost function CopyAdopted(before: Tables, rows: Rows, mode: OnDuplicate): set<Coord> {
    if !before.NormalizedTables? then {}
    else set c | c in before.mapping && !Lands(before, rows, mode, c) && before.mapping[c].Some?
                 && before.mapping[c].value !in before.images && BringsData(rows, before.mapping[c].value)
  }

  /** One coordinate after copying into any file, also one with dangling references. */
  lemma CopiedCellAnywhere(before: Tables, rows: Rows, mode: OnDuplicate, after: Tables, store: Store, c: Coord)
    requires CopiedTiles(before, rows, mode, after)
    requires before.NormalizedTables? ==> RowsAddressed(rows, store) && ImagesAddressed(before, store)
    ensures c !in CopyAdopted(before, rows, mode) ==>
              Cell(View(after), c) == if Lands(before, rows, mode, c) then rows[c].data else Cell(View(before), c)
    ensures c in CopyAdopted(before, rows, mode) ==> Cell(View(after), c).Some? && Cell(View(before), c).None?
  {
    if before.NormalizedTables? {
      CopiedImages(before, rows, mode, after, store);
      if Lands(before, rows, mode, c) {
        LandedCell(before, rows, mode, after, store, c);
      } else if c in before.mapping && before.mapping[c].Some? {
        SlotCell(before, rows, mode, after, store, c, before.mapping[c].value);
      }
    }
  }

  lemma LandedCell(before: Tables, rows: Rows, mode: OnDuplicate, after: Tables, store: Store, c: Coord)
    requires before.NormalizedTables? && CopiedTiles(before, rows, mode, after) && Lands(before, rows, mode, c)
    requires RowsAddressed(rows, store) && ImagesAddressed(after, store)
    ensures Cell(View(after), c) == rows[c].data
  {
    assert RowAddressed(rows[c], store);
    assert after.mapping[c] == rows[c].hash;
    if rows[c].hash.Some? {
      assert rows[c].hash.value in Ids(rows);
    }
  }

  /** A slot that keeps its reference. */
  lemma SlotCell(before: Tables, rows: Rows, mode: OnDuplicate, after: Tables, store: Store, c: Coord, id: string)
    requires before.NormalizedTables? && CopiedTiles(before, rows, mode, after)
    requires RowsAddressed(rows, store) && ImagesAddressed(before, store) && ImagesAddressed(after, store)
    requires c in before.mapping && before.mapping[c] == Some(id) && !Lands(before, rows, mode, c)
    ensures if id !in before.images && BringsData(rows, id)
            then Cell(View(after), c).Some? && Cell(View(before), c).None?
            else Cell(View(after), c) == Cell(View(before), c)
  {
    assert after.mapping[c] == Some(id);
    if id !in before.images {
      if BringsData(rows, id) {
        var d :| d in rows && rows[d].hash == Some(id) && rows[d].data.Some?;
        assert RowAddressed(rows[d], store);
        assert id in Ids(rows);
      } else if id in after.images {
        var d :| d in rows && rows[d] == Row(after.images[id], Some(id));
      }
    }
  }

  /** The tile columns of a fresh copy are the selected ones. */
  lemma FreshCopyView(kind: MbtType, rows: Rows, after: Tables, store: Store)
    requires CopiedTiles(Empty(kind), rows, Override, after)
    requires kind.Normalized? ==> RowsAddressed(rows, store)
    ensures DropNull(View(after)) == DropNull(Data(rows))
    ensures kind.Normalized? && (forall c | c in rows :: rows[c].hash.Some?) ==> View(after) == Data(rows)
    ensures !kind.Normalized? ==> View(after) == Data(rows)
    ensures after.Type() == kind && after.Resolved()
  {
    CopiedView(Empty(kind), rows, Override, after, store);
    forall c
      ensures Cell(View(after), c) == Cell(Data(rows), c)
    {
      assert Lands(Empty(kind), rows, Override, c) <==> c in rows;
      assert Cell(View(Empty(kind)), c) == None;
    }
    SameCells(View(after), Data(rows));
    if !kind.Normalized? || forall c | c in rows :: rows[c].hash.Some? {
      forall c
        ensures c in View(after) <==> c in rows
      {
        assert Lands(Empty(kind), rows, Override, c) <==> c in rows;
      }
      SameMaps(View(after), Data(rows));
    }
  }

  lemma SameCells<K, V>(a: map<K, Option<V>>, b: map<K, Option<V>>)
    requires forall k :: Cell(a, k) == Cell(b, k)
    ensures DropNull(a) == DropNull(b)
  {
    assert forall k :: k in DropNull(a) <==> Cell(a, k).Some?;
    assert forall k :: k in DropNull(b) <==> Cell(b, k).Some?;
  }

  lemma SameMaps<K, V>(a: map<K, Option<V>>, b: map<K, Option<V>>)
    requires forall k :: Cell(a, k) == Cell(b, k) && (k in a <==> k in b)
    ensures a == b
  {
    assert forall k | k in a :: a[k] == Cell(a, k) && b[k] == Cell(b, k);
  }

  // ---------------------------------------------------------------- comparing

  /** Despite three-valued logic the WHERE clause of a comparison selects exactly the delta. */
  lemma SelectDiffIsDelta(src: Tables, dif: Tables, dstType: MbtType, md5: Md5)
    ensures Data(SelectDiff(src, dif, dstType, false, md5)) == Delta(View(src), View(dif))
  {
    TilesWithHashData(dif, md5);
  }

  lemma SelectDiffAddressed(src: Tables, dif: Tables, dstType: MbtType, binDiff: bool, md5: Md5, store: Store)
    requires !dstType.Flat? && Addressed(dif, md5, store) && EmptyIdIsNull(store)
    ensures var rows := SelectDiff(src, dif, dstType, binDiff, md5);
            RowsAddressed(rows, store) && forall c | c in rows :: rows[c].hash.Some?
  {
    var d := TilesWithHash(dif, md5);
    forall c | c in SelectDiff(src, dif, dstType, binDiff, md5)
      ensures RowAddressed(SelectDiff(src, dif, dstType, binDiff, md5)[c], store)
    {
      if c in d {
        assert RowAddressed(d[c], store);
      }
    }
  }

  /** A patch file of any layout denotes the delta of the two tilesets. */
  lemma DiffView(src: Tables, dif: Tables, kind: MbtType, patch: Tables, md5: Md5, store: Store)
    requires CopiedTiles(Empty(kind), SelectDiff(src, dif, kind, false, md5), Override, patch)
    requires kind.Normalized? ==> Addressed(dif, md5, store) && EmptyIdIsNull(store)
    ensures View(patch) == Delta(View(src), View(dif))
    ensures patch.Slots() == View(patch).Keys
  {
    var rows := SelectDiff(src, dif, kind, false, md5);
    SelectDiffIsDelta(src, dif, kind, md5);
    if kind.Normalized? {
      SelectDiffAddressed(src, dif, kind, false, md5, store);
    }
    FreshCopyView(kind, rows, patch, store);
  }

  // ---------------------------------------------------------------- applying in place

  /** Map rows of the patch that a LEFT JOIN reports as deletions although the tiles view has no such row. */
  function Dangling(patch: Tables): set<Coord> {
    if patch.NormalizedTables? && !patch.hashView
    then patch.Slots() - View(patch).Keys
    else {}
  }

  /** What the in-place patcher reads is the tiles view of the patch, plus a deletion for every
      dangling reference when the base is not flat. */
  lemma SelectPatchData(baseType: MbtType, patch: Tables, md5: Md5)
    ensures var read := Data(SelectPatch(baseType, patch, md5));
            && read.Keys == View(patch).Keys + (if baseType.Flat? then {} else Dangling(patch))
            && (forall c | c in View(patch) :: read[c] == View(patch)[c])
            && (forall c | c in read && c !in View(patch) :: read[c] == None)
  {
  }

  /** Base coordinates the patch does not mention, whose id had no image until the patch brought one. */
  function Adopted(base: Tables, rows: Rows): set<Coord> {
    if base.NormalizedTables? then
      set c | c in base.mapping && c !in rows
              && base.mapping[c].Some?
              && base.mapping[c].value !in base.images
              && base.mapping[c].value in Ids(Upserts(rows))
    else {}
  }

  /** The base's tileset with the adopted rows resolved. */
  function Completed(base: Tables, rows: Rows, store: Store): Tileset {
    map c | c in View(base).Keys + Adopted(base, rows) ::
      if c in View(base) then View(base)[c] else store(base.mapping[c].value)
  }

  /** Written images hold what their id stands for. */
  lemma AppliedImages(base: Tables, rows: Rows, replaced: map<string, Option<Bytes>>, md5: Md5, store: Store)
    requires base.NormalizedTables? && Addressed(base, md5, store) && RowsAddressed(Upserts(rows), store)
    requires ImagesReplaced(base.images, Upserts(rows), replaced)
    ensures forall id | id in Ids(Upserts(rows)) :: replaced[id] == store(id)
    ensures forall c | c in View(base) ::
              replaced[base.mapping[c].value] == store(base.mapping[c].value) == View(base)[c]
  {
    forall id | id in Ids(Upserts(rows))
      ensures replaced[id] == store(id)
    {
      assert Supplies(Upserts(rows), id, replaced[id]);
    }
    forall c | c in View(base)
      ensures replaced[base.mapping[c].value] == store(base.mapping[c].value) == View(base)[c]
    {
      assert RowAddressed(TilesWithHash(base, md5)[c], store);
    }
  }

  lemma AppliedCell(base: Tables, rows: Rows, after: Tables, replaced: map<string, Option<Bytes>>, md5: Md5,
                    store: Store, c: Coord)
    requires base.NormalizedTables? && Addressed(base, md5, store) && RowsAddressed(Upserts(rows), store)
    requires ImagesReplaced(base.images, Upserts(rows), replaced)
    requires after.NormalizedTables? && after.mapping == base.mapping + Hashes(Upserts(rows)) - Deletions(rows)
    requires after.images == (map id | id in replaced && id in References(after.mapping) :: replaced[id])
    ensures var expected := Overlay(Completed(base, rows, store), Data(rows));
            (c in View(after) <==> c in expected) && Cell(View(after), c) == Cell(expected, c)
  {
    AppliedImages(base, rows, replaced, md5, store);
    if c in after.mapping && after.mapping[c].Some? {
      assert after.mapping[c].value in References(after.mapping);
    }
    if c in Upserts(rows) {
      assert RowAddressed(Upserts(rows)[c], store);
      assert rows[c].hash.value in Ids(Upserts(rows));
      assert after.mapping[c] == rows[c].hash;
    } else if c in rows {
      assert c in Deletions(rows);
    } else if c in base.mapping {
      assert after.mapping[c] == base.mapping[c];
    }
  }

  lemma AppliedDirectCell(base: Tables, rows: Rows, after: Tables, store: Store, c: Coord)
    requires !base.NormalizedTables? && AppliedTiles(base, rows, after)
    ensures var expected := Overlay(Completed(base, rows, store), Data(rows));
            (c in View(after) <==> c in expected) && Cell(View(after), c) == Cell(expected, c)
  {
    assert Completed(base, rows, store) == View(base);
    assert c in rows ==> (c in Upserts(rows) <==> rows[c].data.Some?) && (c in Deletions(rows) <==> rows[c].data.None?);
  }

  /** The in-place statements, garbage collection included, overlay the rows read from the patch. */
  lemma AppliedView(base: Tables, rows: Rows, after: Tables, md5: Md5, store: Store)
    requires AppliedTiles(base, rows, after)
    requires base.NormalizedTables? ==> Addressed(base, md5, store) && RowsAddressed(Upserts(rows), store)
    ensures View(after) == Overlay(Completed(base, rows, store), Data(rows))
    ensures after.Type() == base.Type()
  {
    var expected := Overlay(Completed(base, rows, store), Data(rows));
    forall c
      ensures (c in View(after) <==> c in expected) && Cell(View(after), c) == Cell(expected, c)
    {
      if base.NormalizedTables? {
        var replaced :| ImagesReplaced(base.images, Upserts(rows), replaced)
          && after.images == (map id | id in replaced && id in References(after.mapping) :: replaced[id]);
        AppliedCell(base, rows, after, replaced, md5, store, c);
      } else {
        AppliedDirectCell(base, rows, after, store, c);
      }
    }
    SameMaps(View(after), expected);
  }
}
