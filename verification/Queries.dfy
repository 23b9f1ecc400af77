/** The SELECT statements that `copier.rs` and `patcher.rs` build, and the relations that describe
    what the INSERT/DELETE statements around them leave in the tile tables. */
module Queries {
  import opened Sql
  import opened Tilesets
  import opened Layouts
  import opened Statements

  // ---------------------------------------------------------------- copier.rs

  /** The rows of a plain copy; a flat destination does not ask for a hash. */
  function SelectCopy(src: Tables, dstType: MbtType, md5: Md5): Rows {
    if dstType.Flat? then TilesOnly(src) else TilesWithHash(src, md5)
  }

  /** The WHERE clause of a comparison; with bin-diff, changed tiles are left to the bin-diff table. */
  function DiffCondition(srcData: Option<Bytes>, difData: Option<Bytes>, binDiff: bool): Truth {
    var missing := Or(IsNull(srcData), IsNull(difData));
    if binDiff then missing else Or(missing, NotEqual(srcData, difData))
  }

  /** The FULL JOIN of a comparison: the row of `dif`, with the id `''` standing for "no hash". */
  function SelectDiff(src: Tables, dif: Tables, dstType: MbtType, binDiff: bool, md5: Md5): Rows {
    var s, d := View(src), TilesWithHash(dif, md5);
    map c | c in s.Keys + d.Keys && Keeps(DiffCondition(Cell(s, c), Cell(Data(d), c), binDiff)) ::
      Row(Cell(Data(d), c),
          if dstType.Flat? then None else Coalesce(Cell(Hashes(d), c), Some("")))
  }

  /** The FULL JOIN of "apply a patch while copying": patch data first, source data otherwise;
      rows that the patch sets to NULL and rows with a bin-diff are left out. */
  function SelectPatched(src: Tables, dif: Tables, dstType: MbtType, binDiffed: set<Coord>, md5: Md5): Rows {
    var s, d := TilesWithHash(src, md5), TilesWithHash(dif, md5);
    map c | && c in s.Keys + d.Keys
            && Keeps(Or(if c !in d then True else False, NotNull(Cell(Data(d), c))))
            && !(c in s && c in binDiffed) ::
      Row(Coalesce(Cell(Data(d), c), Cell(Data(s), c)),
          if dstType.Flat? then None else Coalesce(Cell(Hashes(d), c), Cell(Hashes(s), c)))
  }

  /** What `copy_tiles` leaves in the destination. With a normalized destination the images come
      first, and never replace an image that is already there. */
  ghost predicate CopiedTiles(before: Tables, rows: Rows, mode: OnDuplicate, after: Tables) {
    match before
    case FlatTables(tiles) => after == FlatTables(Merge(tiles, Data(rows), mode))
    case HashedTables(stored) => after == HashedTables(Merge(stored, rows, mode))
    case NormalizedTables(mapping, images, hashView) =>
      && after.NormalizedTables?
      && after.hashView == hashView
      && after.mapping == Merge(mapping, Hashes(rows), mode)
      && ImagesAdded(images, rows, after.images)
  }

  // ---------------------------------------------------------------- patcher.rs

  /** The map table LEFT JOINed with the images: unresolved references give NULL data. */
  function LeftJoined(mapping: map<Coord, Option<string>>, images: map<string, Option<Bytes>>): Rows {
    map c | c in mapping ::
      Row(if mapping[c].Some? && mapping[c].value in images then images[mapping[c].value] else None, mapping[c])
  }

  /** The rows that the in-place patcher reads from the patch file. */
  function SelectPatch(baseType: MbtType, patch: Tables, md5: Md5): Rows {
    if baseType.Flat? then TilesOnly(patch)
    else match patch
      case NormalizedTables(mapping, images, false) => LeftJoined(mapping, images)
      case _ => TilesWithHash(patch, md5)
  }

  /** The rows the patcher writes, and the coordinates it deletes. */
  function Upserts(rows: Rows): Rows {
    map c | c in rows && Keeps(NotNull(rows[c].data)) :: rows[c]
  }

  function Deletions(rows: Rows): set<Coord> {
    set c | c in rows && Keeps(IsNull(rows[c].data))
  }

  /** What the INSERT, INSERT, DELETE, garbage-collect sequence of the patcher leaves in the base. */
  ghost predicate AppliedTiles(base: Tables, rows: Rows, after: Tables) {
    match base
    case FlatTables(tiles) => after == FlatTables(tiles + Data(Upserts(rows)) - Deletions(rows))
    case HashedTables(stored) => after == HashedTables(stored + Upserts(rows) - Deletions(rows))
    case NormalizedTables(mapping, images, hashView) =>
      && after.NormalizedTables?
      && after.hashView == hashView
      && after.mapping == mapping + Hashes(Upserts(rows)) - Deletions(rows)
      && exists replaced :: ImagesReplaced(images, Upserts(rows), replaced)
           && after.images == (map id | id in replaced && id in References(after.mapping) :: replaced[id])
  }
}
