/** The WHERE clause of a copy: which zooms and bounding boxes let a stored row pass. */
module CopyFilter {
  import opened Sql
  import opened Tilesets
  import opened Layouts
  import opened Queries
  import opened PatchLaws
  import opened TileCoords

  /** A bounding box as tiles of zoom 30, y from the top. */
  datatype Box = Box(minX: u32, minY: u32, maxX: u32, maxY: u32)

  /** Boxes come from a projection that stays on the grid. */
  predicate OnDeepGrid(b: Box) {
    b.minX < Pow2(30) && b.maxX < Pow2(30) && b.minY < Pow2(30) && b.maxY < Pow2(30)
  }

  datatype FilterOptions = FilterOptions(zoomLevels: seq<u8>, minZoom: Option<u8>, maxZoom: Option<u8>, bbox: seq<Box>)

  /** One of the four shapes of the zoom condition. */
  datatype ZoomCondition = AnyZoom | OneOf(zooms: seq<u8>) | Between(lo: u8, hi: u8) | AtLeast(lo: u8) | AtMost(hi: u8)

  /** The clause: the zoom condition and, unless there is no box at all, the disjunction of the boxes,
      whose rows now count from the bottom. */
  datatype WhereClause = WhereClause(zoom: ZoomCondition, boxes: seq<Box>)

  predicate ZoomPasses(condition: ZoomCondition, zoom: int) {
    match condition
    case AnyZoom => true
    case OneOf(zooms) => exists i :: 0 <= i < |zooms| && zooms[i] == zoom
    case Between(lo, hi) => lo <= zoom <= hi
    case AtLeast(lo) => lo <= zoom
    case AtMost(hi) => zoom <= hi
  }

  /** `1 << n` as SQLite computes it in 64 bits: a negative shift goes right. */
  function Shift(n: int): int {
    if n < 0 || n >= 64 then 0 else if n == 63 then 0 - Pow2(63) else Pow2(n)
  }

  /** The comparison that the clause makes for one box, on the row scaled up to zoom 30, whatever the
      columns hold. (A product that leaves 64 bits becomes a real number and compares the same.) */
  predicate BoxPasses(b: Box, c: Coord) {
    && b.minX <= c.x * Shift(30 - c.z) <= b.maxX
    && b.minY <= c.y * Shift(30 - c.z) <= b.maxY
  }

  predicate Passes(clause: WhereClause, c: Coord) {
    && ZoomPasses(clause.zoom, c.z)
    && (clause.boxes == [] || exists i :: 0 <= i < |clause.boxes| && BoxPasses(clause.boxes[i], c))
  }

  /** The same box with rows from the bottom. */
  function Flipped(b: Box): Box
    requires OnDeepGrid(b)
  {
    Box(b.minX, InvertY(MAX_ZOOM, b.maxY), b.maxX, InvertY(MAX_ZOOM, b.minY))
  }

  /** What the options ask for, in terms of the tile: its zoom is wanted, and its south-west corner cell
      at zoom 30 lies in some box. An explicit list of zooms overrides the range. */
  ghost predicate Wanted(options: FilterOptions, c: Coord)
    requires IsPossibleRow(c)
  {
    && ZoomWanted(options, c.z)
    && (options.bbox == [] || exists b :: b in options.bbox && InBox(b, Corner(c)))
  }

  predicate ZoomWanted(options: FilterOptions, zoom: int) {
    if options.zoomLevels != [] then zoom in options.zoomLevels
    else
      && (options.minZoom.Some? ==> options.minZoom.value <= zoom)
      && (options.maxZoom.Some? ==> zoom <= options.maxZoom.value)
  }

  /** A tile of zoom 30 in a box. */
  predicate InBox(b: Box, d: TileCoord) {
    d.z == MAX_ZOOM && b.minX <= d.x <= b.maxX && b.minY <= d.y <= b.maxY
  }

  // ---------------------------------------------------------------- powers of two

  lemma {:induction false} Pow2Add(a: nat, b: nat)
    ensures Pow2(a + b) == Pow2(a) * Pow2(b)
  {
    if a == 0 {
    } else {
      Pow2Add(a - 1, b);
      assert Pow2(a + b) == 2 * Pow2(a - 1 + b);
      Double(Pow2(a - 1), Pow2(b));
    }
  }

  lemma Double(p: int, q: int)
    ensures 2 * (p * q) == (2 * p) * q
  {
  }

  lemma DivMul(q: int, r: int, p: int)
    requires 0 <= r < p
    ensures (q * p + r) / p == q
  {
    var d := q * p + r;
    assert d == (d / p) * p + d % p;
    MultiplesOrder(d / p, q, p);
    MultiplesOrder(q, d / p, p);
  }

  lemma MulLess(a: int, b: int, p: nat)
    requires a < b
    ensures a * p + p <= b * p
  {
    MulLe(a + 1, b, p);
    assert (a + 1) * p == a * p + p;
  }

  lemma MultiplesOrder(a: int, b: int, p: nat)
    requires a * p < b * p + p
    ensures a <= b
  {
    if b < a {
      MulLess(b, a, p);
    }
  }

  /** A tile scaled up to zoom 30 stays on the grid. */
  lemma Scaled(z: nat, v: nat)
    requires z <= 30 && v < Pow2(z)
    ensures (v + 1) * Pow2(30 - z) <= Pow2(30) && (v + 1) * Pow2(30 - z) == v * Pow2(30 - z) + Pow2(30 - z)
    ensures Pow2(30) <= 0x4000_0000 && 0 <= v * Pow2(30 - z)
  {
    var p := Pow2(30 - z);
    Pow2Add(z, 30 - z);
    MulLe(v + 1, Pow2(z), p);
    MulLe(0, v, p);
    assert (v + 1) * p == v * p + p;
    Pow2At30();
  }

  // ---------------------------------------------------------------- what the clause selects

  /** The south-west cell of a stored tile at zoom 30, y from the top. */
  function Corner(c: Coord): TileCoord
    requires IsPossibleRow(c)
  {
    Scaled(c.z, c.x);
    Scaled(c.z, Pow2(c.z) - 1 - c.y);
    TileCoord(MAX_ZOOM, c.x * Pow2(30 - c.z), (Pow2(c.z) - c.y) * Pow2(30 - c.z) - 1)
  }

  /** The flipped comparison is the comparison of the corner cell. */
  lemma FlippedPasses(b: Box, c: Coord)
    requires OnDeepGrid(b) && IsPossibleRow(c)
    ensures BoxPasses(Flipped(b), c) <==> InBox(b, Corner(c))
  {
    Pow2Add(c.z, 30 - c.z);
    MulDifference(Pow2(c.z), c.y, Pow2(30 - c.z));
    Flips(b.minY, b.maxY, c.y * Pow2(30 - c.z), Corner(c).y);
  }

  lemma MulDifference(a: int, b: int, p: int)
    ensures (a - b) * p == a * p - b * p
  {
  }

  lemma Flips(low: u32, high: u32, row: int, y: u32)
    requires low < Pow2(30) && high < Pow2(30) && y == Pow2(30) - 1 - row
    ensures InvertY(MAX_ZOOM, high) <= row <= InvertY(MAX_ZOOM, low) <==> low <= y <= high
  {
  }

  /** The zoom condition of the clause. */
  function ZoomOf(options: FilterOptions): (condition: ZoomCondition)
    ensures forall zoom :: ZoomPasses(condition, zoom) <==> ZoomWanted(options, zoom)
  {
    if options.zoomLevels != [] then OneOf(options.zoomLevels)
    else if options.minZoom.Some? then
      (if options.maxZoom.Some? then Between(options.minZoom.value, options.maxZoom.value)
       else AtLeast(options.minZoom.value))
    else if options.maxZoom.Some? then AtMost(options.maxZoom.value)
    else AnyZoom
  }

  /** An explicit list of zooms overrides the range; a missing bound is no bound. */
  lemma ZoomRule(options: FilterOptions, zoom: int)
    ensures options.zoomLevels != [] ==>
              (ZoomPasses(ZoomOf(options), zoom) <==> exists i :: 0 <= i < |options.zoomLevels|
                                                                  && options.zoomLevels[i] == zoom)
    ensures options.zoomLevels == [] ==>
              (ZoomPasses(ZoomOf(options), zoom) <==>
               !(options.minZoom.Some? && zoom < options.minZoom.value)
               && !(options.maxZoom.Some? && options.maxZoom.value < zoom))
  {
  }

  /** Build the clause. */
  method GetWhereClause(options: FilterOptions) returns (clause: WhereClause)
    requires forall i | 0 <= i < |options.bbox| :: OnDeepGrid(options.bbox[i])
    ensures forall c | IsPossibleRow(c) :: Passes(clause, c) <==> Wanted(options, c)
    ensures forall c :: Passes(clause, c) <==>
              && ZoomWanted(options, c.z)
              && (options.bbox == [] || exists i :: 0 <= i < |options.bbox| && BoxPasses(Flipped(options.bbox[i]), c))
  {
    var boxes: seq<Box> := [];
    for k := 0 to |options.bbox|
      invariant |boxes| == k && forall i | 0 <= i < k :: boxes[i] == Flipped(options.bbox[i])
    {
      boxes := boxes + [Flipped(options.bbox[k])];
    }
    clause := WhereClause(ZoomOf(options), boxes);
    forall c | IsPossibleRow(c)
      ensures Passes(clause, c) <==> Wanted(options, c)
    {
      ClauseIsWanted(options, boxes, c);
    }
  }

  lemma ClauseIsWanted(options: FilterOptions, boxes: seq<Box>, c: Coord)
    requires IsPossibleRow(c) && |boxes| == |options.bbox|
    requires forall i | 0 <= i < |options.bbox| :: OnDeepGrid(options.bbox[i]) && boxes[i] == Flipped(options.bbox[i])
    ensures Passes(WhereClause(ZoomOf(options), boxes), c) <==> Wanted(options, c)
  {
    BoxesPass(options.bbox, boxes, c);
    assert boxes == [] <==> options.bbox == [];
  }

  lemma BoxesPass(bbox: seq<Box>, boxes: seq<Box>, c: Coord)
    requires IsPossibleRow(c) && |boxes| == |bbox|
    requires forall i | 0 <= i < |bbox| :: OnDeepGrid(bbox[i]) && boxes[i] == Flipped(bbox[i])
    ensures (exists i :: 0 <= i < |boxes| && BoxPasses(boxes[i], c)) <==> (exists b :: b in bbox && InBox(b, Corner(c)))
  {
    forall i | 0 <= i < |bbox|
      ensures BoxPasses(boxes[i], c) <==> InBox(bbox[i], Corner(c))
    {
      FlippedPasses(bbox[i], c);
    }
    if b :| b in bbox && InBox(b, Corner(c)) {
      var i :| 0 <= i < |bbox| && bbox[i] == b;
      assert BoxPasses(boxes[i], c);
    }
  }

  // ---------------------------------------------------------------- what it means for whole tiles

  /** `d` is one of the zoom-30 cells of the stored tile, both with rows from the bottom. */
  predicate IsPartOf(d: Coord, c: Coord)
    requires IsPossibleRow(c)
  {
    d.z == 30 && d.x / Pow2(30 - c.z) == c.x && d.y / Pow2(30 - c.z) == c.y
  }

  /** The tile and the box (with rows from the bottom) share a cell. */
  ghost predicate Meets(c: Coord, b: Box)
    requires IsPossibleRow(c)
  {
    exists d :: IsPartOf(d, c) && b.minX <= d.x <= b.maxX && b.minY <= d.y <= b.maxY
  }

  /** The tile does not begin left of the box or below it. */
  predicate BeginsInside(c: Coord, b: Box)
    requires IsPossibleRow(c)
  {
    b.minX <= c.x * Pow2(30 - c.z) && b.minY <= c.y * Pow2(30 - c.z)
  }

  /** The corner cell is part of the tile, and no part of the tile is left of it or below it. */
  lemma CornerIsSouthWest(c: Coord)
    requires IsPossibleRow(c)
    ensures IsPossibleOnZoomLevel(Corner(c).z, Corner(c).x, Corner(c).y)
    ensures IsPartOf(ToRow(Corner(c)), c)
    ensures forall d | IsPartOf(d, c) :: ToRow(Corner(c)).x <= d.x && ToRow(Corner(c)).y <= d.y
  {
    var p := Pow2(30 - c.z);
    Scaled(c.z, c.x);
    Scaled(c.z, Pow2(c.z) - 1 - c.y);
    Pow2Add(c.z, 30 - c.z);
    MulDifference(Pow2(c.z), c.y, p);
    MulLe(0, c.y, p);
    assert ToRow(Corner(c)) == Coord(30, c.x * p, c.y * p);
    LeastPart(c);
  }

  lemma LeastPart(c: Coord)
    requires IsPossibleRow(c)
    ensures var p := Pow2(30 - c.z);
            && IsPartOf(Coord(30, c.x * p, c.y * p), c)
            && forall d | IsPartOf(d, c) :: c.x * p <= d.x && c.y * p <= d.y
  {
    var p := Pow2(30 - c.z);
    DivMul(c.x, 0, p);
    DivMul(c.y, 0, p);
    forall d | IsPartOf(d, c)
      ensures c.x * p <= d.x && c.y * p <= d.y
    {
      BeginsBefore(c.x, d.x, p);
      BeginsBefore(c.y, d.y, p);
    }
  }

  lemma BeginsBefore(v: int, d: int, p: int)
    requires p > 0 && d / p == v
    ensures v * p <= d < v * p + p
  {
    assert d == (d / p) * p + d % p;
  }

  /** No false positives, and exactly which tiles are missed: a tile that shares a cell with the box is
      left out if and only if it begins left of the box or below it. */
  lemma PassesIffBeginsInside(c: Coord, b: Box)
    requires IsPossibleRow(c)
    ensures BoxPasses(b, c) <==> Meets(c, b) && BeginsInside(c, b)
  {
    var p := Pow2(30 - c.z);
    if BoxPasses(b, c) {
      var d := Coord(30, c.x * p, c.y * p);
      DivMul(c.x, 0, p);
      DivMul(c.y, 0, p);
      assert IsPartOf(d, c);
    }
    if Meets(c, b) && BeginsInside(c, b) {
      var d :| IsPartOf(d, c) && b.minX <= d.x <= b.maxX && b.minY <= d.y <= b.maxY;
      BeginsBefore(c.x, d.x, p);
      BeginsBefore(c.y, d.y, p);
    }
  }

  /** The same for the whole clause: a tile of a wanted zoom passes if and only if it meets some box that it
      does not begin before. It is missed by all the boxes together exactly when it begins left of or
      below every box that it meets. */
  lemma PassesIffSomeBoxBefore(clause: WhereClause, c: Coord)
    requires IsPossibleRow(c) && clause.boxes != []
    ensures Passes(clause, c) <==>
              ZoomPasses(clause.zoom, c.z)
              && exists i :: 0 <= i < |clause.boxes| && Meets(c, clause.boxes[i]) && BeginsInside(c, clause.boxes[i])
    ensures ZoomPasses(clause.zoom, c.z) ==>
              (!Passes(clause, c) <==>
                 forall i | 0 <= i < |clause.boxes| :: Meets(c, clause.boxes[i]) ==> !BeginsInside(c, clause.boxes[i]))
  {
    forall i | 0 <= i < |clause.boxes|
      ensures BoxPasses(clause.boxes[i], c) <==> Meets(c, clause.boxes[i]) && BeginsInside(c, clause.boxes[i])
    {
      PassesIffBeginsInside(c, clause.boxes[i]);
    }
  }

  /** A box whose left and lower edges lie on tile edges of the zoom is filtered exactly; at zoom 30
      every box is such a box. */
  lemma AlignedIsExact(c: Coord, b: Box, left: int, bottom: int)
    requires IsPossibleRow(c)
    requires b.minX == left * Pow2(30 - c.z) && b.minY == bottom * Pow2(30 - c.z)
    ensures BoxPasses(b, c) <==> Meets(c, b)
  {
    var p := Pow2(30 - c.z);
    PassesIffBeginsInside(c, b);
    if Meets(c, b) {
      var d :| IsPartOf(d, c) && b.minX <= d.x <= b.maxX && b.minY <= d.y <= b.maxY;
      AlignedBegin(c.x, d.x, left, p);
      AlignedBegin(c.y, d.y, bottom, p);
    }
  }

  lemma AlignedBegin(v: int, d: int, edge: int, p: int)
    requires p > 0 && d / p == v && edge * p <= d
    ensures edge * p <= v * p
  {
    BeginsBefore(v, d, p);
    MultiplesOrder(edge, v, p);
    MulLe(edge, v, p);
  }

  lemma DeepestZoomIsExact(c: Coord, b: Box)
    requires IsPossibleRow(c) && c.z == 30
    ensures BoxPasses(b, c) <==> Meets(c, b)
    ensures BoxPasses(b, c) <==> b.minX <= c.x <= b.maxX && b.minY <= c.y <= b.maxY
  {
    assert Pow2(0) == 1;
    AlignedIsExact(c, b, b.minX, b.minY);
  }

  /** The world tile is missed by any box that does not reach the left and lower edges. */
  lemma WorldTileIsMissed(b: Box)
    requires OnDeepGrid(b) && b.minX <= b.maxX && b.minY <= b.maxY
    ensures IsPossibleRow(Coord(0, 0, 0)) && Meets(Coord(0, 0, 0), b)
    ensures BoxPasses(b, Coord(0, 0, 0)) <==> b.minX == 0 && b.minY == 0
  {
    var c, d := Coord(0, 0, 0), Coord(30, b.minX, b.minY);
    DivMul(0, d.x, Pow2(30));
    DivMul(0, d.y, Pow2(30));
    assert IsPartOf(d, c);
    PassesIffBeginsInside(c, b);
  }

  // ---------------------------------------------------------------- filtered copies

  function FilteredRows(rows: Rows, clause: WhereClause): Rows {
    map c | c in rows && Passes(clause, c) :: rows[c]
  }

  /** A filtered copy into a new file of any layout has exactly the tiles that pass. */
  lemma FilteredCopy(src: Tables, kind: MbtType, clause: WhereClause, after: Tables, md5: Md5, store: Store)
    requires CopiedTiles(Empty(kind), FilteredRows(SelectCopy(src, kind, md5), clause), Override, after)
    requires kind.Normalized? ==> Addressed(src, md5, store)
    ensures DropNull(View(after)) == map c | c in DropNull(View(src)) && Passes(clause, c) :: View(src)[c]
  {
    var rows := SelectCopy(src, kind, md5);
    TilesWithHashData(src, md5);
    FreshCopyView(kind, FilteredRows(rows, clause), after, store);
    var expected := map c | c in DropNull(View(src)) && Passes(clause, c) :: View(src)[c];
    forall c {
      FilteredCell(rows, View(src), clause, c);
    }
    SameMaps(DropNull(Data(FilteredRows(rows, clause))), expected);
  }

  lemma FilteredCell(rows: Rows, view: Tileset, clause: WhereClause, c: Coord)
    requires Data(rows) == view
    ensures c in DropNull(Data(FilteredRows(rows, clause))) <==> c in DropNull(view) && Passes(clause, c)
    ensures c in DropNull(Data(FilteredRows(rows, clause))) ==>
              DropNull(Data(FilteredRows(rows, clause)))[c] == view[c]
  {
    assert c in rows <==> c in view;
    assert c in rows ==> rows[c].data == view[c];
  }
}
