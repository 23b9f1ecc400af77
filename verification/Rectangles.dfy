/** `rectangle.rs`: a growing list of disjoint tile rectangles. */
module Rectangles {
  import opened Sql
  import opened TileCoords

  /** Bounds are inclusive. */
  datatype Bounds = Bounds(zoom: u8, minX: u32, minY: u32, maxX: u32, maxY: u32)

  /** What the constructor asserts. */
  type TileRect = r: Bounds | r.minX <= r.maxX && r.minY <= r.maxY witness Bounds(0, 0, 0, 0, 0)

  datatype Cell = Cell(zoom: int, x: int, y: int)

  predicate Contains(r: TileRect, c: Cell) {
    c.zoom == r.zoom && r.minX <= c.x <= r.maxX && r.minY <= c.y <= r.maxY
  }

  /** The tiles of a rectangle. */
  function Cells(r: TileRect): (cells: set<Cell>)
    ensures forall c :: c in cells <==> Contains(r, c)
  {
    var cells := set x, y | r.minX <= x <= r.maxX && r.minY <= y <= r.maxY :: Cell(r.zoom, x, y);
    assert forall c :: Contains(r, c) ==> c == Cell(r.zoom, c.x, c.y);
    cells
  }

  /** The tiles of a list of rectangles. */
  function Covered(rects: seq<TileRect>): set<Cell> {
    if rects == [] then {} else Covered(rects[..|rects| - 1]) + Cells(rects[|rects| - 1])
  }

  predicate IsOverlapping(a: TileRect, b: TileRect) {
    a.zoom == b.zoom && a.minX <= b.maxX && a.maxX >= b.minX && a.minY <= b.maxY && a.maxY >= b.minY
  }

  /** The overlap test is exact. */
  lemma OverlapMeansSharedCell(a: TileRect, b: TileRect)
    ensures IsOverlapping(a, b) <==> Cells(a) * Cells(b) != {}
  {
    if IsOverlapping(a, b) {
      var c := Cell(a.zoom, if a.minX < b.minX then b.minX else a.minX, if a.minY < b.minY then b.minY else a.minY);
      assert c in Cells(a) * Cells(b);
    }
  }

  predicate PairwiseDisjoint(rects: seq<TileRect>) {
    forall i, j | 0 <= i < j < |rects| :: Cells(rects[i]) !! Cells(rects[j])
  }

  /** How far a rectangle extends; every recursive piece extends less. */
  function Extent(r: TileRect): nat {
    (r.maxX - r.minX) + (r.maxY - r.minY)
  }

  /** The four regions around a rectangle: left, right, and above and below it in its columns. */
  predicate InRegion(self: TileRect, i: int, c: Cell) {
    match i
    case 0 => c.x < self.minX
    case 1 => c.x > self.maxX
    case 2 => self.minX <= c.x <= self.maxX && c.y < self.minY
    case _ => self.minX <= c.x <= self.maxX && c.y > self.maxY
  }

  /** `part` is what lies of `o` in one of the regions around `self`, if anything does. */
  ghost predicate IsPart(self: TileRect, o: TileRect, i: int, part: Option<TileRect>) {
    && (forall c :: part.Some? && Contains(part.value, c) <==> Contains(o, c) && InRegion(self, i, c))
    && (part.Some? ==> Extent(part.value) < Extent(o))
  }

  /** The up to four parts of `o` outside `self`. */
  method GetNonOverlapping(self: TileRect, o: TileRect) returns (result: seq<Option<TileRect>>)
    requires IsOverlapping(self, o)
    ensures |result| == 4 && forall i | 0 <= i < 4 :: IsPart(self, o, i, result[i])
  {
    result := [None, None, None, None];
    if o.minX < self.minX {
      var maxX: u32 := self.minX - 1;
      result := result[0 := Some(Bounds(o.zoom, o.minX, o.minY, maxX, o.maxY))];
    }
    if o.maxX > self.maxX {
      var minX: u32 := self.maxX + 1;
      result := result[1 := Some(Bounds(o.zoom, minX, o.minY, o.maxX, o.maxY))];
    }
    if o.minY < self.minY {
      var minX, maxX := Max(o.minX, self.minX), Min(o.maxX, self.maxX);
      var maxY: u32 := self.minY - 1;
      result := result[2 := Some(Bounds(o.zoom, minX, o.minY, maxX, maxY))];
    }
    if o.maxY > self.maxY {
      var minX, maxX := Max(o.minX, self.minX), Min(o.maxX, self.maxX);
      var minY: u32 := self.maxY + 1;
      result := result[3 := Some(Bounds(o.zoom, minX, minY, maxX, o.maxY))];
    }
  }

  function Max(a: u32, b: u32): u32 {
    if a > b then a else b
  }

  function Min(a: u32, b: u32): u32 {
    if a < b then a else b
  }

  /** The parts tile what `o` has outside `self`: nothing is missed and nothing counted twice. */
  lemma PartsTile(self: TileRect, o: TileRect, parts: seq<Option<TileRect>>)
    requires self.zoom == o.zoom && |parts| == 4 && forall i | 0 <= i < 4 :: IsPart(self, o, i, parts[i])
    ensures forall c :: c in Cells(o) - Cells(self) <==>
              exists i :: 0 <= i < 4 && parts[i].Some? && c in Cells(parts[i].value)
    ensures forall i, j | 0 <= i < j < 4 && parts[i].Some? && parts[j].Some? ::
              Cells(parts[i].value) !! Cells(parts[j].value)
  {
    forall c | c in Cells(o) - Cells(self)
      ensures exists i :: 0 <= i < 4 && parts[i].Some? && c in Cells(parts[i].value)
    {
      var i := if c.x < self.minX then 0 else if c.x > self.maxX then 1 else if c.y < self.minY then 2 else 3;
      assert InRegion(self, i, c) && Contains(o, c);
      assert IsPart(self, o, i, parts[i]);
      assert Contains(parts[i].value, c);
    }
    forall i, c | 0 <= i < 4 && parts[i].Some? && c in Cells(parts[i].value)
      ensures c in Cells(o) && c !in Cells(self) && InRegion(self, i, c)
    {
      assert IsPart(self, o, i, parts[i]);
      assert Contains(parts[i].value, c);
    }
  }

  /** What appending one rectangle must achieve: old entries stay in front, the cells are the old ones
      plus the new ones, and every added entry is disjoint from all the others. */
  ghost predicate Appended(before: seq<TileRect>, cells: set<Cell>, after: seq<TileRect>) {
    && before <= after
    && Covered(after) == Covered(before) + cells
    && forall i, j | 0 <= i < j < |after| && |before| <= j :: Cells(after[i]) !! Cells(after[j])
  }

  lemma {:induction false} CoveredIn(rects: seq<TileRect>, c: Cell)
    ensures c in Covered(rects) <==> exists i :: 0 <= i < |rects| && c in Cells(rects[i])
  {
    if rects == [] {
    } else {
      CoveredIn(rects[..|rects| - 1], c);
    }
  }

  lemma AppendedTwice(before: seq<TileRect>, cells: set<Cell>, middle: seq<TileRect>, more: set<Cell>,
                      after: seq<TileRect>)
    requires Appended(before, cells, middle) && Appended(middle, more, after)
    ensures Appended(before, cells + more, after)
  {
    forall i, j | 0 <= i < j < |after| && |before| <= j
      ensures Cells(after[i]) !! Cells(after[j])
    {
      if j < |middle| {
        assert after[i] == middle[i] && after[j] == middle[j];
      }
    }
  }

  /** Append a rectangle, split where it overlaps what is already there. */
  method AppendRect(rectangles: seq<TileRect>, newRect: TileRect) returns (result: seq<TileRect>)
    ensures Appended(rectangles, Cells(newRect), result)
    ensures PairwiseDisjoint(rectangles) ==> PairwiseDisjoint(result)
    decreases Extent(newRect)
  {
    for k := 0 to |rectangles|
      invariant forall i | 0 <= i < k :: !IsOverlapping(rectangles[i], newRect)
    {
      if IsOverlapping(rectangles[k], newRect) {
        var parts := GetNonOverlapping(rectangles[k], newRect);
        PartsTile(rectangles[k], newRect, parts);
        result := rectangles;
        ghost var added: set<Cell> := {};
        for p := 0 to 4
          invariant Appended(rectangles, added, result)
          invariant forall c :: c in added <==> exists i :: 0 <= i < p && parts[i].Some? && c in Cells(parts[i].value)
        {
          assert IsPart(rectangles[k], newRect, p, parts[p]);
          if parts[p].Some? {
            ghost var previous := result;
            result := AppendRect(result, parts[p].value);
            AppendedTwice(rectangles, added, previous, Cells(parts[p].value), result);
            added := added + Cells(parts[p].value);
          }
        }
        assert added == Cells(newRect) - Cells(rectangles[k]);
        forall c | c in Cells(rectangles[k])
          ensures c in Covered(rectangles)
        {
          CoveredIn(rectangles, c);
        }
        return;
      }
    }
    result := rectangles + [newRect];
    assert result[..|result| - 1] == rectangles;
    forall i | 0 <= i < |rectangles|
      ensures Cells(result[i]) !! Cells(newRect)
    {
      OverlapMeansSharedCell(rectangles[i], newRect);
    }
  }

  /** Append rectangle after rectangle, as the tile copier does for its bounding boxes. */
  method AppendAll(rects: seq<TileRect>) returns (result: seq<TileRect>)
    ensures PairwiseDisjoint(result) && Covered(result) == Covered(rects)
  {
    result := [];
    for k := 0 to |rects|
      invariant PairwiseDisjoint(result) && Covered(result) == Covered(rects[..k])
    {
      result := AppendRect(result, rects[k]);
      assert rects[..k + 1][..k] == rects[..k];
    }
    assert rects[..|rects|] == rects;
  }

  // ---------------------------------------------------------------- counting

  /** The width and the height fit into 32 bits. */
  predicate HasSize(r: TileRect) {
    r.maxX - r.minX < 0xFFFF_FFFF && r.maxY - r.minY < 0xFFFF_FFFF
  }

  /** The number of tiles, computed in 32 and 64 bits. */
  function Size(r: TileRect): u64
    requires HasSize(r)
  {
    var width: u32 := r.maxX - r.minX + 1;
    var height: u32 := r.maxY - r.minY + 1;
    ProductBound(width, height);
    width * height
  }

  lemma ProductBound(a: u32, b: u32)
    ensures 0 <= a * b < 0x1_0000_0000_0000_0000
  {
    MulLe(a, 0xFFFF_FFFF, b);
  }

  lemma {:induction false} ColumnCount(zoom: int, x: int, minY: int, maxY: int)
    requires minY <= maxY + 1
    ensures |set y | minY <= y <= maxY :: Cell(zoom, x, y)| == maxY - minY + 1
    decreases maxY - minY + 1
  {
    var column := set y | minY <= y <= maxY :: Cell(zoom, x, y);
    if minY == maxY + 1 {
      assert column == {};
    } else {
      var shorter := set y | minY <= y <= maxY - 1 :: Cell(zoom, x, y);
      ColumnCount(zoom, x, minY, maxY - 1);
      assert column == shorter + {Cell(zoom, x, maxY)};
    }
  }

  function Area(zoom: int, minX: int, maxX: int, minY: int, maxY: int): set<Cell> {
    set x, y | minX <= x <= maxX && minY <= y <= maxY :: Cell(zoom, x, y)
  }

  lemma AreaContains(zoom: int, minX: int, maxX: int, minY: int, maxY: int, c: Cell)
    ensures c in Area(zoom, minX, maxX, minY, maxY) <==> c.zoom == zoom && minX <= c.x <= maxX && minY <= c.y <= maxY
  {
    if c.zoom == zoom && minX <= c.x <= maxX && minY <= c.y <= maxY {
      assert c == Cell(zoom, c.x, c.y);
    }
  }

  lemma {:induction false} AreaCount(zoom: int, minX: int, maxX: int, minY: int, maxY: int)
    requires minX <= maxX + 1 && minY <= maxY
    ensures |Area(zoom, minX, maxX, minY, maxY)| == (maxX - minX + 1) * (maxY - minY + 1)
    decreases maxX - minX + 1
  {
    if minX == maxX + 1 {
      assert Area(zoom, minX, maxX, minY, maxY) == {};
    } else {
      var narrower, column := Area(zoom, minX, maxX - 1, minY, maxY), Area(zoom, maxX, maxX, minY, maxY);
      AreaCount(zoom, minX, maxX - 1, minY, maxY);
      ColumnCount(zoom, maxX, minY, maxY);
      assert column == set y | minY <= y <= maxY :: Cell(zoom, maxX, y);
      forall c
        ensures c in Area(zoom, minX, maxX, minY, maxY) <==> c in narrower || c in column
      {
        AreaContains(zoom, minX, maxX, minY, maxY, c);
        AreaContains(zoom, minX, maxX - 1, minY, maxY, c);
        AreaContains(zoom, maxX, maxX, minY, maxY, c);
      }
      assert Area(zoom, minX, maxX, minY, maxY) == narrower + column && narrower !! column;
      assert (maxX - minX + 1) * (maxY - minY + 1) == (maxX - minX) * (maxY - minY + 1) + (maxY - minY + 1);
    }
  }

  /** The size is the number of tiles. */
  lemma SizeIsCount(r: TileRect)
    requires HasSize(r)
    ensures Size(r) == |Cells(r)|
  {
    AreaCount(r.zoom, r.minX, r.maxX, r.minY, r.maxY);
    forall c {
      AreaContains(r.zoom, r.minX, r.maxX, r.minY, r.maxY, c);
    }
    assert Cells(r) == Area(r.zoom, r.minX, r.maxX, r.minY, r.maxY);
  }

  /** A rectangle of tiles that exist. */
  predicate OnGrid(r: TileRect) {
    r.zoom <= MAX_ZOOM && r.maxX < Pow2(r.zoom) && r.maxY < Pow2(r.zoom)
  }

  lemma OnGridHasSize(r: TileRect)
    requires OnGrid(r)
    ensures HasSize(r)
  {
    Pow2Bound(r.zoom);
  }

  /** The sum of the sizes, as a mathematical integer. */
  function TotalSize(rects: seq<TileRect>): nat
    requires forall i | 0 <= i < |rects| :: HasSize(rects[i])
  {
    if rects == [] then 0 else
    var last := rects[|rects| - 1];
    TotalSize(rects[..|rects| - 1]) + Size(last)
  }

  /** Disjoint rectangles are counted exactly. */
  lemma {:induction false} TotalIsCount(rects: seq<TileRect>)
    requires PairwiseDisjoint(rects) && forall i | 0 <= i < |rects| :: HasSize(rects[i])
    ensures TotalSize(rects) == |Covered(rects)|
  {
    if rects == [] {
    } else {
      var n := |rects| - 1;
      TotalIsCount(rects[..n]);
      SizeIsCount(rects[n]);
      forall c | c in Covered(rects[..n])
        ensures c !in Cells(rects[n])
      {
        CoveredIn(rects[..n], c);
      }
    }
  }

  function FullZoom(z: nat): TileRect
    requires z <= 30
  {
    Pow2Bound(z);
    Bounds(z, 0, 0, Pow2(z) - 1, Pow2(z) - 1)
  }

  lemma FullZoomCount(z: nat)
    requires z <= 30
    ensures |Cells(FullZoom(z))| == Pow2(z) * Pow2(z)
  {
    Pow2Bound(z);
    SizeIsCount(FullZoom(z));
  }

  /** There are fewer tiles down to a zoom than twice the tiles of that zoom. */
  lemma {:induction false} GridCount(z: nat)
    requires z <= 30
    ensures |Grid(z)| < 2 * (Pow2(z) * Pow2(z))
  {
    FullZoomCount(z);
    if z > 0 {
      GridCount(z - 1);
      DoubleSquare(Pow2(z - 1));
      UnionBound(Cells(FullZoom(z)), Grid(z - 1));
    } else {
      assert Grid(0) == Cells(FullZoom(0));
    }
  }

  lemma DoubleSquare(p: nat)
    ensures (2 * p) * (2 * p) == 4 * (p * p)
  {
  }

  lemma UnionBound<T>(a: set<T>, b: set<T>)
    ensures |a + b| <= |a| + |b|
  {
    assert |a + b| + |a * b| == |a| + |b|;
  }

  /** All tiles down to zoom `z`. */
  function Grid(z: nat): set<Cell>
    requires z <= 30
  {
    Cells(FullZoom(z)) + if z == 0 then {} else Grid(z - 1)
  }

  lemma {:induction false} GridContains(z: nat, r: TileRect)
    requires z <= 30 && OnGrid(r) && r.zoom <= z
    ensures Cells(r) <= Grid(z)
  {
    Pow2Bound(z);
    if r.zoom == z {
    } else {
      GridContains(z - 1, r);
    }
  }

  lemma {:induction false} CoveredOnGrid(rects: seq<TileRect>)
    requires forall i | 0 <= i < |rects| :: OnGrid(rects[i])
    ensures Covered(rects) <= Grid(30)
  {
    if rects == [] {
    } else {
      CoveredOnGrid(rects[..|rects| - 1]);
      GridContains(30, rects[|rects| - 1]);
    }
  }

  lemma SubsetCount<T>(a: set<T>, b: set<T>)
    requires a <= b
    ensures |a| <= |b|
  {
    assert b == a + (b - a);
  }

  /** A rectangle that lies within the covered cells of grid rectangles is itself on the grid. */
  lemma InsideIsOnGrid(rects: seq<TileRect>, r: TileRect)
    requires forall i | 0 <= i < |rects| :: OnGrid(rects[i])
    requires Cells(r) <= Covered(rects)
    ensures OnGrid(r)
  {
    var corner := Cell(r.zoom, r.maxX, r.maxY);
    assert corner in Cells(r);
    CoveredIn(rects, corner);
  }

  lemma EntryIsCovered(rects: seq<TileRect>, i: nat)
    requires i < |rects|
    ensures Cells(rects[i]) <= Covered(rects)
  {
    forall c | c in Cells(rects[i])
      ensures c in Covered(rects)
    {
      CoveredIn(rects, c);
    }
  }

  /** Whatever rectangles of existing tiles are appended, and in whatever order: the sizes of the result
      add up to the number of distinct tiles asked for, and the sum fits in 64 bits. */
  lemma AppendAllCounts(rects: seq<TileRect>, result: seq<TileRect>)
    requires forall i | 0 <= i < |rects| :: OnGrid(rects[i])
    requires PairwiseDisjoint(result) && Covered(result) == Covered(rects)
    ensures forall i | 0 <= i < |result| :: OnGrid(result[i]) && HasSize(result[i])
    ensures TotalSize(result) == |Covered(rects)| < 0x1_0000_0000_0000_0000
  {
    forall i | 0 <= i < |result|
      ensures OnGrid(result[i]) && HasSize(result[i])
    {
      EntryIsCovered(result, i);
      InsideIsOnGrid(rects, result[i]);
      OnGridHasSize(result[i]);
    }
    TotalIsCount(result);
    CoveredOnGrid(rects);
    SubsetCount(Covered(rects), Grid(30));
    GridCount(30);
    Pow2At30();
  }

  /** The tiles asked for do not depend on the order of the rectangles, nor on repetitions. */
  lemma OrderIrrelevant(rects: seq<TileRect>, others: seq<TileRect>, result: seq<TileRect>, otherResult: seq<TileRect>)
    requires forall i | 0 <= i < |rects| :: OnGrid(rects[i])
    requires forall r :: r in rects <==> r in others
    requires PairwiseDisjoint(result) && Covered(result) == Covered(rects)
    requires PairwiseDisjoint(otherResult) && Covered(otherResult) == Covered(others)
    ensures forall i | 0 <= i < |result| :: OnGrid(result[i]) && HasSize(result[i])
    ensures forall i | 0 <= i < |otherResult| :: OnGrid(otherResult[i]) && HasSize(otherResult[i])
    ensures TotalSize(result) == TotalSize(otherResult)
  {
    forall i | 0 <= i < |others|
      ensures OnGrid(others[i])
    {
      assert others[i] in rects;
    }
    forall c
      ensures c in Covered(rects) <==> c in Covered(others)
    {
      SameRectsCover(rects, others, c);
      SameRectsCover(others, rects, c);
    }
    AppendAllCounts(rects, result);
    AppendAllCounts(others, otherResult);
  }

  lemma SameRectsCover(rects: seq<TileRect>, others: seq<TileRect>, c: Cell)
    requires forall r :: r in rects ==> r in others
    ensures c in Covered(rects) ==> c in Covered(others)
  {
    CoveredIn(rects, c);
    CoveredIn(others, c);
    if c in Covered(rects) {
      var i :| 0 <= i < |rects| && c in Cells(rects[i]);
      assert rects[i] in rects;
      var j :| 0 <= j < |others| && others[j] == rects[i];
      assert c in Cells(others[j]);
    }
  }
}
