/** `generate.rs`: how many tiles a sparse pyramid has, and how many it spared. */
module TileCount {
  import opened Sql
  import opened TileCoords
  import opened Rectangles

  /** A directory of tiles: the column its name stands for, and the row each of its file names stands for.
      A name that is no number, or has another extension, stands for nothing. */
  datatype Column = Column(x: Option<u32>, files: seq<Option<u32>>)

  /** A zoom directory. The directories come sorted by zoom. */
  datatype Level = Level(zoom: u8, columns: seq<Column>)

  datatype Name = Name(x: u32, y: u32)

  datatype ZoomTally = ZoomTally(zoom: u8, tiles: nat)

  /** The tiles named in one column directory. */
  function NamedIn(x: u32, files: seq<Option<u32>>): seq<Name> {
    if files == [] then [] else
    var last := files[|files| - 1];
    NamedIn(x, files[..|files| - 1]) + if last.None? then [] else [Name(x, last.value)]
  }

  /** The tiles named in a zoom directory. */
  function Named(columns: seq<Column>): seq<Name> {
    if columns == [] then [] else
    var last := columns[|columns| - 1];
    Named(columns[..|columns| - 1]) + if last.x.None? then [] else NamedIn(last.x.value, last.files)
  }

  function CellsOf(zoom: u8, names: seq<Name>): set<Cell> {
    set n | n in names :: Cell(zoom, n.x, n.y)
  }

  // ---------------------------------------------------------------- the bounding box

  /** The running extremes after reading the names, starting from the empty box. */
  function Box(zoom: u8, names: seq<Name>): Bounds {
    if names == [] then Bounds(zoom, 0xFFFF_FFFF, 0xFFFF_FFFF, 0, 0)
    else Extended(Box(zoom, names[..|names| - 1]), names[|names| - 1])
  }

  function Extended(b: Bounds, n: Name): Bounds {
    Bounds(b.zoom, Min(b.minX, n.x), Min(b.minY, n.y), Max(b.maxX, n.x), Max(b.maxY, n.y))
  }

  /** The extremes are reached by some name and passed by none. */
  ghost predicate IsTight(b: Bounds, names: seq<Name>) {
    && (forall n | n in names :: b.minX <= n.x <= b.maxX && b.minY <= n.y <= b.maxY)
    && HasColumn(names, b.minX) && HasColumn(names, b.maxX)
    && HasRow(names, b.minY) && HasRow(names, b.maxY)
  }

  ghost predicate HasColumn(names: seq<Name>, x: u32) {
    exists n :: n in names && n.x == x
  }

  ghost predicate HasRow(names: seq<Name>, y: u32) {
    exists n :: n in names && n.y == y
  }

  lemma OneMoreName(before: seq<Name>, last: Name, x: u32, y: u32)
    ensures HasColumn(before + [last], last.x) && HasRow(before + [last], last.y)
    ensures HasColumn(before, x) ==> HasColumn(before + [last], x)
    ensures HasRow(before, y) ==> HasRow(before + [last], y)
  {
    var names := before + [last];
    assert last in names;
    if n :| n in before && n.x == x {
      assert n in names;
    }
    if n :| n in before && n.y == y {
      assert n in names;
    }
  }

  /** Extending the box keeps it tight. */
  lemma ExtendedIsTight(b: Bounds, before: seq<Name>, last: Name)
    requires IsTight(b, before)
    ensures IsTight(Extended(b, last), before + [last])
  {
    OneMoreName(before, last, b.minX, b.minY);
    OneMoreName(before, last, b.maxX, b.maxY);
  }

  lemma BoxMore(zoom: u8, before: seq<Name>, last: Name)
    ensures Box(zoom, before + [last]) == Extended(Box(zoom, before), last)
  {
    assert (before + [last])[..|before|] == before;
  }

  lemma SingleIsTight(zoom: u8, n: Name)
    ensures IsTight(Extended(Box(zoom, []), n), [n])
  {
    assert [] + [n] == [n];
    OneMoreName([], n, n.x, n.y);
  }

  lemma {:induction false} BoxIsTight(zoom: u8, names: seq<Name>)
    requires names != []
    ensures IsTight(Box(zoom, names), names) && Box(zoom, names).zoom == zoom
  {
    var before, last := names[..|names| - 1], names[|names| - 1];
    assert names == before + [last];
    BoxMore(zoom, before, last);
    BoxZoom(zoom, names);
    if before == [] {
      assert names == [last];
      SingleIsTight(zoom, last);
    } else {
      BoxIsTight(zoom, before);
      ExtendedIsTight(Box(zoom, before), before, last);
    }
  }

  /** The box of a non-empty level. */
  function BoundingBox(zoom: u8, names: seq<Name>): TileRect
    requires names != []
  {
    BoxIsTight(zoom, names);
    Box(zoom, names)
  }

  /** The box is the least rectangle around the tiles. */
  lemma BoundingBoxIsLeast(zoom: u8, names: seq<Name>, r: TileRect)
    requires names != [] && r.zoom == zoom
    ensures CellsOf(zoom, names) <= Cells(r) <==> Cells(BoundingBox(zoom, names)) <= Cells(r)
  {
    var b := BoundingBox(zoom, names);
    BoxIsTight(zoom, names);
    if CellsOf(zoom, names) <= Cells(r) {
      forall n | n in names
        ensures r.minX <= n.x <= r.maxX && r.minY <= n.y <= r.maxY
      {
        assert Cell(zoom, n.x, n.y) in CellsOf(zoom, names);
      }
    }
  }

  // ---------------------------------------------------------------- counting

  /** The size of the box, with the wrap-around of 32-bit and 64-bit arithmetic. */
  function Dense(b: TileRect): u64 {
    var width: u32 := (b.maxX - b.minX + 1) % 0x1_0000_0000;
    var height: u32 := (b.maxY - b.minY + 1) % 0x1_0000_0000;
    ProductBound(width, height);
    width * height
  }

  /** The tally of a zoom, if it has a tile. */
  function TallyOf(l: Level): seq<ZoomTally> {
    if Named(l.columns) == [] then [] else [ZoomTally(l.zoom, |Named(l.columns)|)]
  }

  function Tallies(levels: seq<Level>): seq<ZoomTally> {
    if levels == [] then [] else Tallies(levels[..|levels| - 1]) + TallyOf(levels[|levels| - 1])
  }

  /** The bounding box of a zoom, if it has a tile. */
  function BoxOf(l: Level): seq<TileRect> {
    if Named(l.columns) == [] then [] else [BoundingBox(l.zoom, Named(l.columns))]
  }

  function Boxes(levels: seq<Level>): seq<TileRect> {
    if levels == [] then [] else Boxes(levels[..|levels| - 1]) + BoxOf(levels[|levels| - 1])
  }

  /** The sum of the sizes of some boxes. */
  function DenseTotal(boxes: seq<TileRect>): u64 {
    if boxes == [] then 0 else Plus(DenseTotal(boxes[..|boxes| - 1]), Dense(boxes[|boxes| - 1]))
  }

  /** 64-bit addition. */
  function Plus(a: u64, b: u64): u64 {
    (a + b) % 0x1_0000_0000_0000_0000
  }

  /** Count one column directory. */
  method CountColumn(x: u32, files: seq<Option<u32>>, count: nat, box: Bounds, ghost names: seq<Name>)
    returns (newCount: nat, newBox: Bounds)
    requires count == |names| && box == Box(box.zoom, names)
    ensures newCount == |names + NamedIn(x, files)| && newBox == Box(box.zoom, names + NamedIn(x, files))
  {
    newCount, newBox := count, box;
    ghost var all := names;
    for k := 0 to |files|
      invariant all == names + NamedIn(x, files[..k])
      invariant newCount == |all| && newBox == Box(box.zoom, all)
    {
      assert files[..k + 1][..k] == files[..k];
      if files[k].Some? {
        newCount := newCount + 1;
        newBox := Extended(newBox, Name(x, files[k].value));
        ghost var more := all + [Name(x, files[k].value)];
        assert more[..|more| - 1] == all;
        assert more == names + NamedIn(x, files[..k + 1]);
        all := more;
      }
    }
    assert files[..|files|] == files;
  }

  /** Count one zoom directory. */
  method CountLevel(level: Level) returns (count: nat, box: Bounds)
    ensures count == |Named(level.columns)| && box == Box(level.zoom, Named(level.columns))
  {
    count := 0;
    box := Bounds(level.zoom, 0xFFFF_FFFF, 0xFFFF_FFFF, 0, 0);
    for k := 0 to |level.columns|
      invariant box.zoom == level.zoom
      invariant count == |Named(level.columns[..k])| && box == Box(level.zoom, Named(level.columns[..k]))
    {
      assert level.columns[..k + 1][..k] == level.columns[..k];
      ghost var names := Named(level.columns[..k]);
      if level.columns[k].x.Some? {
        count, box := CountColumn(level.columns[k].x.value, level.columns[k].files, count, box, names);
        BoxZoom(level.zoom, names + NamedIn(level.columns[k].x.value, level.columns[k].files));
      } else {
        assert names + [] == names;
      }
    }
    assert level.columns[..|level.columns|] == level.columns;
  }

  lemma BoxZoom(zoom: u8, names: seq<Name>)
    ensures Box(zoom, names).zoom == zoom
  {
  }

  /** The tallies per zoom, and the number of tiles a pyramid without gaps would have. */
  method CountTiles(levels: seq<Level>) returns (tallies: seq<ZoomTally>, denseTotal: u64)
    ensures tallies == Tallies(levels) && denseTotal == DenseTotal(Boxes(levels))
  {
    tallies, denseTotal := [], 0;
    for k := 0 to |levels|
      invariant tallies == Tallies(levels[..k]) && denseTotal == DenseTotal(Boxes(levels[..k]))
    {
      NextLevel(levels, k);
      var count, box := CountLevel(levels[k]);
      if count > 0 {
        BoxIsTight(levels[k].zoom, Named(levels[k].columns));
        assert BoxOf(levels[k])[0] == box;
        denseTotal := Plus(denseTotal, Dense(box));
        tallies := tallies + [ZoomTally(levels[k].zoom, count)];
      } else {
        assert tallies + [] == tallies;
      }
    }
    assert levels[..|levels|] == levels;
  }

  lemma NextLevel(levels: seq<Level>, k: nat)
    requires k < |levels|
    ensures Tallies(levels[..k + 1]) == Tallies(levels[..k]) + TallyOf(levels[k])
    ensures DenseTotal(Boxes(levels[..k + 1]))
         == if BoxOf(levels[k]) == [] then DenseTotal(Boxes(levels[..k]))
            else Plus(DenseTotal(Boxes(levels[..k])), Dense(BoxOf(levels[k])[0]))
  {
    assert levels[..k + 1] == levels[..k] + [levels[k]];
    TalliesMore(levels[..k], levels[k]);
    BoxesMore(levels[..k], levels[k]);
  }

  lemma DenseMore(boxes: seq<TileRect>, box: TileRect)
    ensures DenseTotal(boxes + [box]) == Plus(DenseTotal(boxes), Dense(box))
  {
    assert (boxes + [box])[..|boxes|] == boxes;
  }

  // ---------------------------------------------------------------- what the counts mean

  function TilesTotal(tallies: seq<ZoomTally>): nat {
    if tallies == [] then 0 else TilesTotal(tallies[..|tallies| - 1]) + tallies[|tallies| - 1].tiles
  }

  /** What the report says was skipped. */
  function Skipped(denseTotal: nat, tiles: nat): nat {
    if denseTotal < tiles then 0 else denseTotal - tiles
  }

  /** The names of a level do not span all of 32 bits. */
  predicate WellNamed(level: Level) {
    Named(level.columns) != [] ==> HasSize(BoundingBox(level.zoom, Named(level.columns)))
  }

  /** One directory for each zoom, and boxes whose sizes can be computed. */
  predicate Apart(levels: seq<Level>) {
    && (forall i | 0 <= i < |levels| :: WellNamed(levels[i]))
    && (forall i, j | 0 <= i < j < |levels| :: levels[i].zoom != levels[j].zoom)
  }

  /** ... and added up in 64 bits. */
  predicate WellFormed(levels: seq<Level>) {
    Apart(levels) && |Covered(Boxes(levels))| < 0x1_0000_0000_0000_0000
  }

  /** Every name stands for a tile that exists. */
  predicate NamedOnGrid(level: Level) {
    forall i | 0 <= i < |Named(level.columns)| ::
      IsPossibleOnZoomLevel(level.zoom, Named(level.columns)[i].x, Named(level.columns)[i].y)
  }

  /** No two names stand for one tile. */
  predicate Distinct(names: seq<Name>) {
    forall i, j | 0 <= i < j < |names| :: names[i] != names[j]
  }

  predicate AllDistinct(levels: seq<Level>) {
    forall i | 0 <= i < |levels| :: Distinct(Named(levels[i].columns))
  }

  /** All the tiles there are. */
  function AllCells(levels: seq<Level>): set<Cell> {
    if levels == [] then {} else
    var last := levels[|levels| - 1];
    AllCells(levels[..|levels| - 1]) + CellsOf(last.zoom, Named(last.columns))
  }

  /** Names count at least as often as there are tiles, and exactly as often only if they are distinct. */
  lemma {:induction false} NamesCount(zoom: u8, names: seq<Name>)
    ensures |CellsOf(zoom, names)| <= |names|
    ensures |CellsOf(zoom, names)| == |names| <==> Distinct(names)
  {
    if names == [] {
    } else {
      var before, last := names[..|names| - 1], names[|names| - 1];
      NamesCount(zoom, before);
      assert names == before + [last];
      var cell := Cell(zoom, last.x, last.y);
      assert CellsOf(zoom, names) == CellsOf(zoom, before) + {cell};
      if cell in CellsOf(zoom, before) {
        var n :| n in before && cell == Cell(zoom, n.x, n.y);
        var i :| 0 <= i < |before| && before[i] == n;
        assert names[i] == names[|before|];
      } else {
        LastIsNew(zoom, before, last);
      }
    }
  }

  lemma LastIsNew(zoom: u8, before: seq<Name>, last: Name)
    requires Cell(zoom, last.x, last.y) !in CellsOf(zoom, before)
    ensures Distinct(before + [last]) <==> Distinct(before)
  {
    var names := before + [last];
    forall i | 0 <= i < |before|
      ensures names[i] == before[i] && before[i] != last
    {
      assert before[i] in before;
      assert Cell(zoom, before[i].x, before[i].y) in CellsOf(zoom, before);
    }
    if Distinct(names) {
      assert forall i, j | 0 <= i < j < |before| :: names[i] != names[j];
    }
  }

  lemma BoxOnGrid(level: Level)
    requires NamedOnGrid(level) && Named(level.columns) != []
    ensures OnGrid(BoundingBox(level.zoom, Named(level.columns)))
  {
    var names := Named(level.columns);
    BoxIsTight(level.zoom, names);
    var b := BoundingBox(level.zoom, names);
    var n1 :| n1 in names && n1.x == b.maxX;
    var n2 :| n2 in names && n2.y == b.maxY;
    var i :| 0 <= i < |names| && names[i] == n1;
    var j :| 0 <= j < |names| && names[j] == n2;
    Pow2Bound(level.zoom);
  }

  lemma BoxHoldsTiles(level: Level)
    requires Named(level.columns) != []
    ensures CellsOf(level.zoom, Named(level.columns)) <= Cells(BoundingBox(level.zoom, Named(level.columns)))
  {
    BoxIsTight(level.zoom, Named(level.columns));
  }

  /** Pyramids of existing tiles are well formed if they have one directory for each zoom. */
  lemma GridIsWellFormed(levels: seq<Level>)
    requires forall i | 0 <= i < |levels| :: NamedOnGrid(levels[i])
    requires forall i, j | 0 <= i < j < |levels| :: levels[i].zoom != levels[j].zoom
    ensures WellFormed(levels)
  {
    forall i | 0 <= i < |levels|
      ensures WellNamed(levels[i])
    {
      if Named(levels[i].columns) != [] {
        BoxOnGrid(levels[i]);
        OnGridHasSize(BoundingBox(levels[i].zoom, Named(levels[i].columns)));
      }
    }
    BoxesSoFar(levels);
    BoxesOnGrid(levels);
    AppendAllCounts(Boxes(levels), Boxes(levels));
  }

  lemma {:induction false} BoxesOnGrid(levels: seq<Level>)
    requires forall i | 0 <= i < |levels| :: NamedOnGrid(levels[i])
    ensures forall i | 0 <= i < |Boxes(levels)| :: OnGrid(Boxes(levels)[i])
  {
    if levels == [] {
    } else {
      BoxesOnGrid(levels[..|levels| - 1]);
      if BoxOf(levels[|levels| - 1]) != [] {
        BoxOnGrid(levels[|levels| - 1]);
      }
    }
  }

  lemma TalliesMore(before: seq<Level>, last: Level)
    ensures Tallies(before + [last]) == Tallies(before) + TallyOf(last)
    ensures TilesTotal(Tallies(before + [last])) == TilesTotal(Tallies(before)) + |Named(last.columns)|
  {
    assert (before + [last])[..|before|] == before;
    if TallyOf(last) == [] {
      assert Tallies(before) + [] == Tallies(before);
    } else {
      TotalMore(Tallies(before), TallyOf(last)[0]);
    }
  }

  lemma BoxesMore(before: seq<Level>, last: Level)
    ensures Boxes(before + [last]) == Boxes(before) + BoxOf(last)
    ensures Covered(Boxes(before + [last])) == Covered(Boxes(before)) + Covered(BoxOf(last))
    ensures DenseTotal(Boxes(before + [last]))
         == if BoxOf(last) == [] then DenseTotal(Boxes(before))
            else Plus(DenseTotal(Boxes(before)), Dense(BoxOf(last)[0]))
  {
    assert (before + [last])[..|before|] == before;
    var boxes := Boxes(before);
    if BoxOf(last) == [] {
      assert boxes + [] == boxes;
    } else {
      var box := BoxOf(last)[0];
      assert BoxOf(last) == [box];
      CoveredMore(boxes, box);
      CoveredMore([], box);
      assert [] + [box] == [box];
      DenseMore(boxes, box);
    }
  }

  lemma AllCellsMore(before: seq<Level>, last: Level)
    ensures AllCells(before + [last]) == AllCells(before) + CellsOf(last.zoom, Named(last.columns))
  {
    assert (before + [last])[..|before|] == before;
  }

  lemma CoveredMore(boxes: seq<TileRect>, box: TileRect)
    ensures Covered(boxes + [box]) == Covered(boxes) + Cells(box)
  {
    assert (boxes + [box])[..|boxes|] == boxes;
  }

  lemma TotalMore(tallies: seq<ZoomTally>, tally: ZoomTally)
    ensures TilesTotal(tallies + [tally]) == TilesTotal(tallies) + tally.tiles
  {
    assert (tallies + [tally])[..|tallies|] == tallies;
  }

  /** Every box is one of an existing zoom. */
  ghost predicate BoxesFit(levels: seq<Level>, boxes: seq<TileRect>) {
    forall i | 0 <= i < |boxes| :: HasSize(boxes[i]) && HasZoom(levels, boxes[i].zoom)
  }

  ghost predicate HasZoom(levels: seq<Level>, zoom: u8) {
    exists l :: l in levels && l.zoom == zoom
  }

  lemma BoxesFitStill(levels: seq<Level>, l: Level, boxes: seq<TileRect>)
    requires BoxesFit(levels, boxes)
    ensures BoxesFit(levels + [l], boxes)
  {
    forall i | 0 <= i < |boxes|
      ensures HasZoom(levels + [l], boxes[i].zoom)
    {
      assert HasZoom(levels, boxes[i].zoom);
      var k :| k in levels && k.zoom == boxes[i].zoom;
      assert k in levels + [l];
    }
  }

  lemma BoxesFitMore(levels: seq<Level>, l: Level, boxes: seq<TileRect>, box: TileRect)
    requires BoxesFit(levels, boxes) && PairwiseDisjoint(boxes)
    requires HasSize(box) && box.zoom == l.zoom && forall k | k in levels :: k.zoom != l.zoom
    ensures BoxesFit(levels + [l], boxes + [box]) && PairwiseDisjoint(boxes + [box])
    ensures Covered(boxes) !! Cells(box)
  {
    assert l in levels + [l];
    forall i | 0 <= i < |boxes|
      ensures boxes[i].zoom != box.zoom && HasZoom(levels + [l], boxes[i].zoom)
    {
      assert HasZoom(levels, boxes[i].zoom);
      var k :| k in levels && k.zoom == boxes[i].zoom;
      assert k in levels + [l];
    }
    forall c | c in Covered(boxes)
      ensures c !in Cells(box)
    {
      CoveredIn(boxes, c);
    }
  }

  /** The boxes of the levels are disjoint, lie on the grid and hold all tiles. */
  lemma {:induction false} BoxesSoFar(levels: seq<Level>)
    requires Apart(levels)
    ensures BoxesFit(levels, Boxes(levels)) && PairwiseDisjoint(Boxes(levels))
    ensures AllCells(levels) <= Covered(Boxes(levels))
  {
    if levels == [] {
    } else {
      var before, last := levels[..|levels| - 1], levels[|levels| - 1];
      assert levels == before + [last];
      BoxesSoFar(before);
      BoxesMore(before, last);
      AllCellsMore(before, last);
      ZoomsApart(before, last);
      var names := Named(last.columns);
      if names == [] {
        assert CellsOf(last.zoom, names) == {};
        BoxesFitStill(before, last, Boxes(before));
      } else {
        BoxHoldsTiles(last);
        BoxIsTight(last.zoom, names);
        BoxesFitMore(before, last, Boxes(before), BoundingBox(last.zoom, names));
      }
    }
  }

  /** The tallies against the number of tiles. */
  lemma {:induction false} TilesSoFar(levels: seq<Level>)
    requires Apart(levels)
    ensures TilesTotal(Tallies(levels)) >= |AllCells(levels)|
    ensures TilesTotal(Tallies(levels)) == |AllCells(levels)| <==> AllDistinct(levels)
  {
    if levels == [] {
    } else {
      var before, last := levels[..|levels| - 1], levels[|levels| - 1];
      assert levels == before + [last];
      TilesSoFar(before);
      TalliesMore(before, last);
      AllCellsMore(before, last);
      NamesCount(last.zoom, Named(last.columns));
      LastLevelApart(before, last);
      AllDistinctMore(before, last);
    }
  }

  lemma AllDistinctMore(before: seq<Level>, last: Level)
    ensures AllDistinct(before + [last]) <==> AllDistinct(before) && Distinct(Named(last.columns))
  {
    var levels := before + [last];
    assert forall i | 0 <= i < |before| :: levels[i] == before[i];
    assert levels[|before|] == last;
  }

  lemma LastLevelApart(before: seq<Level>, last: Level)
    requires Apart(before + [last])
    ensures AllCells(before) !! CellsOf(last.zoom, Named(last.columns))
  {
    ZoomsApart(before, last);
    forall c | c in AllCells(before)
      ensures c !in CellsOf(last.zoom, Named(last.columns))
    {
      CellsFrom(before, c);
    }
  }

  lemma ZoomsApart(before: seq<Level>, last: Level)
    requires Apart(before + [last])
    ensures forall l | l in before :: l.zoom != last.zoom
  {
    forall l | l in before
      ensures l.zoom != last.zoom
    {
      var i :| 0 <= i < |before| && before[i] == l;
      assert (before + [last])[i] == l && (before + [last])[|before|] == last;
    }
  }

  lemma DenseIsSize(b: TileRect)
    requires HasSize(b)
    ensures Dense(b) == Size(b)
  {
    assert (b.maxX - b.minX + 1) % 0x1_0000_0000 == b.maxX - b.minX + 1;
    assert (b.maxY - b.minY + 1) % 0x1_0000_0000 == b.maxY - b.minY + 1;
  }

  lemma SmallRemainder(a: nat)
    requires a < 0x1_0000_0000_0000_0000
    ensures a % 0x1_0000_0000_0000_0000 == a
  {
  }

  /** Nothing wraps around when the total is the true one. */
  lemma {:induction false} NoWrapAround(boxes: seq<TileRect>)
    requires forall i | 0 <= i < |boxes| :: HasSize(boxes[i])
    requires TotalSize(boxes) < 0x1_0000_0000_0000_0000
    ensures DenseTotal(boxes) == TotalSize(boxes)
  {
    if boxes == [] {
    } else {
      var before, last := boxes[..|boxes| - 1], boxes[|boxes| - 1];
      DenseIsSize(last);
      var size: nat := Size(last);
      assert TotalSize(boxes) == TotalSize(before) + size;
      NoWrapAround(before);
      SmallRemainder(TotalSize(before) + size);
    }
  }

  /** The sparse accounting. The dense total is the number of tiles in the bounding boxes, the tallies are
      never below the number of tiles, and the skipped count is the number of tiles missing from the
      boxes if and only if no tile has two names or every box is full. */
  lemma SparseAccounting(levels: seq<Level>)
    requires WellFormed(levels)
    ensures var tiles, dense := TilesTotal(Tallies(levels)), DenseTotal(Boxes(levels));
            var missing := |Covered(Boxes(levels)) - AllCells(levels)|;
            && AllCells(levels) <= Covered(Boxes(levels)) && dense == |Covered(Boxes(levels))|
            && tiles >= |AllCells(levels)| && (tiles == |AllCells(levels)| <==> AllDistinct(levels))
            && Skipped(dense, tiles) <= missing
            && (Skipped(dense, tiles) == missing <==> AllDistinct(levels) || AllFull(levels))
            && (missing == 0 <==> AllFull(levels))
  {
    SparseTotals(levels);
    MissingCount(AllCells(levels), Covered(Boxes(levels)));
    FullMeansNothingMissing(levels);
  }

  lemma SparseTotals(levels: seq<Level>)
    requires WellFormed(levels)
    ensures AllCells(levels) <= Covered(Boxes(levels)) && DenseTotal(Boxes(levels)) == |Covered(Boxes(levels))|
    ensures TilesTotal(Tallies(levels)) >= |AllCells(levels)|
    ensures TilesTotal(Tallies(levels)) == |AllCells(levels)| <==> AllDistinct(levels)
  {
    BoxesSoFar(levels);
    TilesSoFar(levels);
    TotalIsCount(Boxes(levels));
    NoWrapAround(Boxes(levels));
  }

  lemma MissingCount<T>(all: set<T>, covered: set<T>)
    requires all <= covered
    ensures |covered - all| == |covered| - |all|
    ensures |covered - all| == 0 <==> all == covered
  {
    assert covered == all + (covered - all);
    if covered - all == {} {
      assert all == covered;
    }
  }

  ghost predicate AllFull(levels: seq<Level>) {
    forall l | l in levels && Named(l.columns) != [] :: IsFull(l)
  }

  /** The tiles of the level fill its bounding box. */
  ghost predicate IsFull(l: Level)
    requires Named(l.columns) != []
  {
    CellsOf(l.zoom, Named(l.columns)) == Cells(BoundingBox(l.zoom, Named(l.columns)))
  }

  lemma FullMeansNothingMissing(levels: seq<Level>)
    requires Apart(levels)
    ensures AllCells(levels) == Covered(Boxes(levels)) <==> AllFull(levels)
  {
    BoxesSoFar(levels);
    if AllCells(levels) == Covered(Boxes(levels)) {
      forall l | l in levels && Named(l.columns) != []
        ensures IsFull(l)
      {
        var i :| 0 <= i < |levels| && levels[i] == l;
        LevelIsFull(levels, i);
      }
    }
    if AllFull(levels) {
      forall c | c in Covered(Boxes(levels))
        ensures c in AllCells(levels)
      {
        CoveredFrom(levels, c);
        CellsFrom(levels, c);
        var l :| l in levels && Boxed(l, c);
        assert IsFull(l);
      }
    }
  }

  lemma InAppended<T>(before: seq<T>, last: T)
    ensures forall x :: x in before + [last] <==> x in before || x == last
  {
  }

  lemma {:induction false} CellsFrom(levels: seq<Level>, c: Cell)
    ensures c in AllCells(levels) <==> exists l :: l in levels && c in CellsOf(l.zoom, Named(l.columns))
  {
    if levels == [] {
    } else {
      var before, last := levels[..|levels| - 1], levels[|levels| - 1];
      CellsFrom(before, c);
      assert levels == before + [last];
      AllCellsMore(before, last);
      InAppended(before, last);
    }
  }

  /** The level has a tile, and its box has the cell. */
  ghost predicate Boxed(l: Level, c: Cell) {
    Named(l.columns) != [] && c in Cells(BoundingBox(l.zoom, Named(l.columns)))
  }

  lemma {:induction false} CoveredFrom(levels: seq<Level>, c: Cell)
    ensures c in Covered(Boxes(levels)) <==> exists l :: l in levels && Boxed(l, c)
  {
    if levels == [] {
    } else {
      var before, last := levels[..|levels| - 1], levels[|levels| - 1];
      assert levels == before + [last];
      CoveredFrom(before, c);
      BoxesMore(before, last);
      assert c in Covered(Boxes(levels)) <==> c in Covered(Boxes(before)) || Boxed(last, c);
      forall l
        ensures l in levels <==> l in before || l == last
      {
      }
    }
  }

  lemma LevelIsFull(levels: seq<Level>, i: nat)
    requires Apart(levels) && i < |levels| && Named(levels[i].columns) != []
    requires AllCells(levels) == Covered(Boxes(levels))
    ensures IsFull(levels[i])
  {
    var l := levels[i];
    BoxHoldsTiles(l);
    forall c | c in Cells(BoundingBox(l.zoom, Named(l.columns)))
      ensures c in CellsOf(l.zoom, Named(l.columns))
    {
      CoveredFrom(levels, c);
      CellsFrom(levels, c);
      assert Boxed(l, c);
      BoxIsTight(l.zoom, Named(l.columns));
      var l2 :| l2 in levels && c in CellsOf(l2.zoom, Named(l2.columns));
      var j :| 0 <= j < |levels| && levels[j] == l2;
      assert levels[j].zoom == levels[i].zoom;
    }
  }

  /** Two names of one tile, such as `1.png` and `01.png`, hide a missing tile: here two of the four tiles
      are missing, and one is reported. */
  lemma SameTileTwice(l: Level)
    requires l == Level(1, [Column(Some(0), [Some(0)]), Column(Some(1), [Some(1), Some(1)])])
    ensures DenseTotal(Boxes([l])) == 4 && TilesTotal(Tallies([l])) == 3
    ensures Skipped(DenseTotal(Boxes([l])), TilesTotal(Tallies([l]))) == 1
    ensures |Covered(Boxes([l])) - AllCells([l])| == 2
  {
    ExampleCounts(l);
    ExampleIsWellFormed(l);
    SparseTotals([l]);
    MissingCount(AllCells([l]), Covered(Boxes([l])));
  }

  lemma ExampleCounts(l: Level)
    requires l == Level(1, [Column(Some(0), [Some(0)]), Column(Some(1), [Some(1), Some(1)])])
    ensures DenseTotal(Boxes([l])) == 4 && TilesTotal(Tallies([l])) == 3 && |AllCells([l])| == 2
  {
    NamesOfExample(l.columns);
    BoxOfExample();
    SingleLevel(l);
    CellsOfExample();
    ExampleDense();
  }

  lemma ExampleIsWellFormed(l: Level)
    requires l == Level(1, [Column(Some(0), [Some(0)]), Column(Some(1), [Some(1), Some(1)])])
    ensures WellFormed([l])
  {
    NamesOfExample(l.columns);
    assert Pow2(1) == 2;
    GridIsWellFormed([l]);
  }

  lemma ExampleDense()
    ensures Plus(0, Dense(Bounds(1, 0, 0, 1, 1))) == 4
  {
  }

  lemma SingleLevel(l: Level)
    requires Named(l.columns) != []
    ensures DenseTotal(Boxes([l])) == Plus(0, Dense(BoundingBox(l.zoom, Named(l.columns))))
    ensures TilesTotal(Tallies([l])) == |Named(l.columns)|
    ensures AllCells([l]) == CellsOf(l.zoom, Named(l.columns))
  {
    BoxesMore([], l);
    TalliesMore([], l);
    AllCellsMore([], l);
    assert [] + [l] == [l];
  }

  lemma BoxOfExample()
    ensures Box(1, [Name(0, 0), Name(1, 1), Name(1, 1)]) == Bounds(1, 0, 0, 1, 1)
  {
    var names := [Name(0, 0), Name(1, 1), Name(1, 1)];
    assert names[..2] == [Name(0, 0), Name(1, 1)] && names[..2][..1] == [Name(0, 0)];
    assert Box(1, []) == Bounds(1, 0xFFFF_FFFF, 0xFFFF_FFFF, 0, 0);
    assert Box(1, names[..2][..1]) == Bounds(1, 0, 0, 0, 0);
    assert Box(1, names[..2]) == Bounds(1, 0, 0, 1, 1);
  }

  lemma CellsOfExample()
    ensures |CellsOf(1, [Name(0, 0), Name(1, 1), Name(1, 1)])| == 2
  {
    assert CellsOf(1, [Name(0, 0), Name(1, 1), Name(1, 1)]) == {Cell(1, 0, 0), Cell(1, 1, 1)};
  }

  lemma NamesOfExample(columns: seq<Column>)
    requires columns == [Column(Some(0), [Some(0)]), Column(Some(1), [Some(1), Some(1)])]
    ensures Named(columns) == [Name(0, 0), Name(1, 1), Name(1, 1)]
  {
    var ones := [Some(1), Some(1)];
    assert ones[..1] == [Some(1)];
    assert NamedIn(1, ones[..1]) == [Name(1, 1)];
    assert NamedIn(0, [Some(0)]) == [Name(0, 0)];
    assert columns[..1] == [Column(Some(0), [Some(0)])];
    assert Named(columns[..1]) == [Name(0, 0)];
  }

  /** Two directories of one zoom, such as `1` and `01`, have boxes that may overlap: here one tile is
      missing, and two are reported. */
  lemma TwoDirectoriesOfOneZoom(l: Level, m: Level)
    requires l == Level(1, [Column(Some(0), [Some(0)]), Column(Some(1), [Some(1)])])
    requires m == Level(1, [Column(Some(0), [Some(1)])])
    ensures AllDistinct([l, m]) && DenseTotal(Boxes([l, m])) == 5 && TilesTotal(Tallies([l, m])) == 3
    ensures Skipped(DenseTotal(Boxes([l, m])), TilesTotal(Tallies([l, m]))) == 2
    ensures |Covered(Boxes([l, m])) - AllCells([l, m])| == 1
  {
    NamesOfPair(l.columns, m.columns);
    BoxesOfPair();
    SecondLevel(l, m);
    PairMissing();
    PairDense();
    PairIsDistinct(l, m);
  }

  lemma PairIsDistinct(l: Level, m: Level)
    requires Named(l.columns) == [Name(0, 0), Name(1, 1)] && Named(m.columns) == [Name(0, 1)]
    ensures AllDistinct([l, m])
  {
    assert Distinct([Name(0, 0), Name(1, 1)]) && Distinct([Name(0, 1)]);
  }

  lemma PairDense()
    ensures Plus(Plus(0, Dense(Bounds(1, 0, 0, 1, 1))), Dense(Bounds(1, 0, 1, 0, 1))) == 5
  {
  }

  lemma PairMissing()
    ensures |Cells(Bounds(1, 0, 0, 1, 1)) + Cells(Bounds(1, 0, 1, 0, 1))
             - (CellsOf(1, [Name(0, 0), Name(1, 1)]) + CellsOf(1, [Name(0, 1)]))| == 1
  {
    var a, b: TileRect := Bounds(1, 0, 0, 1, 1), Bounds(1, 0, 1, 0, 1);
    var all := CellsOf(1, [Name(0, 0), Name(1, 1)]) + CellsOf(1, [Name(0, 1)]);
    assert all == {Cell(1, 0, 0), Cell(1, 1, 1), Cell(1, 0, 1)};
    assert Cells(a) + Cells(b) - all == {Cell(1, 1, 0)};
  }

  lemma SecondLevel(l: Level, m: Level)
    requires Named(l.columns) != [] && Named(m.columns) != []
    ensures var a, b := BoundingBox(l.zoom, Named(l.columns)), BoundingBox(m.zoom, Named(m.columns));
            && Covered(Boxes([l, m])) == Cells(a) + Cells(b)
            && DenseTotal(Boxes([l, m])) == Plus(Plus(0, Dense(a)), Dense(b))
    ensures TilesTotal(Tallies([l, m])) == |Named(l.columns)| + |Named(m.columns)|
    ensures AllCells([l, m]) == CellsOf(l.zoom, Named(l.columns)) + CellsOf(m.zoom, Named(m.columns))
  {
    assert [l] + [m] == [l, m] && [] + [l] == [l];
    SingleLevel(l);
    BoxesMore([], l);
    BoxesMore([l], m);
    CoveredMore([], BoundingBox(l.zoom, Named(l.columns)));
    assert [] + [BoundingBox(l.zoom, Named(l.columns))] == BoxOf(l);
    CoveredMore([], BoundingBox(m.zoom, Named(m.columns)));
    assert [] + [BoundingBox(m.zoom, Named(m.columns))] == BoxOf(m);
    TalliesMore([l], m);
    AllCellsMore([l], m);
  }

  lemma NamesOfPair(l: seq<Column>, m: seq<Column>)
    requires l == [Column(Some(0), [Some(0)]), Column(Some(1), [Some(1)])] && m == [Column(Some(0), [Some(1)])]
    ensures Named(l) == [Name(0, 0), Name(1, 1)] && Named(m) == [Name(0, 1)]
  {
    assert NamedIn(0, [Some(0)]) == [Name(0, 0)] && NamedIn(1, [Some(1)]) == [Name(1, 1)]
        && NamedIn(0, [Some(1)]) == [Name(0, 1)];
    assert l[..1] == [Column(Some(0), [Some(0)])];
    assert Named(l[..1]) == [Name(0, 0)];
  }

  lemma BoxesOfPair()
    ensures Box(1, [Name(0, 0), Name(1, 1)]) == Bounds(1, 0, 0, 1, 1)
    ensures Box(1, [Name(0, 1)]) == Bounds(1, 0, 1, 0, 1)
  {
    assert Box(1, []) == Bounds(1, 0xFFFF_FFFF, 0xFFFF_FFFF, 0, 0);
    BoxMore(1, [], Name(0, 0));
    BoxMore(1, [], Name(0, 1));
    BoxMore(1, [Name(0, 0)], Name(1, 1));
    assert [] + [Name(0, 0)] == [Name(0, 0)] && [] + [Name(0, 1)] == [Name(0, 1)];
    assert [Name(0, 0)] + [Name(1, 1)] == [Name(0, 0), Name(1, 1)];
  }

  // ---------------------------------------------------------------- zoom by zoom

  /** The tiles of one zoom. */
  function ZoomCells(levels: seq<Level>, zoom: u8): set<Cell> {
    set c | c in AllCells(levels) && c.zoom == zoom
  }

  lemma {:induction false} TalliesAre(levels: seq<Level>, t: ZoomTally)
    ensures t in Tallies(levels) <==>
              exists l :: l in levels && l.zoom == t.zoom && t.tiles == |Named(l.columns)| && t.tiles > 0
  {
    if levels == [] {
    } else {
      var before, last := levels[..|levels| - 1], levels[|levels| - 1];
      assert levels == before + [last];
      TalliesAre(before, t);
      assert t in TallyOf(last) <==> last.zoom == t.zoom && t.tiles == |Named(last.columns)| && t.tiles > 0;
      if l :| l in before && l.zoom == t.zoom && t.tiles == |Named(l.columns)| && t.tiles > 0 {
        assert l in levels;
      }
    }
  }

  /** In directories of different zooms a zoom has a tally if and only if it has a tile; the tally bears its zoom,
      is never below its number of tiles, and equal to it if and only if no tile of it has two names. */
  lemma TallyLaw(levels: seq<Level>, l: Level, tiles: nat)
    requires forall i, j | 0 <= i < j < |levels| :: levels[i].zoom != levels[j].zoom
    requires l in levels
    ensures (exists t :: t in Tallies(levels) && t.zoom == l.zoom) <==> ZoomCells(levels, l.zoom) != {}
    ensures ZoomTally(l.zoom, tiles) in Tallies(levels) ==>
              && tiles >= |ZoomCells(levels, l.zoom)|
              && (tiles == |ZoomCells(levels, l.zoom)| <==> Distinct(Named(l.columns)))
  {
    OnlyLevel(levels, l);
    NamesCount(l.zoom, Named(l.columns));
    TalliesAre(levels, ZoomTally(l.zoom, |Named(l.columns)|));
    TalliesAre(levels, ZoomTally(l.zoom, tiles));
    if t :| t in Tallies(levels) && t.zoom == l.zoom {
      TalliesAre(levels, t);
      var n := Named(l.columns)[0];
      assert Cell(l.zoom, n.x, n.y) in CellsOf(l.zoom, Named(l.columns));
    }
    if c :| c in ZoomCells(levels, l.zoom) {
      assert ZoomTally(l.zoom, |Named(l.columns)|) in Tallies(levels);
    }
  }

  lemma OnlyLevel(levels: seq<Level>, l: Level)
    requires forall i, j | 0 <= i < j < |levels| :: levels[i].zoom != levels[j].zoom
    requires l in levels
    ensures ZoomCells(levels, l.zoom) == CellsOf(l.zoom, Named(l.columns))
    ensures forall m | m in levels && m.zoom == l.zoom :: m == l
  {
    forall m | m in levels && m.zoom == l.zoom
      ensures m == l
    {
      var i :| 0 <= i < |levels| && levels[i] == m;
      var j :| 0 <= j < |levels| && levels[j] == l;
    }
    forall c: Cell | c.zoom == l.zoom
      ensures c in AllCells(levels) <==> c in CellsOf(l.zoom, Named(l.columns))
    {
      CellsFrom(levels, c);
    }
  }

  /** The tallies come in the order of the directories. */
  lemma {:induction false} TalliesSorted(levels: seq<Level>)
    requires forall i, j | 0 <= i < j < |levels| :: levels[i].zoom < levels[j].zoom
    ensures forall i, j | 0 <= i < j < |Tallies(levels)| :: Tallies(levels)[i].zoom < Tallies(levels)[j].zoom
  {
    if levels == [] {
    } else {
      var before, last := levels[..|levels| - 1], levels[|levels| - 1];
      TalliesSorted(before);
      forall t | t in Tallies(before)
        ensures t.zoom < last.zoom
      {
        TalliesAre(before, t);
        var l :| l in before && l.zoom == t.zoom;
        var i :| 0 <= i < |before| && before[i] == l;
        assert levels[i].zoom < levels[|before|].zoom;
      }
    }
  }

  /** The files whose own name and whose directory's name are numbers. */
  function Counted(columns: seq<Column>): set<(nat, nat)> {
    set i, j | 0 <= i < |columns| && 0 <= j < |columns[i].files| && columns[i].x.Some? && columns[i].files[j].Some? ::
      (i, j)
  }

  function CountedIn(i: nat, files: seq<Option<u32>>): set<(nat, nat)> {
    set j | 0 <= j < |files| && files[j].Some? :: (i, j)
  }

  /** Every such file is counted, and nothing else. */
  lemma {:induction false} NamedCount(columns: seq<Column>)
    ensures |Named(columns)| == |Counted(columns)|
  {
    if columns == [] {
      assert Counted(columns) == {};
    } else {
      var before, last := columns[..|columns| - 1], columns[|columns| - 1];
      NamedCount(before);
      CountedMore(before, last);
      assert columns == before + [last];
      if last.x.Some? {
        NamedInCount(|before|, last.x.value, last.files);
      }
    }
  }

  lemma CountedMore(before: seq<Column>, last: Column)
    ensures last.x.Some? ==>
              && Counted(before + [last]) == Counted(before) + CountedIn(|before|, last.files)
              && Counted(before) !! CountedIn(|before|, last.files)
    ensures last.x.None? ==> Counted(before + [last]) == Counted(before)
  {
    var columns := before + [last];
    forall i | 0 <= i < |before|
      ensures columns[i] == before[i]
    {
    }
  }

  lemma {:induction false} NamedInCount(i: nat, x: u32, files: seq<Option<u32>>)
    ensures |NamedIn(x, files)| == |CountedIn(i, files)|
  {
    if files == [] {
      assert CountedIn(i, files) == {};
    } else {
      var before, last := files[..|files| - 1], files[|files| - 1];
      NamedInCount(i, x, before);
      assert CountedIn(i, files) == CountedIn(i, before) + (if last.Some? then {(i, |before|)} else {});
    }
  }

  ghost predicate HasFile(column: Column, n: Name) {
    column.x == Some(n.x) && exists j :: 0 <= j < |column.files| && column.files[j] == Some(n.y)
  }

  /** The tiles named are those of the files and directories. */
  lemma {:induction false} NamedAre(columns: seq<Column>, n: Name)
    ensures n in Named(columns) <==> exists column :: column in columns && HasFile(column, n)
  {
    if columns == [] {
    } else {
      var before, last := columns[..|columns| - 1], columns[|columns| - 1];
      assert columns == before + [last];
      NamedAre(before, n);
      InAppended(before, last);
      if last.x.Some? {
        NamedInAre(last.x.value, last.files, n);
      }
    }
  }

  lemma {:induction false} NamedInAre(x: u32, files: seq<Option<u32>>, n: Name)
    ensures n in NamedIn(x, files) <==> HasFile(Column(Some(x), files), n)
  {
    if files == [] {
    } else {
      var before, last := files[..|files| - 1], files[|files| - 1];
      NamedInAre(x, before, n);
      if j :| 0 <= j < |before| && before[j] == Some(n.y) {
        assert files[j] == Some(n.y);
      }
    }
  }
}
