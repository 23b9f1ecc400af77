/** Tile coordinates that exist, and the two directions of the y axis. MBTiles 1.3 stores rows from the
    bottom (TMS), everything else counts them from the top (XYZ). */
module TileCoords {
  import opened Sql
  import opened Tilesets

  type u8 = x: int | 0 <= x < 0x100
  type u32 = x: int | 0 <= x < 0x1_0000_0000
  type u64 = x: int | 0 <= x < 0x1_0000_0000_0000_0000

  const MAX_ZOOM: u8 := 30

  /** `1 << n`. */
  function Pow2(n: nat): (p: nat)
    ensures p > 0
  {
    if n == 0 then 1 else 2 * Pow2(n - 1)
  }

  lemma Pow2Five(n: nat)
    ensures Pow2(n + 5) == 32 * Pow2(n)
  {
    assert Pow2(n + 2) == 4 * Pow2(n);
    assert Pow2(n + 4) == 4 * Pow2(n + 2);
  }

  lemma Pow2At30()
    ensures Pow2(30) == 0x4000_0000
  {
    assert Pow2(0) == 1;
    Pow2Five(0);
    Pow2Five(5);
    Pow2Five(10);
    Pow2Five(15);
    Pow2Five(20);
    Pow2Five(25);
  }

  lemma {:induction false} Pow2Monotone(a: nat, b: nat)
    requires a <= b
    ensures Pow2(a) <= Pow2(b)
  {
    if a == b {
    } else {
      Pow2Monotone(a, b - 1);
    }
  }

  lemma Pow2Bound(z: nat)
    requires z <= 30
    ensures Pow2(z) <= 0x4000_0000
  {
    Pow2At30();
    Pow2Monotone(z, 30);
  }

  lemma MulLe(a: int, b: int, p: nat)
    requires a <= b
    ensures a * p <= b * p
  {
    assert b * p - a * p == (b - a) * p;
  }

  /** A coordinate with y counted from the top. */
  datatype TileCoord = TileCoord(z: u8, x: u32, y: u32)

  predicate IsPossibleOnZoomLevel(z: u8, x: u32, y: u32) {
    z <= MAX_ZOOM && x < Pow2(z) && y < Pow2(z)
  }

  type ValidCoord = c: TileCoord | IsPossibleOnZoomLevel(c.z, c.x, c.y) witness TileCoord(0, 0, 0)

  /** The other direction of the y axis; it would underflow on a row that does not exist. */
  function InvertY(z: u8, y: u32): u32
    requires z <= MAX_ZOOM && y < Pow2(z)
  {
    Pow2Bound(z);
    Pow2(z) - 1 - y
  }

  /** Inversion stays on the grid and undoes itself. */
  lemma InvertYInvolution(z: u8, y: u32)
    requires z <= MAX_ZOOM && y < Pow2(z)
    ensures InvertY(z, y) < Pow2(z) && InvertY(z, InvertY(z, y)) == y && InvertY(z, y) + y == Pow2(z) - 1
  {
  }

  /** The stored row of a tile. */
  function ToRow(c: ValidCoord): Coord {
    Coord(c.z, c.x, InvertY(c.z, c.y))
  }

  /** The row denotes a tile that exists. */
  predicate IsPossibleRow(c: Coord) {
    && 0 <= c.z <= MAX_ZOOM
    && 0 <= c.x < Pow2(c.z)
    && 0 <= c.y < Pow2(c.z)
  }

  /** Read a stored row: the columns must fit their types and the tile must exist. */
  function ParseTileIndex(c: Coord): Option<ValidCoord> {
    if !(0 <= c.z < 0x100) || !(0 <= c.x < 0x1_0000_0000) || !(0 <= c.y < 0x1_0000_0000) then None
    else if !IsPossibleOnZoomLevel(c.z, c.x, c.y) then None
    else
      InvertYInvolution(c.z, c.y);
      Some(TileCoord(c.z, c.x, InvertY(c.z, c.y)))
  }

  /** A stored row counts from the bottom what a coordinate counts from the top. */
  lemma RowsCountFromTheBottom(t: ValidCoord, c: Coord)
    ensures ToRow(t).z == t.z && ToRow(t).x == t.x && ToRow(t).y + t.y == Pow2(t.z) - 1
    ensures ParseTileIndex(c).Some? ==>
              var p := ParseTileIndex(c).value; p.z == c.z && p.x == c.x && p.y + c.y == Pow2(p.z) - 1
  {
  }

  /** Rows that exist and coordinates are in bijection. */
  lemma RowRoundTrip(c: Coord, t: ValidCoord)
    ensures ParseTileIndex(c).Some? <==> IsPossibleRow(c)
    ensures ParseTileIndex(c).Some? ==> ToRow(ParseTileIndex(c).value) == c
    ensures ParseTileIndex(ToRow(t)) == Some(t)
  {
    InvertYInvolution(t.z, t.y);
    Pow2Bound(t.z);
    if IsPossibleRow(c) {
      Pow2Bound(c.z);
      InvertYInvolution(c.z, c.y);
    }
  }

  lemma ToRowInjective(a: ValidCoord, b: ValidCoord)
    requires ToRow(a) == ToRow(b)
    ensures a == b
  {
    RowRoundTrip(ToRow(a), a);
    RowRoundTrip(ToRow(b), b);
  }
}
