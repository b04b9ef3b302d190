/** The conversions between screen pixels and level grid cells that LevelManager.js
    performs: where a level sits on the canvas, which cell a point falls in (with the
    tolerant floor) and where a cell's centre is. */
module GridGeometry {
  import opened Wrappers
  import opened GameConstants
  import GeneralMath
  import Vec2D

  type Vec = Vec2D.Vec

  /** The upper-left pixel of a width x height level: centred horizontally, and
      vertically in the part of the canvas below the top buffer. */
  function UpperLeft(canvasWidth: real, canvasHeight: real, width: int, height: int): (ul: Vec)
    ensures 2.0 * ul.x + width as real * CellSize == canvasWidth
    ensures 2.0 * (ul.y - TopBufferSize) + height as real * CellSize == canvasHeight - TopBufferSize
  {
    Vec2D.Vec((canvasWidth - width as real * CellSize) / 2.0,
              TopBufferSize + (canvasHeight - TopBufferSize - height as real * CellSize) / 2.0)
  }

  /** The cell holding screen point p, or None when that cell is off the grid. */
  function GridCoords(upperLeft: Vec, width: int, height: int, p: Vec): (c: Option<(int, int)>)
    ensures c.Some? ==> 0 <= c.value.0 < width && 0 <= c.value.1 < height
  {
    var offset := p.Sub(upperLeft);
    var gx := GeneralMath.ApproxFloor(offset.x / CellSize);
    var gy := GeneralMath.ApproxFloor(offset.y / CellSize);
    if gx < 0 || gy < 0 || gx >= width || gy >= height then None else Some((gx, gy))
  }

  /** Offset o lies in column (or row) n of the grid: in [48n, 48(n+1)) shifted down
      by the tolerance, so a point just short of a boundary already counts as past it. */
  predicate InStrip(o: real, n: int)
  {
    n as real * CellSize - CellSize * GeneralMath.Eps <= o < (n + 1) as real * CellSize - CellSize * GeneralMath.Eps
  }

  /** Point p lies in cell (x, y) of the grid whose upper-left pixel is upperLeft. */
  predicate InCell(upperLeft: Vec, p: Vec, x: int, y: int)
  {
    InStrip(p.x - upperLeft.x, x) && InStrip(p.y - upperLeft.y, y)
  }

  lemma FloorOfScaled(o: real, n: int)
    ensures GeneralMath.ApproxFloor(o / CellSize) == n <==> InStrip(o, n)
  {
    GeneralMath.ApproxFloorUnique(o / CellSize, n);
  }

  /** GridCoords finds the in-bounds cell whose tolerant strip holds the point. */
  lemma GridCoordsMeaning(upperLeft: Vec, width: int, height: int, p: Vec, x: int, y: int)
    ensures GridCoords(upperLeft, width, height, p) == Some((x, y)) <==>
      0 <= x < width && 0 <= y < height && InCell(upperLeft, p, x, y)
  {
    FloorOfScaled(p.x - upperLeft.x, x);
    FloorOfScaled(p.y - upperLeft.y, y);
  }

  /** GridCoords is None exactly when no in-bounds cell's strips hold the point. */
  lemma GridCoordsOffGrid(upperLeft: Vec, width: int, height: int, p: Vec)
    ensures GridCoords(upperLeft, width, height, p).None? <==>
      forall x, y :: 0 <= x < width && 0 <= y < height ==> !InCell(upperLeft, p, x, y)
  {
    if GridCoords(upperLeft, width, height, p).None? {
      forall x, y | 0 <= x < width && 0 <= y < height
        ensures !InCell(upperLeft, p, x, y)
      {
        GridCoordsMeaning(upperLeft, width, height, p, x, y);
      }
    } else {
      var c := GridCoords(upperLeft, width, height, p).value;
      GridCoordsMeaning(upperLeft, width, height, p, c.0, c.1);
    }
  }

  /** The screen position of a cell's centre. */
  function CellCenter(upperLeft: Vec, cell: (int, int)): (v: Vec)
    ensures v.x == upperLeft.x + cell.0 as real * CellSize + HalfCellSize
    ensures v.y == upperLeft.y + cell.1 as real * CellSize + HalfCellSize
  {
    upperLeft.Add(Vec2D.Vec(cell.0 as real, cell.1 as real).Mult(CellSize))
             .Add(Vec2D.Vec(CellSize, CellSize).Mult(0.5))
  }

  /** The upper-left pixel of a cell, where a loaded level puts the cell's tile; the
      cell's centre lies half a cell further on each axis. */
  function CellCorner(upperLeft: Vec, cell: (int, int)): (v: Vec)
    ensures CellCenter(upperLeft, cell) == v.Add(Vec2D.Vec(HalfCellSize, HalfCellSize))
  {
    Vec2D.Vec(upperLeft.x + cell.0 as real * CellSize, upperLeft.y + cell.1 as real * CellSize)
  }

  /** The centre of an in-bounds cell maps back to that cell. */
  lemma CenterRoundTrip(upperLeft: Vec, width: int, height: int, x: int, y: int)
    requires 0 <= x < width && 0 <= y < height
    ensures GridCoords(upperLeft, width, height, CellCenter(upperLeft, (x, y))) == Some((x, y))
  {
    var c := CellCenter(upperLeft, (x, y));
    assert (c.x - upperLeft.x) / CellSize == x as real + 0.5;
    assert (c.y - upperLeft.y) / CellSize == y as real + 0.5;
    GeneralMath.ApproxFloorOfHalf(x);
    GeneralMath.ApproxFloorOfHalf(y);
  }
}
