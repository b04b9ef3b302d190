/** The text format of Level.SetLevelFromString (Level.js): which characters are
    skipped, what each remaining character stands for, and which cell it fills. */
module LevelLegend {
  import opened Wrappers
  import opened GameConstants
  import opened TileKinds

  /** Commas, new lines and tabs are layout only. */
  predicate Ignored(c: char)
  {
    c == ',' || c == '\n' || c == '\t'
  }

  /** The characters that fill cells, in order. */
  function Kept(s: string): (k: string)
    ensures |k| <= |s|
    ensures forall i :: 0 <= i < |k| ==> !Ignored(k[i])
    decreases |s|
  {
    if |s| == 0 then []
    else Kept(s[..|s| - 1]) + (if Ignored(s[|s| - 1]) then [] else [s[|s| - 1]])
  }

  /** The legend; None is an empty (null) cell. Unknown characters give an empty
      cell too. */
  function Legend(c: char): Option<Kind>
  {
    if c == ' ' then None
    else if c == '#' then Some(Road)
    else if c == '>' then Some(Arrow(Right, Purple))
    else if c == '<' then Some(Arrow(Left, Purple))
    else if c == '^' then Some(Arrow(Up, Purple))
    else if c == 'v' then Some(Arrow(Down, Purple))
    else if c == 'x' then Some(CrackedRoad)
    else None
  }

  /** Only the six legend characters produce a tile, and the tiles are roads, purple
      arrows and cracked roads. */
  lemma LegendMeaning(c: char)
    ensures Legend(c).Some? <==> c in "#><^vx"
    ensures Legend(c).Some? ==>
      Legend(c).value == Road || Legend(c).value == CrackedRoad ||
      (Legend(c).value.Arrow? && Legend(c).value.flavor == Purple)
  {
  }

  /** The cell of the k-th kept character: row-major from (0, 0). Its row-major
      position is k again, in one of the columns 0 .. width-1. */
  function Cell(k: nat, width: nat): (c: (int, int))
    requires width > 0
    ensures Index(c, width) == k && 0 <= c.0 < width && 0 <= c.1
  {
    (k % width, k / width)
  }

  /** The row-major position of a cell. */
  function Index(cell: (int, int), width: nat): int
  {
    cell.1 * width + cell.0
  }

  /** Index is inverse to Cell on the columns 0 .. width-1 and rows from 0. */
  lemma IndexCell(cell: (int, int), width: nat)
    requires width > 0 && 0 <= cell.0 < width && 0 <= cell.1
    ensures Index(cell, width) >= 0 && Cell(Index(cell, width), width) == cell
  {
    var k := cell.1 * width + cell.0;
    assert k / width == cell.1 && k % width == cell.0 by {
      DivModUnique(k, width, cell.1, cell.0);
    }
  }

  lemma DivModUnique(k: int, width: int, q: int, r: int)
    requires width > 0 && 0 <= r < width && k == q * width + r
    ensures k / width == q && k % width == r
  {
    var q0, r0 := k / width, k % width;
    assert (q - q0) * width == r0 - r by {
      assert q * width + r == q0 * width + r0;
    }
    if q > q0 {
      MulAtLeast(q - q0, width);
    } else if q < q0 {
      MulAtLeast(q0 - q, width);
    }
  }

  lemma MulAtLeast(a: int, b: int)
    requires a >= 1 && b > 0
    ensures a * b >= b
  {
    assert a * b == (a - 1) * b + b;
  }

  /** Distinct characters fill distinct cells. */
  lemma CellInjective(j: nat, k: nat, width: nat)
    requires width > 0 && Cell(j, width) == Cell(k, width)
    ensures j == k
  {
  }

  /** The cursor of SetLevelFromString: one column right, wrapping to the start of
      the next row at the width. */
  lemma CursorStep(k: nat, width: nat)
    requires width > 0
    ensures Cell(k + 1, width) ==
      if Cell(k, width).0 + 1 == width then (0, Cell(k, width).1 + 1)
      else (Cell(k, width).0 + 1, Cell(k, width).1)
  {
    var q, r := k / width, k % width;
    if r + 1 == width {
      WrapStep(k, width, q);
    } else {
      ColumnStep(k, width, q, r);
    }
  }

  lemma WrapStep(k: nat, width: nat, q: int)
    requires width > 0 && k == q * width + (width - 1)
    ensures (k + 1) / width == q + 1 && (k + 1) % width == 0
  {
    assert k + 1 == (q + 1) * width + 0;
    DivModUnique(k + 1, width, q + 1, 0);
  }

  lemma ColumnStep(k: nat, width: nat, q: int, r: int)
    requires width > 0 && 0 <= r && r + 1 < width && k == q * width + r
    ensures (k + 1) / width == q && (k + 1) % width == r + 1
  {
    DivModUnique(k + 1, width, q, r + 1);
  }

  /** The cells the first n kept characters fill. */
  predicate Placed(cell: (int, int), width: nat, n: nat)
  {
    0 <= cell.0 < width && 0 <= cell.1 && Index(cell, width) < n
  }

  lemma PlacedStep(cell: (int, int), width: nat, n: nat)
    requires width > 0
    ensures Placed(cell, width, n + 1) <==> Placed(cell, width, n) || cell == Cell(n, width)
  {
    if 0 <= cell.0 < width && 0 <= cell.1 {
      IndexCell(cell, width);
    }
  }

  /** Filling the cell of the n-th kept character: the assigned cells grow by that
      cell and every cell outside the filled ones keeps its value from start. */
  lemma AssignedStep<V>(cells: map<(int, int), V>, start: map<(int, int), V>, width: nat, n: nat, v: V)
    requires width > 0
    requires forall d :: d in cells <==> d in start || Placed(d, width, n)
    requires forall d :: d in start && !Placed(d, width, n) ==> cells[d] == start[d]
    ensures var next := cells[Cell(n, width) := v];
      forall d :: d in next <==> d in start || Placed(d, width, n + 1)
    ensures var next := cells[Cell(n, width) := v];
      forall d :: d in start && !Placed(d, width, n + 1) ==> next[d] == start[d]
  {
    forall d
      ensures Placed(d, width, n + 1) <==> Placed(d, width, n) || d == Cell(n, width)
    {
      PlacedStep(d, width, n);
    }
  }

  /** With width x height kept characters every cell of the grid is filled. */
  lemma FullStringCoversGrid(width: nat, height: nat, x: int, y: int)
    requires width > 0 && 0 <= x < width && 0 <= y < height
    ensures Placed((x, y), width, width * height)
  {
    assert y * width <= (height - 1) * width by {
      MulMonotone(y, height - 1, width);
    }
    assert (height - 1) * width + width == width * height;
  }

  lemma MulMonotone(a: int, b: int, c: nat)
    requires a <= b
    ensures a * c <= b * c
  {
  }

  /** Kept distributes over concatenation, one character at a time. */
  lemma KeptStep(s: string, i: nat)
    requires i < |s|
    ensures Kept(s[..i + 1]) == Kept(s[..i]) + (if Ignored(s[i]) then [] else [s[i]])
  {
    assert s[..i + 1][..i] == s[..i];
  }
}
