/**
 * The integer index arithmetic of the uniform grid: clamping a 2-D cell index,
 * flattening it to a cell id in row-major order, narrowing that id to 16 bits,
 * and splitting a flat id back into column and row.
 *
 * The grid resolution NumCells is a template parameter of the source; here it
 * is the first argument `n` of every function.
 */
module CellIndexing {
  import opened BoundedInts

  /** Resolutions the grid supports: one to 255 cells per axis. */
  type CellCount = n: int | 1 <= n <= 255 witness 1

  /** A 2-D cell index, one signed 16-bit coordinate per axis. */
  datatype CellIndex = CellIndex(x: int16, y: int16)

  /** Whether both coordinates name a column and a row of an n-by-n grid. */
  predicate InGrid(n: CellCount, id: CellIndex) {
    0 <= id.x as int < n && 0 <= id.y as int < n
  }

  /** How far the integer w lies from the coordinate v. */
  function Dist(w: int, v: int16): nat {
    if w <= v as int then v as int - w else w - v as int
  }

  /**
   * One axis of the clamp: the bounds are 0 and n, both inclusive, so the
   * result can be n, one past the last column or row.
   */
  function ClampAxis(n: CellCount, v: int16): (r: int16)
    ensures 0 <= r as int <= n
    ensures 0 <= v as int <= n ==> r == v
    ensures forall w: int | 0 <= w <= n :: Dist(r as int, v) <= Dist(w, v)
  {
    if v < 0 then 0 else if v as int > n then n as int16 else v
  }

  /** Both axes of a cell index clamped into [0, n]. */
  function ClampCellIndex(n: CellCount, id: CellIndex): (r: CellIndex)
    ensures 0 <= r.x as int <= n && 0 <= r.y as int <= n
    ensures 0 <= id.x as int <= n && 0 <= id.y as int <= n ==> r == id
    ensures id.x < 0 ==> r.x == 0
    ensures id.y < 0 ==> r.y == 0
  {
    CellIndex(ClampAxis(n, id.x), ClampAxis(n, id.y))
  }

  /** Clamping a clamped index changes nothing. */
  lemma ClampIdempotent(n: CellCount, id: CellIndex)
    ensures ClampCellIndex(n, ClampCellIndex(n, id)) == ClampCellIndex(n, id)
  {
  }

  /**
   * The flat cell id of a cell index: each axis clamped into [0, n], then
   * column plus row times n. Because the clamp is inclusive the id can reach
   * n * (n + 1), which still fits 16 bits for every supported n.
   */
  function GetCell(n: CellCount, id: CellIndex): (r: nat)
    ensures r <= n * (n + 1)
    ensures r < 0x1_0000
  {
    var cx, cy := ClampAxis(n, id.x) as int, ClampAxis(n, id.y) as int;
    MulMonotone(cy, n, n);
    MulMonotone(n, 255, n + 1);
    cx + cy * n
  }

  /** The cell id as add_element holds it: the flat id narrowed to 16 bits. */
  function CellId(n: CellCount, id: CellIndex): (r: uint16)
    ensures r as int == GetCell(n, id)
  {
    (GetCell(n, id) % 0x1_0000) as uint16
  }

  /**
   * The integer part of get_cell_pos: a flat cell id split into its column
   * (the remainder by n) and its row (the quotient by n). The id is unsigned
   * in the source, so truncating and Euclidean division agree.
   */
  function CellPos(n: CellCount, cell: nat): (r: (nat, nat))
    ensures r.0 < n
    ensures r.0 + r.1 * n == cell
  {
    (cell % n, cell / n)
  }

  lemma MulMonotone(a: int, b: int, k: nat)
    requires a <= b
    ensures a * k <= b * k
  {
    assert b * k - a * k == (b - a) * k;
  }

  /** Column and row are the only way to write x + y * n with x in [0, n). */
  lemma SplitUnique(n: CellCount, x: int, y: nat)
    requires 0 <= x < n
    ensures CellPos(n, x + y * n) == (x, y)
  {
    var c := x + y * n;
    var (cx, cy) := CellPos(n, c);
    var k := y - cy;
    assert k * n == cx - x by {
      assert cx + cy * n == x + y * n;
      assert (y - cy) * n == y * n - cy * n;
    }
    if k >= 1 {
      MulMonotone(1, k, n);
      assert false;
    } else if k <= -1 {
      MulMonotone(k, -1, n);
      assert false;
    }
  }

  /** Flattening a cell index that is already inside the grid. */
  lemma FlattenInGrid(n: CellCount, id: CellIndex)
    requires InGrid(n, id)
    ensures GetCell(n, id) == id.x as int + id.y as int * n
    ensures GetCell(n, id) < n * n
    ensures CellPos(n, GetCell(n, id)) == (id.x as int, id.y as int)
  {
    MulMonotone(id.y as int, n - 1, n);
    SplitUnique(n, id.x as int, id.y as int);
  }

  /** Splitting a flat id of the grid and flattening the parts gives it back. */
  lemma SplitThenFlatten(n: CellCount, cell: nat)
    requires cell < n * n
    ensures var (x, y) := CellPos(n, cell);
      y < n && GetCell(n, CellIndex(x as int16, y as int16)) == cell
  {
    var (x, y) := CellPos(n, cell);
    if y >= n {
      MulMonotone(n, y, n);
      assert false;
    }
    FlattenInGrid(n, CellIndex(x as int16, y as int16));
  }

  /** Distinct in-grid cell indexes never share a cell id. */
  lemma GetCellInjective(n: CellCount, a: CellIndex, b: CellIndex)
    requires InGrid(n, a) && InGrid(n, b)
    ensures GetCell(n, a) == GetCell(n, b) <==> a == b
  {
    FlattenInGrid(n, a);
    FlattenInGrid(n, b);
  }

  /** get_cell flattens exactly what clamp_cell_index returns. */
  lemma GetCellOfClamped(n: CellCount, id: CellIndex)
    ensures GetCell(n, ClampCellIndex(n, id)) == GetCell(n, id)
  {
  }

  /** Column n, one past the last, names the first cell of the next row. */
  lemma RightEdgeAliases(n: CellCount, y: int16)
    requires 0 <= y as int < n
    ensures GetCell(n, CellIndex(n as int16, y)) == GetCell(n, CellIndex(0, y + 1))
  {
    assert (y as int + 1) * n == y as int * n + n;
  }

  /** Row n, one past the last, lies wholly beyond the n * n cells. */
  lemma BottomEdgeBeyond(n: CellCount, id: CellIndex)
    requires ClampCellIndex(n, id).y as int == n
    ensures GetCell(n, id) >= n * n
  {
  }

  /** A negative coordinate flattens as if it were 0. */
  lemma NegativeAsZero(n: CellCount, id: CellIndex)
    ensures GetCell(n, id) == GetCell(n, CellIndex(if id.x < 0 then 0 else id.x, if id.y < 0 then 0 else id.y))
  {
  }

  /**
   * Which cell indexes flatten to an id below n * n: all of rows 0 .. n-2,
   * row n-1 except its aliasing column n, and nothing of row n.
   */
  lemma GetCellInTable(n: CellCount, id: CellIndex)
    ensures var c := ClampCellIndex(n, id);
      GetCell(n, id) < n * n <==> (c.y as int < n - 1 || (c.y as int == n - 1 && c.x as int < n))
  {
    var c := ClampCellIndex(n, id);
    var cx, cy := c.x as int, c.y as int;
    if cy < n - 1 {
      MulMonotone(cy, n - 2, n);
      assert (n - 2) * n + n < n * n;
    } else if cy == n - 1 {
      assert cy * n == n * n - n;
    } else {
      BottomEdgeBeyond(n, id);
    }
  }
}
