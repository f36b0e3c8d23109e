/**
 * Grid geometry of the streaming volume: where each cell's centre lies and
 * which positions a cell contains. Positions and sizes are exact reals, so
 * the containment test is decidable and the grid partition holds exactly.
 * The Z coordinate plays no part in any decision and is left out.
 */
module Geometry {

  /** A point or a size in the XY plane. */
  datatype Vec2 = Vec2(x: real, y: real)

  /** Per-cell size: the extents split evenly into `cols` columns (X) and `rows` rows (Y). */
  function CellSizeOf(extents: Vec2, rows: int, cols: int): (size: Vec2)
    requires rows > 0 && cols > 0
    ensures size.x * cols as real == extents.x
    ensures size.y * rows as real == extents.y
  {
    Vec2(extents.x / cols as real, extents.y / rows as real)
  }

  /** Centre, along one axis, of the cell with index `k`: index 0 is centred on the origin. */
  function AxisCentre(origin: real, size: real, k: int): real
  {
    origin + k as real * size
  }

  /** Centre of cell (i, j): columns run along X, rows along Y. */
  function CellCentre(origin: Vec2, size: Vec2, i: int, j: int): Vec2
  {
    Vec2(AxisCentre(origin.x, size.x, j), AxisCentre(origin.y, size.y, i))
  }

  /** Half-open membership along one axis: start exclusive, end inclusive. */
  predicate InSpan(centre: real, size: real, v: real)
  {
    centre - size / 2.0 < v <= centre + size / 2.0
  }

  /**
   * Whether a position lies in the cell centred on `cellOrigin`. Only a cell
   * of positive size contains anything, and a position it contains lies in
   * none of the four cells of the same size that share an edge with it.
   */
  predicate Overlapping(cellOrigin: Vec2, cellSize: Vec2, position: Vec2)
    ensures Overlapping(cellOrigin, cellSize, position) ==> cellSize.x > 0.0 && cellSize.y > 0.0
    ensures Overlapping(cellOrigin, cellSize, position) ==>
              && !InSpan(cellOrigin.x - cellSize.x, cellSize.x, position.x)
              && !InSpan(cellOrigin.x + cellSize.x, cellSize.x, position.x)
              && !InSpan(cellOrigin.y - cellSize.y, cellSize.y, position.y)
              && !InSpan(cellOrigin.y + cellSize.y, cellSize.y, position.y)
  {
    InSpan(cellOrigin.x, cellSize.x, position.x) && InSpan(cellOrigin.y, cellSize.y, position.y)
  }

  /**
   * Layout of the centres: cell (0, 0) is centred on the origin, the next
   * column's centre lies one cell width further along X on the same Y, the
   * next row's one cell height further along Y on the same X, and a cell of
   * positive size contains its own centre.
   */
  lemma CentreLayout(origin: Vec2, size: Vec2, i: int, j: int)
    ensures CellCentre(origin, size, 0, 0) == origin
    ensures CellCentre(origin, size, i, j + 1)
            == Vec2(CellCentre(origin, size, i, j).x + size.x, CellCentre(origin, size, i, j).y)
    ensures CellCentre(origin, size, i + 1, j)
            == Vec2(CellCentre(origin, size, i, j).x, CellCentre(origin, size, i, j).y + size.y)
    ensures size.x > 0.0 && size.y > 0.0 ==>
              Overlapping(CellCentre(origin, size, i, j), size, CellCentre(origin, size, i, j))
  {
  }

  /** Whether `v` lies in the span covered by `count` cells along one axis. */
  predicate InAxisRange(origin: real, size: real, count: int, v: real)
  {
    origin - size / 2.0 < v <= origin + (count as real - 0.5) * size
  }

  /** Whether a position lies in the area covered by the whole grid. */
  predicate InsideGrid(origin: Vec2, size: Vec2, rows: int, cols: int, p: Vec2)
  {
    InAxisRange(origin.x, size.x, cols, p.x) && InAxisRange(origin.y, size.y, rows, p.y)
  }

  lemma MulLess(a: real, b: real, s: real)
    requires a < b && s > 0.0
    ensures a * s < b * s
  {
  }

  lemma MulAtMost(a: real, b: real, s: real)
    requires a <= b && s > 0.0
    ensures a * s <= b * s
  {
  }

  /** Centres of spans with larger index lie at least one size further along. */
  lemma AxisGap(origin: real, size: real, j: int, k: int)
    requires size > 0.0 && j < k
    ensures AxisCentre(origin, size, j) + size <= AxisCentre(origin, size, k)
  {
    var a, b := j as real, k as real;
    MulAtMost(a + 1.0, b, size);
    assert (a + 1.0) * size == a * size + size;
  }

  /** Two spans of the same positive size that share a point have the same index. */
  lemma AxisUnique(origin: real, size: real, v: real, j: int, k: int)
    requires size > 0.0
    requires InSpan(AxisCentre(origin, size, j), size, v)
    requires InSpan(AxisCentre(origin, size, k), size, v)
    ensures j == k
  {
    if j < k {
      AxisGap(origin, size, j, k);
    } else if k < j {
      AxisGap(origin, size, k, j);
    }
  }

  /** A span contains `v` when `v`'s offset from the origin, in sizes, is within half a size of its index. */
  lemma SpanFromScaled(origin: real, size: real, v: real, q: real, j: int)
    requires size > 0.0 && q * size == v - origin
    requires j as real - 0.5 < q <= j as real + 0.5
    ensures InSpan(AxisCentre(origin, size, j), size, v)
  {
    var a := j as real;
    MulLess(a - 0.5, q, size);
    MulAtMost(q, a + 0.5, size);
    assert (a - 0.5) * size == a * size - size / 2.0;
    assert (a + 0.5) * size == a * size + size / 2.0;
  }

  /** The index of the one span, along an axis, that contains `v`. */
  function AxisIndex(origin: real, size: real, v: real): (j: int)
    requires size > 0.0
    ensures InSpan(AxisCentre(origin, size, j), size, v)
    ensures forall k :: InSpan(AxisCentre(origin, size, k), size, v) ==> k == j
  {
    var q := (v - origin) / size;
    var t := q + 0.5;
    var f := t.Floor;
    var j := if f as real == t then f - 1 else f;
    assert q * size == v - origin;
    SpanFromScaled(origin, size, v, q, j);
    forall k | InSpan(AxisCentre(origin, size, k), size, v) ensures k == j {
      AxisUnique(origin, size, v, j, k);
    }
    j
  }

  /** Where the span with index `a` lies relative to the axis range of `n` cells. */
  lemma SpanAgainstRange(origin: real, size: real, v: real, a: real, n: real)
    requires size > 0.0
    requires origin + a * size - size / 2.0 < v <= origin + a * size + size / 2.0
    ensures a <= -1.0 ==> v <= origin - size / 2.0
    ensures a >= n ==> v > origin + (n - 0.5) * size
    ensures 0.0 <= a <= n - 1.0 ==> origin - size / 2.0 < v <= origin + (n - 0.5) * size
  {
    if a <= -1.0 {
      MulAtMost(a, -1.0, size);
    }
    if a >= n {
      MulAtMost(n, a, size);
      assert (n - 0.5) * size == n * size - size / 2.0;
    }
    if 0.0 <= a <= n - 1.0 {
      MulAtMost(0.0, a, size);
      MulAtMost(a, n - 1.0, size);
      assert (n - 1.0) * size == (n - 0.5) * size - size / 2.0;
    }
  }

  /** The index of a span lies in [0, count) exactly when `v` lies in the grid's axis range. */
  lemma AxisIndexInRange(origin: real, size: real, count: int, v: real)
    requires size > 0.0
    ensures 0 <= AxisIndex(origin, size, v) < count <==> InAxisRange(origin, size, count, v)
  {
    var j := AxisIndex(origin, size, v);
    SpanAgainstRange(origin, size, v, j as real, count as real);
  }

  /**
   * The cell, among all cells of the unbounded lattice, that contains `p`.
   * There is exactly one, so a grid scan in any order finds the same cell.
   */
  function CellAt(origin: Vec2, size: Vec2, p: Vec2): (c: (int, int))
    requires size.x > 0.0 && size.y > 0.0
    ensures Overlapping(CellCentre(origin, size, c.0, c.1), size, p)
    ensures forall i, j :: Overlapping(CellCentre(origin, size, i, j), size, p) ==> i == c.0 && j == c.1
  {
    (AxisIndex(origin.y, size.y, p.y), AxisIndex(origin.x, size.x, p.x))
  }

  /**
   * Partition of the grid: a position lies in some cell of a rows x cols grid
   * exactly when it lies in the area the grid covers, and then in only one.
   */
  lemma Partition(origin: Vec2, size: Vec2, rows: int, cols: int, p: Vec2)
    requires size.x > 0.0 && size.y > 0.0
    ensures (exists i, j :: 0 <= i < rows && 0 <= j < cols && Overlapping(CellCentre(origin, size, i, j), size, p))
            <==> InsideGrid(origin, size, rows, cols, p)
    ensures InsideGrid(origin, size, rows, cols, p) ==>
              var c := CellAt(origin, size, p);
              0 <= c.0 < rows && 0 <= c.1 < cols
  {
    AxisIndexInRange(origin.x, size.x, cols, p.x);
    AxisIndexInRange(origin.y, size.y, rows, p.y);
    var c := CellAt(origin, size, p);
    if InsideGrid(origin, size, rows, cols, p) {
      assert 0 <= c.0 < rows && 0 <= c.1 < cols && Overlapping(CellCentre(origin, size, c.0, c.1), size, p);
    }
  }

  /**
   * Tie-break on an internal column line: a position on the line shared by
   * columns j and j+1 belongs to column j (the lower index) and not to j+1.
   */
  lemma ColumnEdgeBelongsToLower(origin: Vec2, size: Vec2, i: int, j: int, p: Vec2)
    requires size.x > 0.0
    requires p.x == AxisCentre(origin.x, size.x, j) + size.x / 2.0
    requires InSpan(AxisCentre(origin.y, size.y, i), size.y, p.y)
    ensures Overlapping(CellCentre(origin, size, i, j), size, p)
    ensures !Overlapping(CellCentre(origin, size, i, j + 1), size, p)
  {
  }

  /**
   * Tie-break on an internal row line: a position on the line shared by rows
   * i and i+1 belongs to row i (the lower index) and not to i+1.
   */
  lemma RowEdgeBelongsToLower(origin: Vec2, size: Vec2, i: int, j: int, p: Vec2)
    requires size.y > 0.0
    requires p.y == AxisCentre(origin.y, size.y, i) + size.y / 2.0
    requires InSpan(AxisCentre(origin.x, size.x, j), size.x, p.x)
    ensures Overlapping(CellCentre(origin, size, i, j), size, p)
    ensures !Overlapping(CellCentre(origin, size, i + 1, j), size, p)
  {
  }

  /**
   * On a 5 x 5 grid with extents 50 x 50 and origin 0, the cells are 10 units
   * wide; (25, 25) lies on the shared corner of four cells and belongs to
   * cell (2, 2), and (35, 25) to cell (2, 3).
   */
  lemma ScenarioPlayerCells()
    ensures CellSizeOf(Vec2(50.0, 50.0), 5, 5) == Vec2(10.0, 10.0)
    ensures CellAt(Vec2(0.0, 0.0), Vec2(10.0, 10.0), Vec2(25.0, 25.0)) == (2, 2)
    ensures CellAt(Vec2(0.0, 0.0), Vec2(10.0, 10.0), Vec2(35.0, 25.0)) == (2, 3)
  {
    var o, s := Vec2(0.0, 0.0), Vec2(10.0, 10.0);
    assert Overlapping(CellCentre(o, s, 2, 2), s, Vec2(25.0, 25.0));
    assert Overlapping(CellCentre(o, s, 2, 3), s, Vec2(35.0, 25.0));
  }
}
