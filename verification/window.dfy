/**
 * Grid coordinates and the window of loaded cells around a tracked cell.
 * A window is a block of rows x columns clipped to the grid; the streaming
 * volume keeps exactly the window of its tracked cell loaded, either by
 * recomputing it or by shifting one trailing row/column out and one leading
 * row/column in (ShiftedKeys).
 */
module GridWindow {

  /** A (row, column) grid coordinate. */
  type Cell = (int, int)

  /** The "no tracked cell" value; it is never a cell of the grid. */
  const Unset: Cell := (-1, -1)

  predicate InGrid(rows: int, cols: int, c: Cell)
  {
    0 <= c.0 < rows && 0 <= c.1 < cols
  }

  /** Row-major order: earlier row first, then earlier column. */
  predicate RowMajorBefore(a: Cell, b: Cell)
  {
    a.0 < b.0 || (a.0 == b.0 && a.1 < b.1)
  }

  /** One of the 8 cells around `centre` (the centre itself excluded). */
  predicate IsNeighbour(c: Cell, centre: Cell)
  {
    c != centre && -1 <= c.0 - centre.0 <= 1 && -1 <= c.1 - centre.1 <= 1
  }

  /** The grid cells in rows [r0, r1] and columns [c0, c1]. */
  function Block(rows: int, cols: int, r0: int, r1: int, c0: int, c1: int): (b: set<Cell>)
    ensures forall c :: c in b <==> InGrid(rows, cols, c) && r0 <= c.0 <= r1 && c0 <= c.1 <= c1
  {
    set i, j | 0 <= i < rows && 0 <= j < cols && r0 <= i <= r1 && c0 <= j <= c1 :: (i, j)
  }

  /** A block grows by one column as the union with that column. */
  lemma BlockAddColumn(rows: int, cols: int, r0: int, r1: int, c0: int, c1: int)
    requires c0 <= c1 + 1
    ensures Block(rows, cols, r0, r1, c0, c1 + 1) == Block(rows, cols, r0, r1, c0, c1) + Block(rows, cols, r0, r1, c1 + 1, c1 + 1)
  {
    var big, small, col := Block(rows, cols, r0, r1, c0, c1 + 1), Block(rows, cols, r0, r1, c0, c1), Block(rows, cols, r0, r1, c1 + 1, c1 + 1);
    forall x ensures x in big <==> x in small + col {
    }
  }

  /** A block grows by one row as the union with that row. */
  lemma BlockAddRow(rows: int, cols: int, r0: int, r1: int, c0: int, c1: int)
    requires r0 <= r1 + 1
    ensures Block(rows, cols, r0, r1 + 1, c0, c1) == Block(rows, cols, r0, r1, c0, c1) + Block(rows, cols, r1 + 1, r1 + 1, c0, c1)
  {
    var big, small, row := Block(rows, cols, r0, r1 + 1, c0, c1), Block(rows, cols, r0, r1, c0, c1), Block(rows, cols, r1 + 1, r1 + 1, c0, c1);
    forall x ensures x in big <==> x in small + row {
    }
  }

  /** A set holding `base` and rows r0 .. last of a block, plus the next row of it, holds `base` and rows r0 .. next. */
  lemma GrowByRow(base: set<Cell>, before: set<Cell>, after: set<Cell>,
                  rows: int, cols: int, r0: int, last: int, next: int, c0: int, c1: int)
    requires r0 <= next == last + 1
    requires before == base + Block(rows, cols, r0, last, c0, c1)
    requires after == before + Block(rows, cols, next, next, c0, c1)
    ensures after == base + Block(rows, cols, r0, next, c0, c1)
  {
    BlockAddRow(rows, cols, r0, last, c0, c1);
  }

  /** The same as GrowByRow, one column at a time. */
  lemma GrowByColumn(base: set<Cell>, before: set<Cell>, after: set<Cell>,
                     rows: int, cols: int, r0: int, r1: int, c0: int, last: int, next: int)
    requires c0 <= next == last + 1
    requires before == base + Block(rows, cols, r0, r1, c0, last)
    requires after == before + Block(rows, cols, r0, r1, next, next)
    ensures after == base + Block(rows, cols, r0, r1, c0, next)
  {
    BlockAddColumn(rows, cols, r0, r1, c0, last);
  }

  /** A map lacking rows r0 .. last of a block, then also the next row of it, lacks rows r0 .. next. */
  lemma ShrinkByRow<V>(base: map<Cell, V>, before: map<Cell, V>, after: map<Cell, V>,
                       rows: int, cols: int, r0: int, last: int, next: int, c0: int, c1: int)
    requires r0 <= next == last + 1
    requires before == base - Block(rows, cols, r0, last, c0, c1)
    requires after == before - Block(rows, cols, next, next, c0, c1)
    ensures after == base - Block(rows, cols, r0, next, c0, c1)
  {
    BlockAddRow(rows, cols, r0, last, c0, c1);
  }

  /** The same as ShrinkByRow, one column at a time. */
  lemma ShrinkByColumn<V>(base: map<Cell, V>, before: map<Cell, V>, after: map<Cell, V>,
                          rows: int, cols: int, r0: int, r1: int, c0: int, last: int, next: int)
    requires c0 <= next == last + 1
    requires before == base - Block(rows, cols, r0, r1, c0, last)
    requires after == before - Block(rows, cols, r0, r1, next, next)
    ensures after == base - Block(rows, cols, r0, r1, c0, next)
  {
    BlockAddColumn(rows, cols, r0, r1, c0, last);
  }

  /**
   * Entries survive a removal of `dropped` followed by any change that keeps
   * every remaining entry: all entries outside `dropped` are still there, unchanged.
   */
  lemma Survives<V>(m0: map<Cell, V>, m1: map<Cell, V>, m2: map<Cell, V>, dropped: set<Cell>)
    requires m1 == m0 - dropped && m1.Items <= m2.Items
    ensures forall k :: k in m0 && k !in dropped ==> k in m2 && m2[k] == m0[k]
  {
    forall k | k in m0 && k !in dropped ensures k in m2 && m2[k] == m0[k] {
      assert (k, m0[k]) in m1.Items;
    }
  }

  /**
   * The cells that should be loaded around `c` for neighbour range `range`:
   * rows c.0 - range/2 .. c.0 + range/2 and `range` columns from c.1 - range/2,
   * clipped to the grid. For an odd range it is the range x range square
   * centred on `c`.
   */
  function Window(rows: int, cols: int, range: int, c: Cell): (w: set<Cell>)
    ensures forall x :: x in w ==> InGrid(rows, cols, x)
    ensures range % 2 == 1 ==>
              w == Block(rows, cols, c.0 - range / 2, c.0 + range / 2, c.1 - range / 2, c.1 + range / 2)
    ensures range >= 1 && InGrid(rows, cols, c) ==> c in w
  {
    Block(rows, cols, c.0 - range / 2, c.0 + range / 2, c.1 - range / 2, c.1 - range / 2 + range - 1)
  }

  /** The window of `c` is the block with the given bounds, named once. */
  lemma WindowBounds(rows: int, cols: int, range: int, c: Cell, top: int, bottom: int, left: int, right: int)
    requires top == c.0 - range / 2 && bottom == c.0 + range / 2
    requires left == c.1 - range / 2 && right == left + range - 1
    ensures Window(rows, cols, range, c) == Block(rows, cols, top, bottom, left, right)
  {
  }

  /** A block of one row, inside the grid, holds one cell per column. */
  lemma {:induction false} RowCount(rows: int, cols: int, r: int, c0: int, c1: int)
    requires 0 <= r < rows && 0 <= c0 && c1 < cols && c0 <= c1 + 1
    ensures |Block(rows, cols, r, r, c0, c1)| == c1 - c0 + 1
    decreases c1 - c0
  {
    if c1 < c0 {
      EmptyBlock(rows, cols, r, r, c0, c1);
    } else {
      var last := c1 - 1;
      RowCount(rows, cols, r, c0, last);
      LastColumnSplits(rows, cols, r, c0, last, c1);
    }
  }

  /** A block with no row or no column in range is empty. */
  lemma EmptyBlock(rows: int, cols: int, r0: int, r1: int, c0: int, c1: int)
    requires r1 < r0 || c1 < c0
    ensures |Block(rows, cols, r0, r1, c0, c1)| == 0
  {
    assert Block(rows, cols, r0, r1, c0, c1) == {};
  }

  /** A one-row block inside the grid is the block without its last column plus that one cell. */
  lemma LastColumnSplits(rows: int, cols: int, r: int, c0: int, last: int, c1: int)
    requires 0 <= r < rows && 0 <= c1 < cols && c0 <= c1 == last + 1
    ensures |Block(rows, cols, r, r, c0, c1)| == |Block(rows, cols, r, r, c0, last)| + 1
  {
    var before, cell := Block(rows, cols, r, r, c0, last), Block(rows, cols, r, r, c1, c1);
    BlockAddColumn(rows, cols, r, r, c0, last);
    assert cell == {(r, c1)};
    assert (r, c1) !in before;
  }

  /** A block is the block without its last row plus that row, which it does not overlap. */
  lemma LastRowSplits(rows: int, cols: int, r0: int, last: int, r1: int, c0: int, c1: int)
    requires r0 <= r1 == last + 1
    ensures |Block(rows, cols, r0, r1, c0, c1)|
            == |Block(rows, cols, r0, last, c0, c1)| + |Block(rows, cols, r1, r1, c0, c1)|
  {
    var upper, row := Block(rows, cols, r0, last, c0, c1), Block(rows, cols, r1, r1, c0, c1);
    BlockAddRow(rows, cols, r0, last, c0, c1);
    assert upper !! row;
  }

  /** A block inside the grid holds (rows spanned) x (columns spanned) cells. */
  lemma {:induction false} BlockCount(rows: int, cols: int, r0: int, r1: int, c0: int, c1: int)
    requires 0 <= r0 && r1 < rows && 0 <= c0 && c1 < cols && r0 <= r1 + 1 && c0 <= c1 + 1
    ensures |Block(rows, cols, r0, r1, c0, c1)| == (r1 - r0 + 1) * (c1 - c0 + 1)
    decreases r1 - r0
  {
    if r1 < r0 {
      EmptyBlock(rows, cols, r0, r1, c0, c1);
    } else {
      var last := r1 - 1;
      BlockCount(rows, cols, r0, last, c0, c1);
      RowCount(rows, cols, r1, c0, c1);
      LastRowSplits(rows, cols, r0, last, r1, c0, c1);
      SumOfRows(|Block(rows, cols, r0, last, c0, c1)|, |Block(rows, cols, r1, r1, c0, c1)|, r0, last, r1, c0, c1);
    }
  }

  lemma SumOfRows(a: int, b: int, r0: int, last: int, r1: int, c0: int, c1: int)
    requires last == r1 - 1
    requires a == (last - r0 + 1) * (c1 - c0 + 1) && b == c1 - c0 + 1
    ensures a + b == (r1 - r0 + 1) * (c1 - c0 + 1)
  {
  }

  /** Clipping a block's bounds to the grid leaves the block as it is. */
  lemma BlockClip(rows: int, cols: int, r0: int, r1: int, c0: int, c1: int, top: int, bottom: int, left: int, right: int)
    requires top == (if r0 < 0 then 0 else r0) && bottom == (if r1 >= rows then rows - 1 else r1)
    requires left == (if c0 < 0 then 0 else c0) && right == (if c1 >= cols then cols - 1 else c1)
    ensures Block(rows, cols, r0, r1, c0, c1) == Block(rows, cols, top, bottom, left, right)
  {
    var a, b := Block(rows, cols, r0, r1, c0, c1), Block(rows, cols, top, bottom, left, right);
    forall x ensures x in a <==> x in b {
    }
  }

  lemma MulWithin(n: int, m: int, k: int)
    requires 0 <= n <= k && 0 <= m <= k
    ensures n * m <= k * k
  {
    assert n * m <= k * m;
  }

  /**
   * For an odd range a window holds at most range x range cells, and exactly
   * that many when the square around `c` lies inside the grid; near the
   * grid's edges the clipped window is smaller.
   */
  lemma WindowSize(rows: int, cols: int, range: int, c: Cell)
    requires range >= 1 && range % 2 == 1
    ensures |Window(rows, cols, range, c)| <= range * range
    ensures 0 <= c.0 - range / 2 && c.0 + range / 2 < rows && 0 <= c.1 - range / 2 && c.1 + range / 2 < cols
            ==> |Window(rows, cols, range, c)| == range * range
  {
    var h := range / 2;
    var r0, r1, c0 := c.0 - h, c.0 + h, c.1 - h;
    var c1 := c0 + range - 1;
    WindowBounds(rows, cols, range, c, r0, r1, c0, c1);
    var top := if r0 < 0 then 0 else r0;
    var bottom := if r1 >= rows then rows - 1 else r1;
    var left := if c0 < 0 then 0 else c0;
    var right := if c1 >= cols then cols - 1 else c1;
    BlockClip(rows, cols, r0, r1, c0, c1, top, bottom, left, right);
    if top <= bottom && left <= right {
      var height, width := bottom - top + 1, right - left + 1;
      BlockCount(rows, cols, top, bottom, left, right);
      MulWithin(height, width, range);
      if top == r0 && bottom == r1 && left == c0 && right == c1 {
        assert height == range && width == range;
      }
    } else {
      EmptyBlock(rows, cols, top, bottom, left, right);
    }
  }

  /** `range` grid cells of row `row`, starting at column `startCol`. */
  function RowSegment(rows: int, cols: int, range: int, row: int, startCol: int): set<Cell>
  {
    Block(rows, cols, row, row, startCol, startCol + range - 1)
  }

  /** `range` grid cells of column `col`, starting at row `startRow`. */
  function ColumnSegment(rows: int, cols: int, range: int, col: int, startRow: int): set<Cell>
  {
    Block(rows, cols, startRow, startRow + range - 1, col, col)
  }

  /** The trailing row of prev's window, over prev's columns, when the row changed. */
  function RowDropped(rows: int, cols: int, range: int, prev: Cell, cur: Cell): set<Cell>
  {
    var h := range / 2;
    if prev.0 != cur.0 then RowSegment(rows, cols, range, prev.0 + h * (prev.0 - cur.0), prev.1 - h) else {}
  }

  /** The leading row of cur's window, over cur's columns, when the row changed. */
  function RowAdded(rows: int, cols: int, range: int, prev: Cell, cur: Cell): set<Cell>
  {
    var h := range / 2;
    if prev.0 != cur.0 then RowSegment(rows, cols, range, cur.0 - h * (prev.0 - cur.0), cur.1 - h) else {}
  }

  /** The trailing column of prev's window, over prev's rows, when the column changed. */
  function ColumnDropped(rows: int, cols: int, range: int, prev: Cell, cur: Cell): set<Cell>
  {
    var h := range / 2;
    if prev.1 != cur.1 then ColumnSegment(rows, cols, range, prev.1 + h * (prev.1 - cur.1), prev.0 - h) else {}
  }

  /** The leading column of cur's window, over cur's rows, when the column changed. */
  function ColumnAdded(rows: int, cols: int, range: int, prev: Cell, cur: Cell): set<Cell>
  {
    var h := range / 2;
    if prev.1 != cur.1 then ColumnSegment(rows, cols, range, cur.1 - h * (prev.1 - cur.1), cur.0 - h) else {}
  }

  /**
   * The row step of an incremental reload from `prev` to `cur`: the trailing
   * row of prev's window is dropped and the leading row of cur's window added;
   * each is offset from its centre by range/2 times the step.
   */
  function RowStep(rows: int, cols: int, range: int, keys: set<Cell>, prev: Cell, cur: Cell): set<Cell>
  {
    keys - RowDropped(rows, cols, range, prev, cur) + RowAdded(rows, cols, range, prev, cur)
  }

  /** The column step of an incremental reload, the same with rows and columns exchanged. */
  function ColumnStep(rows: int, cols: int, range: int, keys: set<Cell>, prev: Cell, cur: Cell): set<Cell>
  {
    keys - ColumnDropped(rows, cols, range, prev, cur) + ColumnAdded(rows, cols, range, prev, cur)
  }

  /** The row step when the row changed, with its two rows and their first columns named. */
  lemma RowStepBounds(rows: int, cols: int, range: int, keys: set<Cell>, prev: Cell, cur: Cell,
                      dropRow: int, dropCol: int, addRow: int, addCol: int)
    requires prev.0 != cur.0
    requires dropRow == prev.0 + range / 2 * (prev.0 - cur.0) && dropCol == prev.1 - range / 2
    requires addRow == cur.0 - range / 2 * (prev.0 - cur.0) && addCol == cur.1 - range / 2
    ensures RowDropped(rows, cols, range, prev, cur) == RowSegment(rows, cols, range, dropRow, dropCol)
    ensures RowStep(rows, cols, range, keys, prev, cur)
            == keys - RowSegment(rows, cols, range, dropRow, dropCol) + RowSegment(rows, cols, range, addRow, addCol)
  {
  }

  /** The column step when the column changed, with its two columns and their first rows named. */
  lemma ColumnStepBounds(rows: int, cols: int, range: int, keys: set<Cell>, prev: Cell, cur: Cell,
                         dropCol: int, dropRow: int, addCol: int, addRow: int)
    requires prev.1 != cur.1
    requires dropCol == prev.1 + range / 2 * (prev.1 - cur.1) && dropRow == prev.0 - range / 2
    requires addCol == cur.1 - range / 2 * (prev.1 - cur.1) && addRow == cur.0 - range / 2
    ensures ColumnDropped(rows, cols, range, prev, cur) == ColumnSegment(rows, cols, range, dropCol, dropRow)
    ensures ColumnStep(rows, cols, range, keys, prev, cur)
            == keys - ColumnSegment(rows, cols, range, dropCol, dropRow) + ColumnSegment(rows, cols, range, addCol, addRow)
  {
  }

  /** Without a row change the row step keeps the keys, and likewise for columns. */
  lemma StepsWithoutChange(rows: int, cols: int, range: int, keys: set<Cell>, prev: Cell, cur: Cell)
    ensures prev.0 == cur.0 ==> RowDropped(rows, cols, range, prev, cur) == {} && RowStep(rows, cols, range, keys, prev, cur) == keys
    ensures prev.1 == cur.1 ==> ColumnDropped(rows, cols, range, prev, cur) == {} && ColumnStep(rows, cols, range, keys, prev, cur) == keys
  {
  }

  /** The loaded keys after an incremental reload: the row step, then the column step. */
  function ShiftedKeys(rows: int, cols: int, range: int, keys: set<Cell>, prev: Cell, cur: Cell): set<Cell>
  {
    ColumnStep(rows, cols, range, RowStep(rows, cols, range, keys, prev, cur), prev, cur)
  }

  /**
   * Shape of the keys after the row step of a shift from the window of `prev`:
   * the rows both windows share, over prev's columns, plus the rows only cur's
   * window has, over cur's columns.
   */
  ghost predicate AfterRowStep(h: int, prev: Cell, cur: Cell, x: Cell)
  {
    (prev.0 - h <= x.0 <= prev.0 + h && cur.0 - h <= x.0 <= cur.0 + h && prev.1 - h <= x.1 <= prev.1 + h) ||
    (!(prev.0 - h <= x.0 <= prev.0 + h) && cur.0 - h <= x.0 <= cur.0 + h && cur.1 - h <= x.1 <= cur.1 + h)
  }

  lemma RowStage(rows: int, cols: int, range: int, prev: Cell, cur: Cell, x: Cell)
    requires range >= 1 && range % 2 == 1
    requires -1 <= prev.0 - cur.0 <= 1
    ensures x in RowStep(rows, cols, range, Window(rows, cols, range, prev), prev, cur)
            <==> InGrid(rows, cols, x) && AfterRowStep(range / 2, prev, cur, x)
  {
    var h := range / 2;
    var dr := prev.0 - cur.0;
    assert h * dr == if dr == 1 then h else if dr == -1 then -h else 0;
  }

  lemma ColumnStage(rows: int, cols: int, range: int, afterRows: set<Cell>, prev: Cell, cur: Cell, x: Cell)
    requires range >= 1 && range % 2 == 1
    requires -1 <= prev.0 - cur.0 <= 1 && -1 <= prev.1 - cur.1 <= 1
    requires x in afterRows <==> InGrid(rows, cols, x) && AfterRowStep(range / 2, prev, cur, x)
    ensures x in ColumnStep(rows, cols, range, afterRows, prev, cur) <==> x in Window(rows, cols, range, cur)
  {
    var h := range / 2;
    var dc := prev.1 - cur.1;
    assert h * dc == if dc == 1 then h else if dc == -1 then -h else 0;
  }

  /**
   * For an odd range, shifting the window of `prev` to an adjacent cell
   * (sideways, vertically or diagonally) yields exactly the window of `cur`,
   * also where the grid's edges clip the windows.
   */
  lemma ShiftKeepsWindow(rows: int, cols: int, range: int, prev: Cell, cur: Cell)
    requires range >= 1 && range % 2 == 1
    requires -1 <= prev.0 - cur.0 <= 1 && -1 <= prev.1 - cur.1 <= 1
    ensures ShiftedKeys(rows, cols, range, Window(rows, cols, range, prev), prev, cur)
            == Window(rows, cols, range, cur)
  {
    var afterRows := RowStep(rows, cols, range, Window(rows, cols, range, prev), prev, cur);
    forall x ensures x in ColumnStep(rows, cols, range, afterRows, prev, cur) <==> x in Window(rows, cols, range, cur) {
      RowStage(rows, cols, range, prev, cur, x);
      ColumnStage(rows, cols, range, afterRows, prev, cur, x);
    }
  }

  /**
   * For an odd range and an adjacent move, the row and the column a shift
   * drops lie outside the window of `cur`: no level of the new window is
   * unloaded on the way.
   */
  lemma ShiftDropsOutsideWindow(rows: int, cols: int, range: int, prev: Cell, cur: Cell, x: Cell)
    requires range >= 1 && range % 2 == 1
    requires -1 <= prev.0 - cur.0 <= 1 && -1 <= prev.1 - cur.1 <= 1
    requires x in Window(rows, cols, range, cur)
    ensures x !in RowDropped(rows, cols, range, prev, cur)
    ensures x !in ColumnDropped(rows, cols, range, prev, cur)
  {
    var h := range / 2;
    var dr, dc := prev.0 - cur.0, prev.1 - cur.1;
    assert h * dr == if dr == 1 then h else if dr == -1 then -h else 0;
    assert h * dc == if dc == 1 then h else if dc == -1 then -h else 0;
  }

  /**
   * An incremental reload of a map holding exactly the window of `prev`, for
   * an odd range and an adjacent `cur`, holds exactly the window of `cur`, and
   * when it keeps every entry outside the dropped row and column, every entry
   * still loaded afterwards is the one that was loaded before.
   */
  lemma NeighbourShift<V>(m0: map<Cell, V>, m1: map<Cell, V>, rows: int, cols: int, range: int, prev: Cell, cur: Cell)
    requires range >= 1 && range % 2 == 1
    requires -1 <= prev.0 - cur.0 <= 1 && -1 <= prev.1 - cur.1 <= 1
    requires m0.Keys == Window(rows, cols, range, prev)
    requires m1.Keys == ShiftedKeys(rows, cols, range, m0.Keys, prev, cur)
    requires forall k ::
               (k in m0 && k !in RowDropped(rows, cols, range, prev, cur) && k !in ColumnDropped(rows, cols, range, prev, cur))
               ==> k in m1 && m1[k] == m0[k]
    ensures m1.Keys == Window(rows, cols, range, cur)
    ensures forall k :: k in m0 && k in m1 ==> m1[k] == m0[k]
  {
    ShiftKeepsWindow(rows, cols, range, prev, cur);
    forall k | k in m0 && k in m1 ensures m1[k] == m0[k] {
      ShiftDropsOutsideWindow(rows, cols, range, prev, cur, k);
    }
  }

  /**
   * A step from column c to c + 1 drops exactly the column c - range/2 of the
   * old window and adds exactly the column c + 1 + range/2, over the window's rows.
   */
  lemma ColumnStepDifference(rows: int, cols: int, range: int, r: int, c: int)
    requires range >= 1 && range % 2 == 1
    ensures Window(rows, cols, range, (r, c)) - Window(rows, cols, range, (r, c + 1))
            == ColumnSegment(rows, cols, range, c - range / 2, r - range / 2)
    ensures Window(rows, cols, range, (r, c + 1)) - Window(rows, cols, range, (r, c))
            == ColumnSegment(rows, cols, range, c + 1 + range / 2, r - range / 2)
  {
    var before, after := Window(rows, cols, range, (r, c)), Window(rows, cols, range, (r, c + 1));
    forall x ensures x in before - after <==> x in ColumnSegment(rows, cols, range, c - range / 2, r - range / 2) {
    }
    forall x ensures x in after - before <==> x in ColumnSegment(rows, cols, range, c + 1 + range / 2, r - range / 2) {
    }
  }

  /**
   * A step from row r to r + 1 drops exactly the row r - range/2 of the old
   * window and adds exactly the row r + 1 + range/2, over the window's columns.
   */
  lemma RowStepDifference(rows: int, cols: int, range: int, r: int, c: int)
    requires range >= 1 && range % 2 == 1
    ensures Window(rows, cols, range, (r, c)) - Window(rows, cols, range, (r + 1, c))
            == RowSegment(rows, cols, range, r - range / 2, c - range / 2)
    ensures Window(rows, cols, range, (r + 1, c)) - Window(rows, cols, range, (r, c))
            == RowSegment(rows, cols, range, r + 1 + range / 2, c - range / 2)
  {
    var before, after := Window(rows, cols, range, (r, c)), Window(rows, cols, range, (r + 1, c));
    forall x ensures x in before - after <==> x in RowSegment(rows, cols, range, r - range / 2, c - range / 2) {
    }
    forall x ensures x in after - before <==> x in RowSegment(rows, cols, range, r + 1 + range / 2, c - range / 2) {
    }
  }

  /**
   * With an even range the shift formula does not keep the window: on a 9 x 9
   * grid with range 2, moving from (4, 4) to (4, 5) loads (3, 6), which lies
   * outside the window of (4, 5).
   */
  lemma EvenRangeShiftLeavesWindow()
    ensures (3, 6) in ShiftedKeys(9, 9, 2, Window(9, 9, 2, (4, 4)), (4, 4), (4, 5))
    ensures (3, 6) !in Window(9, 9, 2, (4, 5))
  {
    assert (3, 6) in ColumnSegment(9, 9, 2, 6, 3);
  }

  /** On a 5 x 5 grid with range 3, the window of (2, 2) is rows 1-3 x columns 1-3. */
  lemma ScenarioFullWindow()
    ensures Window(5, 5, 3, (2, 2)) == {(1, 1), (1, 2), (1, 3), (2, 1), (2, 2), (2, 3), (3, 1), (3, 2), (3, 3)}
  {
    var w := Window(5, 5, 3, (2, 2));
    forall x ensures x in w <==> x in {(1, 1), (1, 2), (1, 3), (2, 1), (2, 2), (2, 3), (3, 1), (3, 2), (3, 3)} {
    }
  }

  /**
   * On the same grid, moving from (2, 2) to (2, 3) unloads column 1 and loads
   * column 4, rows 1-3 each, and leaves the window of (2, 3) loaded.
   */
  lemma ScenarioColumnShift()
    ensures Window(5, 5, 3, (2, 2)) - Window(5, 5, 3, (2, 3)) == {(1, 1), (2, 1), (3, 1)}
    ensures Window(5, 5, 3, (2, 3)) - Window(5, 5, 3, (2, 2)) == {(1, 4), (2, 4), (3, 4)}
    ensures ShiftedKeys(5, 5, 3, Window(5, 5, 3, (2, 2)), (2, 2), (2, 3)) == Window(5, 5, 3, (2, 3))
  {
    ColumnStepDifference(5, 5, 3, 2, 2);
    var gone, added := ColumnSegment(5, 5, 3, 1, 1), ColumnSegment(5, 5, 3, 4, 1);
    forall x ensures x in gone <==> x in {(1, 1), (2, 1), (3, 1)} {
    }
    forall x ensures x in added <==> x in {(1, 4), (2, 4), (3, 4)} {
    }
    ShiftKeepsWindow(5, 5, 3, (2, 2), (2, 3));
  }

  /** On the same grid, the window of (2, 3) is rows 1-3 x columns 2-4. */
  lemma ScenarioShiftedWindow()
    ensures Window(5, 5, 3, (2, 3)) == {(1, 2), (1, 3), (1, 4), (2, 2), (2, 3), (2, 4), (3, 2), (3, 3), (3, 4)}
  {
    var w := Window(5, 5, 3, (2, 3));
    forall x ensures x in w <==> x in {(1, 2), (1, 3), (1, 4), (2, 2), (2, 3), (2, 4), (3, 2), (3, 3), (3, 4)} {
    }
  }

  /** On the same grid, the window of the corner cell (0, 0) is clipped to four cells. */
  lemma ScenarioCornerWindow()
    ensures Window(5, 5, 3, (0, 0)) == {(0, 0), (0, 1), (1, 0), (1, 1)}
  {
    var w := Window(5, 5, 3, (0, 0));
    forall x ensures x in w <==> x in {(0, 0), (0, 1), (1, 0), (1, 1)} {
    }
  }
}
