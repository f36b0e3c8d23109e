/**
 * The grid level-streaming volume: it tracks the grid cell that contains the
 * player and keeps the levels of the window around that cell loaded. Each
 * Tick receives the player's position; the engine's level loader is replaced
 * by handles numbered in load order, and the unload signal by a log of the
 * handles told to unload.
 */
module Streaming {
  import opened Geometry
  import opened GridWindow

  /** Largest value of the source's 32-bit signed configuration integers. */
  const MaxInt32: int := 0x7fff_ffff

  /** Bound of the 32-bit unsigned components of the loaded-level keys. */
  const UInt32Limit: int := 0x1_0000_0000

  /**
   * The conversion of a 32-bit signed coordinate to an unsigned key component:
   * the one unsigned value congruent to `x` modulo 2^32, which is `x` itself
   * whenever `x` is non-negative.
   */
  function ToUnsigned(x: int): (u: int)
    requires -MaxInt32 - 1 <= x <= MaxInt32
    ensures 0 <= u < UInt32Limit
    ensures (u - x) % UInt32Limit == 0
    ensures 0 <= x ==> u == x
  {
    if x < 0 then x + UInt32Limit else x
  }

  /** Appending a signal keeps every signal already sent after position `n`. */
  lemma SignalStays<T>(before: seq<T>, level: T, n: int)
    requires 0 <= n <= |before|
    ensures forall x :: x in before[n..] ==> x in (before + [level])[n..]
    ensures level in (before + [level])[n..]
  {
    assert (before + [level])[n..] == before[n..] + [level];
  }

  /** An opaque streamed-level instance: the `serial`-th load, placed at `at`. */
  datatype Handle = LevelInstance(serial: nat, at: Vec2)

  /**
   * Every level `before` held that `after` no longer holds under the same key
   * (the key was removed, or now holds another instance) appears in `log`.
   */
  ghost predicate SignalledGone(before: map<Cell, Handle>, after: map<Cell, Handle>, log: seq<Handle>)
  {
    forall k :: k in before && !(k in after && after[k] == before[k]) ==> before[k] in log
  }

  /**
   * Every level `after` holds that `before` did not hold under the same key
   * comes from load number `issued` or a later one: it is a new instance.
   */
  ghost predicate LoadedSince(before: map<Cell, Handle>, after: map<Cell, Handle>, issued: int)
  {
    forall k :: k in after && !(k in before && before[k] == after[k]) ==> issued <= after[k].serial
  }

  /** Two steps that each signal what they drop signal, together, all that is dropped. */
  lemma GoneChain(m0: map<Cell, Handle>, m1: map<Cell, Handle>, m2: map<Cell, Handle>,
                  log0: seq<Handle>, log1: seq<Handle>, log2: seq<Handle>)
    requires log0 <= log1 <= log2
    requires SignalledGone(m0, m1, log1[|log0|..])
    requires SignalledGone(m1, m2, log2[|log1|..])
    ensures SignalledGone(m0, m2, log2[|log0|..])
  {
    assert log2[|log0|..] == log1[|log0|..] + log2[|log1|..];
  }

  /** Two steps that each load only new instances load, together, only new instances. */
  lemma SinceChain(m0: map<Cell, Handle>, m1: map<Cell, Handle>, m2: map<Cell, Handle>, a: int, b: int)
    requires a <= b
    requires LoadedSince(m0, m1, a) && LoadedSince(m1, m2, b)
    ensures LoadedSince(m0, m2, a)
  {
  }

  /**
   * Unloading the keys `dropped` and then only adding entries drops what the
   * unload signalled and loads only what the adding step loaded; when the
   * unload signalled only levels it dropped, none of them is held at the end.
   */
  lemma UnloadThenLoad(m0: map<Cell, Handle>, m1: map<Cell, Handle>, m2: map<Cell, Handle>, dropped: set<Cell>,
                       log0: seq<Handle>, log1: seq<Handle>, n0: int, n1: int)
    requires log0 <= log1 && n0 <= n1
    requires m1 == m0 - dropped && SignalledGone(m0, m1, log1[|log0|..])
    requires SignalledFrom(m0, log1[|log0|..]) && NoneSignalled(m1, log1[|log0|..])
    requires forall k :: k in m0 ==> m0[k].serial < n0
    requires m1.Items <= m2.Items && LoadedSince(m1, m2, n1)
    ensures SignalledGone(m0, m2, log1[|log0|..]) && LoadedSince(m0, m2, n0)
    ensures SignalledFrom(m0, log1[|log0|..]) && NoneSignalled(m2, log1[|log0|..])
  {
    SignalsPredate(m0, log1[|log0|..], n0);
    NoneSignalledChain(m1, m2, log0, log1, log1, n0);
    OneWay(m1, m2, [], n0);
    GoneChain(m0, m1, m2, log0, log1, log1);
    SinceChain(m0, m1, m2, n0, n1);
  }

  /** Every handle signalled in `log` was held by `before`. */
  ghost predicate SignalledFrom(before: map<Cell, Handle>, log: seq<Handle>)
  {
    forall h :: h in log ==> h in before.Values
  }

  /** No handle `after` holds is signalled in `log`. */
  ghost predicate NoneSignalled(after: map<Cell, Handle>, log: seq<Handle>)
  {
    forall k :: k in after ==> after[k] !in log
  }

  /** No two keys hold handles with the same serial. */
  ghost predicate DistinctSerials(m: map<Cell, Handle>)
  {
    forall k, k' :: k in m && k' in m && m[k].serial == m[k'].serial ==> k == k'
  }

  /** Every entry of `small` is an entry of `big`. */
  ghost predicate Within(small: map<Cell, Handle>, big: map<Cell, Handle>)
  {
    forall k :: k in small ==> k in big && big[k] == small[k]
  }

  /**
   * Two unloading steps that each signal only levels they held and no level
   * they keep signal, together, only levels held at the start and none kept.
   */
  lemma UnloadOnlyChain(m0: map<Cell, Handle>, m1: map<Cell, Handle>, m2: map<Cell, Handle>,
                        log0: seq<Handle>, log1: seq<Handle>, log2: seq<Handle>)
    requires log0 <= log1 <= log2
    requires Within(m1, m0) && Within(m2, m1)
    requires SignalledFrom(m0, log1[|log0|..]) && NoneSignalled(m1, log1[|log0|..])
    requires SignalledFrom(m1, log2[|log1|..]) && NoneSignalled(m2, log2[|log1|..])
    ensures SignalledFrom(m0, log2[|log0|..]) && NoneSignalled(m2, log2[|log0|..])
  {
    assert log2[|log0|..] == log1[|log0|..] + log2[|log1|..];
    forall h | h in log2[|log1|..] ensures h in m0.Values {
      var k :| k in m1 && m1[k] == h;
      assert m0[k] == h;
    }
  }

  /** Signals of levels held by a map whose serials are below `n` have serials below `n`. */
  lemma SignalsPredate(m: map<Cell, Handle>, log: seq<Handle>, n: int)
    requires SignalledFrom(m, log)
    requires forall k :: k in m ==> m[k].serial < n
    ensures forall h :: h in log ==> h.serial < n
  {
    forall h | h in log ensures h.serial < n {
      var k :| k in m && m[k] == h;
    }
  }

  /**
   * Signals that predate load `n`, followed by a step that keeps entries or
   * loads new instances from `n` on and signals none of what it keeps: no
   * level held at the end has been signalled by either step.
   */
  lemma NoneSignalledChain(m1: map<Cell, Handle>, m2: map<Cell, Handle>,
                           log0: seq<Handle>, log1: seq<Handle>, log2: seq<Handle>, n: int)
    requires log0 <= log1 <= log2
    requires NoneSignalled(m1, log1[|log0|..])
    requires forall h :: h in log1[|log0|..] ==> h.serial < n
    requires LoadedSince(m1, m2, n) && NoneSignalled(m2, log2[|log1|..])
    ensures NoneSignalled(m2, log2[|log0|..])
  {
    assert log2[|log0|..] == log1[|log0|..] + log2[|log1|..];
  }

  /**
   * Removing one key from a map whose handles carry distinct serials signals
   * exactly the handle that key held: it was held, and no remaining key holds it.
   */
  lemma RemoveOne(m: map<Cell, Handle>, key: Cell)
    requires key in m && DistinctSerials(m)
    ensures SignalledGone(m, m - {key}, [m[key]])
    ensures SignalledFrom(m, [m[key]]) && NoneSignalled(m - {key}, [m[key]])
    ensures DistinctSerials(m - {key})
  {
  }

  /**
   * Part-way through unloading every level of `m0`: `m` holds the entries of
   * `m0` still `pending`, the signals since `log0` are levels of `m0` and
   * include every level no longer pending, and none of them is still held.
   */
  ghost predicate Draining(m0: map<Cell, Handle>, m: map<Cell, Handle>, log0: seq<Handle>, log: seq<Handle>,
                           pending: set<Cell>)
  {
    && m.Keys == pending && Within(m, m0) && log0 <= log
    && (forall k :: k in m0 && k !in pending ==> m0[k] in log[|log0|..])
    && SignalledFrom(m0, log[|log0|..]) && NoneSignalled(m, log[|log0|..])
  }

  /** Unloading one pending key, signalling exactly its level, keeps `Draining`. */
  lemma DrainStep(m0: map<Cell, Handle>, m1: map<Cell, Handle>, m2: map<Cell, Handle>,
                  log0: seq<Handle>, log1: seq<Handle>, log2: seq<Handle>, pending: set<Cell>, key: Cell)
    requires Draining(m0, m1, log0, log1, pending) && key in pending
    requires m2 == m1 - {key} && log2 == log1 + [m1[key]] && NoneSignalled(m2, [m1[key]])
    ensures Draining(m0, m2, log0, log2, pending - {key})
  {
    SignalStays(log1, m1[key], |log0|);
    assert log2[|log1|..] == [m1[key]];
    assert m1[key] in m1.Values;
    UnloadOnlyChain(m0, m1, m2, log0, log1, log2);
  }

  /** A step that only adds entries drops nothing; one that only removes entries loads nothing. */
  lemma OneWay(m1: map<Cell, Handle>, m2: map<Cell, Handle>, log: seq<Handle>, issued: int)
    ensures m1.Items <= m2.Items ==> SignalledGone(m1, m2, log)
    ensures m2.Items <= m1.Items ==> LoadedSince(m1, m2, issued)
  {
    if m1.Items <= m2.Items {
      forall k | k in m1 ensures k in m2 && m2[k] == m1[k] {
        assert (k, m1[k]) in m2.Items;
      }
    }
    if m2.Items <= m1.Items {
      forall k | k in m2 ensures k in m1 && m1[k] == m2[k] {
        assert (k, m2[k]) in m1.Items;
      }
    }
  }

  class GridLevelStreamingVolume {
    // configuration, fixed at spawn
    const cols: int
    const rows: int
    const range: int
    const extents: Vec2
    const origin: Vec2
    // derived at BeginPlay and never changed afterwards
    const cellSize: Vec2
    const cells: array2<Vec2>
    // tracking state and loaded levels
    var currentCell: Cell
    var prevCell: Cell
    var loaded: map<Cell, Handle>
    // the loader and unload collaborators, as observable effects
    var loadsIssued: nat
    var unloadSignals: seq<Handle>

    /** The configuration and the cell-centre table built at BeginPlay. */
    ghost predicate Configured()
      reads cells
    {
      && 0 < rows <= MaxInt32 && 0 < cols <= MaxInt32
      && 1 <= range <= MaxInt32 && range % 2 == 1
      && cellSize == CellSizeOf(extents, rows, cols)
      && cells.Length0 == rows && cells.Length1 == cols
      && (forall i, j :: 0 <= i < rows && 0 <= j < cols ==> cells[i, j] == CellCentre(origin, cellSize, i, j))
    }

    /** The tracked and previous cells are each unset or a grid cell. */
    ghost predicate Tracking()
      reads this`currentCell, this`prevCell
    {
      && (currentCell == Unset || InGrid(rows, cols, currentCell))
      && (prevCell == Unset || InGrid(rows, cols, prevCell))
    }

    /**
     * Every loaded level belongs to a grid cell, was placed at that cell's
     * centre, and came from one of the loads issued so far.
     */
    ghost predicate Stocked()
      reads this`loaded, this`loadsIssued
    {
      && (forall k :: k in loaded ==>
            && InGrid(rows, cols, k)
            && loaded[k].at == CellCentre(origin, cellSize, k.0, k.1)
            && loaded[k].serial < loadsIssued)
      && DistinctSerials(loaded)
    }

    /** Everything that holds between calls and also inside a reload. */
    ghost predicate Wellformed()
      reads this, cells
    {
      Configured() && Tracking() && Stocked()
    }

    /** The class invariant: while a cell is tracked, exactly its window is loaded. */
    ghost predicate Valid()
      reads this, cells
    {
      Wellformed() && (currentCell != Unset ==> loaded.Keys == Window(rows, cols, range, currentCell))
    }

    /** Whether position `p` lies in cell `c`. */
    predicate Hit(c: Cell, p: Vec2)
    {
      Overlapping(CellCentre(origin, cellSize, c.0, c.1), cellSize, p)
    }

    /** `c` is the first grid cell, in row-major order, that contains `p`. */
    ghost predicate FirstInGrid(c: Cell, p: Vec2)
    {
      InGrid(rows, cols, c) && Hit(c, p) &&
      forall d :: InGrid(rows, cols, d) && RowMajorBefore(d, c) ==> !Hit(d, p)
    }

    ghost predicate NoneInGrid(p: Vec2)
    {
      forall d :: InGrid(rows, cols, d) ==> !Hit(d, p)
    }

    /** `c` is the first in-grid neighbour of `centre`, in row-major order, that contains `p`. */
    ghost predicate FirstNeighbour(centre: Cell, c: Cell, p: Vec2)
    {
      IsNeighbour(c, centre) && InGrid(rows, cols, c) && Hit(c, p) &&
      forall d :: IsNeighbour(d, centre) && InGrid(rows, cols, d) && RowMajorBefore(d, c) ==> !Hit(d, p)
    }

    ghost predicate NoNeighbour(centre: Cell, p: Vec2)
    {
      forall d :: IsNeighbour(d, centre) && InGrid(rows, cols, d) ==> !Hit(d, p)
    }

    /**
     * The row-major scan's first match is the one cell of the lattice that
     * contains `p`: for a grid cell `c`, being the first grid cell containing
     * `p` is the same as being `CellAt(p)`.
     */
    lemma FirstInGridIsCellAt(c: Cell, p: Vec2)
      requires cellSize.x > 0.0 && cellSize.y > 0.0
      requires InGrid(rows, cols, c)
      ensures FirstInGrid(c, p) <==> c == CellAt(origin, cellSize, p)
    {
      var at := CellAt(origin, cellSize, p);
      if c == at {
        forall d | InGrid(rows, cols, d) && RowMajorBefore(d, c) ensures !Hit(d, p) {
        }
      }
    }

    /** Spawning with the exposed configuration, followed by BeginPlay. */
    constructor (rows: int, cols: int, range: int, extents: Vec2, origin: Vec2)
      requires 0 < rows <= MaxInt32 && 0 < cols <= MaxInt32
      requires 1 <= range <= MaxInt32 && range % 2 == 1
      ensures Valid() && fresh(cells)
      ensures this.rows == rows && this.cols == cols && this.range == range
      ensures this.extents == extents && this.origin == origin
      ensures cellSize == Vec2(extents.x / cols as real, extents.y / rows as real)
      ensures cells.Length0 == rows && cells.Length1 == cols
      ensures forall i, j :: 0 <= i < rows && 0 <= j < cols ==>
                cells[i, j] == Vec2(origin.x + j as real * cellSize.x, origin.y + i as real * cellSize.y)
      ensures currentCell == Unset && prevCell == Unset
      ensures loaded == map[] && loadsIssued == 0 && unloadSignals == []
    {
      this.rows, this.cols, this.range := rows, cols, range;
      this.extents, this.origin := extents, origin;
      var size := CellSizeOf(extents, rows, cols);
      cellSize := size;
      var grid := new Vec2[rows, cols];
      var i := 0;
      while i < rows
        invariant 0 <= i <= rows
        invariant forall a, b :: 0 <= a < i && 0 <= b < cols ==> grid[a, b] == CellCentre(origin, size, a, b)
      {
        var j := 0;
        while j < cols
          invariant 0 <= j <= cols
          invariant forall a, b :: 0 <= a < i && 0 <= b < cols ==> grid[a, b] == CellCentre(origin, size, a, b)
          invariant forall b :: 0 <= b < j ==> grid[i, b] == CellCentre(origin, size, i, b)
        {
          grid[i, j] := Vec2(size.x * j as real + origin.x, size.y * i as real + origin.y);
          j := j + 1;
        }
        i := i + 1;
      }
      cells := grid;
      currentCell, prevCell := Unset, Unset;
      loaded, loadsIssued, unloadSignals := map[], 0, [];
    }

    /**
     * Loads the level of (row, col) unless the coordinate is off the grid or
     * already loaded; the new instance is placed at the cell's centre.
     */
    method LoadLevelAt(row: int, col: int)
      requires Configured() && Stocked()
      modifies this`loaded, this`loadsIssued
      ensures Stocked()
      ensures loaded.Keys == old(loaded).Keys + Block(rows, cols, row, row, col, col)
      ensures old(loaded).Items <= loaded.Items
      ensures old(loadsIssued) <= loadsIssued && LoadedSince(old(loaded), loaded, old(loadsIssued))
      ensures if InGrid(rows, cols, (row, col)) && (row, col) !in old(loaded) then
                && loaded == old(loaded)[(row, col) := LevelInstance(old(loadsIssued), CellCentre(origin, cellSize, row, col))]
                && loadsIssued == old(loadsIssued) + 1
                && (forall k :: k in old(loaded) ==> old(loaded)[k] != loaded[(row, col)])
              else
                loaded == old(loaded) && loadsIssued == old(loadsIssued)
    {
      if row < 0 || col < 0 || row >= rows || col >= cols {
        return;
      }
      var key := (ToUnsigned(row), ToUnsigned(col));
      if key in loaded {
        return;
      }
      var position := cells[row, col];
      var level := LevelInstance(loadsIssued, position);
      loadsIssued := loadsIssued + 1;
      loaded := loaded[key := level];
    }

    /**
     * Unloads the level of (row, col) if it is loaded, signalling its handle;
     * an off-grid or absent coordinate changes nothing.
     */
    method UnloadLevelAt(row: int, col: int)
      requires Configured() && Stocked()
      modifies this`loaded, this`unloadSignals
      ensures Stocked()
      ensures loaded == old(loaded) - {(row, col)}
      ensures loaded == old(loaded) - Block(rows, cols, row, row, col, col)
      ensures if (row, col) in old(loaded) then
                unloadSignals == old(unloadSignals) + [old(loaded)[(row, col)]]
              else
                unloadSignals == old(unloadSignals)
      ensures !InGrid(rows, cols, (row, col)) ==> loaded == old(loaded) && unloadSignals == old(unloadSignals)
      ensures old(unloadSignals) <= unloadSignals
      ensures SignalledGone(old(loaded), loaded, unloadSignals[|old(unloadSignals)|..])
      ensures SignalledFrom(old(loaded), unloadSignals[|old(unloadSignals)|..])
      ensures NoneSignalled(loaded, unloadSignals[|old(unloadSignals)|..])
    {
      if row < 0 || col < 0 || row >= rows || col >= cols {
        return;
      }
      var key := (ToUnsigned(row), ToUnsigned(col));
      assert Block(rows, cols, row, row, col, col) == {key};
      if key in loaded {
        var levelToUnload := loaded[key];
        ghost var before, log := loaded, unloadSignals;
        RemoveOne(before, key);
        unloadSignals := unloadSignals + [levelToUnload];
        loaded := loaded - {key};
        assert unloadSignals[|log|..] == [levelToUnload];
        assert before == old(loaded) && log == old(unloadSignals);
      }
    }

    /** Loads `range` cells of row `row` from column `startCol`, keeping loaded ones as they are. */
    method LoadRowLevels(row: int, startCol: int)
      requires Configured() && Stocked()
      modifies this`loaded, this`loadsIssued
      ensures Stocked()
      ensures loaded.Keys == old(loaded).Keys + RowSegment(rows, cols, range, row, startCol)
      ensures old(loaded).Items <= loaded.Items
      ensures old(loadsIssued) <= loadsIssued && LoadedSince(old(loaded), loaded, old(loadsIssued))
    {
      var i := startCol;
      ghost var last := i - 1;
      while i < startCol + range
        invariant startCol <= i <= startCol + range && last == i - 1
        invariant Stocked()
        invariant loaded.Keys == old(loaded).Keys + Block(rows, cols, row, row, startCol, last)
        invariant old(loaded).Items <= loaded.Items
        invariant old(loadsIssued) <= loadsIssued && LoadedSince(old(loaded), loaded, old(loadsIssued))
      {
        ghost var before, m, n := loaded.Keys, loaded, loadsIssued;
        LoadLevelAt(row, i);
        SinceChain(old(loaded), m, loaded, old(loadsIssued), n);
        GrowByColumn(old(loaded).Keys, before, loaded.Keys, rows, cols, row, row, startCol, last, i);
        last, i := i, i + 1;
      }
      assert last == startCol + range - 1;
    }

    /** Loads `range` cells of column `col` from row `startRow`, keeping loaded ones as they are. */
    method LoadColumnLevels(col: int, startRow: int)
      requires Configured() && Stocked()
      modifies this`loaded, this`loadsIssued
      ensures Stocked()
      ensures loaded.Keys == old(loaded).Keys + ColumnSegment(rows, cols, range, col, startRow)
      ensures old(loaded).Items <= loaded.Items
      ensures old(loadsIssued) <= loadsIssued && LoadedSince(old(loaded), loaded, old(loadsIssued))
    {
      var i := startRow;
      ghost var last := i - 1;
      while i < startRow + range
        invariant startRow <= i <= startRow + range && last == i - 1
        invariant Stocked()
        invariant loaded.Keys == old(loaded).Keys + Block(rows, cols, startRow, last, col, col)
        invariant old(loaded).Items <= loaded.Items
        invariant old(loadsIssued) <= loadsIssued && LoadedSince(old(loaded), loaded, old(loadsIssued))
      {
        ghost var before, m, n := loaded.Keys, loaded, loadsIssued;
        LoadLevelAt(i, col);
        SinceChain(old(loaded), m, loaded, old(loadsIssued), n);
        GrowByRow(old(loaded).Keys, before, loaded.Keys, rows, cols, startRow, last, i, col, col);
        last, i := i, i + 1;
      }
      assert last == startRow + range - 1;
    }

    /** Unloads `range` cells of row `row` from column `startCol`; every other entry stays. */
    method UnloadRowLevels(row: int, startCol: int)
      requires Configured() && Stocked()
      modifies this`loaded, this`unloadSignals
      ensures Stocked()
      ensures loaded == old(loaded) - RowSegment(rows, cols, range, row, startCol)
      ensures old(unloadSignals) <= unloadSignals
      ensures SignalledGone(old(loaded), loaded, unloadSignals[|old(unloadSignals)|..])
      ensures SignalledFrom(old(loaded), unloadSignals[|old(unloadSignals)|..])
      ensures NoneSignalled(loaded, unloadSignals[|old(unloadSignals)|..])
    {
      var i := startCol;
      ghost var last := i - 1;
      while i < startCol + range
        invariant startCol <= i <= startCol + range && last == i - 1
        invariant Stocked()
        invariant loaded == old(loaded) - Block(rows, cols, row, row, startCol, last)
        invariant old(unloadSignals) <= unloadSignals
        invariant SignalledGone(old(loaded), loaded, unloadSignals[|old(unloadSignals)|..])
        invariant SignalledFrom(old(loaded), unloadSignals[|old(unloadSignals)|..])
        invariant NoneSignalled(loaded, unloadSignals[|old(unloadSignals)|..])
      {
        ghost var before, log := loaded, unloadSignals;
        UnloadLevelAt(row, i);
        GoneChain(old(loaded), before, loaded, old(unloadSignals), log, unloadSignals);
        UnloadOnlyChain(old(loaded), before, loaded, old(unloadSignals), log, unloadSignals);
        ShrinkByColumn(old(loaded), before, loaded, rows, cols, row, row, startCol, last, i);
        last, i := i, i + 1;
      }
      assert last == startCol + range - 1;
    }

    /** Unloads `range` cells of column `col` from row `startRow`; every other entry stays. */
    method UnloadColumnLevels(col: int, startRow: int)
      requires Configured() && Stocked()
      modifies this`loaded, this`unloadSignals
      ensures Stocked()
      ensures loaded == old(loaded) - ColumnSegment(rows, cols, range, col, startRow)
      ensures old(unloadSignals) <= unloadSignals
      ensures SignalledGone(old(loaded), loaded, unloadSignals[|old(unloadSignals)|..])
      ensures SignalledFrom(old(loaded), unloadSignals[|old(unloadSignals)|..])
      ensures NoneSignalled(loaded, unloadSignals[|old(unloadSignals)|..])
    {
      var i := startRow;
      ghost var last := i - 1;
      while i < startRow + range
        invariant startRow <= i <= startRow + range && last == i - 1
        invariant Stocked()
        invariant loaded == old(loaded) - Block(rows, cols, startRow, last, col, col)
        invariant old(unloadSignals) <= unloadSignals
        invariant SignalledGone(old(loaded), loaded, unloadSignals[|old(unloadSignals)|..])
        invariant SignalledFrom(old(loaded), unloadSignals[|old(unloadSignals)|..])
        invariant NoneSignalled(loaded, unloadSignals[|old(unloadSignals)|..])
      {
        ghost var before, log := loaded, unloadSignals;
        UnloadLevelAt(i, col);
        GoneChain(old(loaded), before, loaded, old(unloadSignals), log, unloadSignals);
        UnloadOnlyChain(old(loaded), before, loaded, old(unloadSignals), log, unloadSignals);
        ShrinkByRow(old(loaded), before, loaded, rows, cols, startRow, last, i, col, col);
        last, i := i, i + 1;
      }
      assert last == startRow + range - 1;
    }

    /** Unloads every loaded level, signalling each handle; the map ends empty. */
    method UnloadAllOldLevels()
      requires Configured() && Stocked()
      modifies this`loaded, this`unloadSignals
      ensures loaded == map[]
      ensures old(unloadSignals) <= unloadSignals
      ensures forall k :: k in old(loaded) ==> old(loaded)[k] in unloadSignals[|old(unloadSignals)|..]
      ensures SignalledFrom(old(loaded), unloadSignals[|old(unloadSignals)|..])
    {
      var pending := loaded.Keys;
      while pending != {}
        invariant Stocked()
        invariant Draining(old(loaded), loaded, old(unloadSignals), unloadSignals, pending)
        decreases pending
      {
        var key :| key in pending;
        ghost var m, log := loaded, unloadSignals;
        UnloadLevelAt(key.0, key.1);
        DrainStep(old(loaded), m, loaded, old(unloadSignals), log, unloadSignals, pending, key);
        pending := pending - {key};
      }
    }

    /** Loads the window around the tracked cell: `range` rows of `range` cells. */
    method LoadAllNewLevels()
      requires Configured() && Stocked()
      modifies this`loaded, this`loadsIssued
      ensures Stocked()
      ensures loaded.Keys == old(loaded).Keys + Window(rows, cols, range, currentCell)
      ensures old(loaded).Items <= loaded.Items
      ensures old(loadsIssued) <= loadsIssued && LoadedSince(old(loaded), loaded, old(loadsIssued))
    {
      var h := range / 2;
      var top, left := currentCell.0 - h, currentCell.1 - h;
      var i := top;
      ghost var right := left + range - 1;
      ghost var last := i - 1;
      while i <= currentCell.0 + h
        invariant top <= i <= currentCell.0 + h + 1 && last == i - 1
        invariant Stocked()
        invariant loaded.Keys == old(loaded).Keys + Block(rows, cols, top, last, left, right)
        invariant old(loaded).Items <= loaded.Items
        invariant old(loadsIssued) <= loadsIssued && LoadedSince(old(loaded), loaded, old(loadsIssued))
      {
        ghost var before, m, n := loaded.Keys, loaded, loadsIssued;
        LoadRowLevels(i, left);
        SinceChain(old(loaded), m, loaded, old(loadsIssued), n);
        GrowByRow(old(loaded).Keys, before, loaded.Keys, rows, cols, top, last, i, left, right);
        last, i := i, i + 1;
      }
      WindowBounds(rows, cols, range, currentCell, top, last, left, right);
    }

    /**
     * The row half of an incremental reload: when the row changed, the
     * trailing row of the previous window is unloaded and the leading row of
     * the current one loaded.
     */
    method ShiftRows()
      requires Configured() && Stocked()
      modifies this`loaded, this`loadsIssued, this`unloadSignals
      ensures Stocked()
      ensures loaded.Keys == RowStep(rows, cols, range, old(loaded).Keys, prevCell, currentCell)
      ensures forall k :: k in old(loaded) && k !in RowDropped(rows, cols, range, prevCell, currentCell)
                          ==> k in loaded && loaded[k] == old(loaded)[k]
      ensures old(unloadSignals) <= unloadSignals
      ensures SignalledGone(old(loaded), loaded, unloadSignals[|old(unloadSignals)|..])
      ensures SignalledFrom(old(loaded), unloadSignals[|old(unloadSignals)|..])
      ensures NoneSignalled(loaded, unloadSignals[|old(unloadSignals)|..])
      ensures old(loadsIssued) <= loadsIssued && LoadedSince(old(loaded), loaded, old(loadsIssued))
    {
      var h := range / 2;
      ghost var prev, cur := prevCell, currentCell;
      if prevCell.0 != currentCell.0 {
        var rowToUnload := prevCell.0 + h * (prevCell.0 - currentCell.0);
        var rowToLoad := currentCell.0 - h * (prevCell.0 - currentCell.0);
        var prevStart, curStart := prevCell.1 - h, currentCell.1 - h;
        ghost var dropped := RowSegment(rows, cols, range, rowToUnload, prevStart);
        RowStepBounds(rows, cols, range, loaded.Keys, prev, cur, rowToUnload, prevStart, rowToLoad, curStart);
        UnloadRowLevels(rowToUnload, prevStart);
        ghost var mid, log := loaded, unloadSignals;
        LoadRowLevels(rowToLoad, curStart);
        Survives(old(loaded), mid, loaded, dropped);
        UnloadThenLoad(old(loaded), mid, loaded, dropped, old(unloadSignals), log, old(loadsIssued), old(loadsIssued));
        assert prev == prevCell && cur == currentCell;
      } else {
        StepsWithoutChange(rows, cols, range, loaded.Keys, prevCell, currentCell);
      }
    }

    /**
     * The column half of an incremental reload, the same with rows and
     * columns exchanged.
     */
    method ShiftColumns()
      requires Configured() && Stocked()
      modifies this`loaded, this`loadsIssued, this`unloadSignals
      ensures Stocked()
      ensures loaded.Keys == ColumnStep(rows, cols, range, old(loaded).Keys, prevCell, currentCell)
      ensures forall k :: k in old(loaded) && k !in ColumnDropped(rows, cols, range, prevCell, currentCell)
                          ==> k in loaded && loaded[k] == old(loaded)[k]
      ensures old(unloadSignals) <= unloadSignals
      ensures SignalledGone(old(loaded), loaded, unloadSignals[|old(unloadSignals)|..])
      ensures SignalledFrom(old(loaded), unloadSignals[|old(unloadSignals)|..])
      ensures NoneSignalled(loaded, unloadSignals[|old(unloadSignals)|..])
      ensures old(loadsIssued) <= loadsIssued && LoadedSince(old(loaded), loaded, old(loadsIssued))
    {
      var h := range / 2;
      ghost var prev, cur := prevCell, currentCell;
      if prevCell.1 != currentCell.1 {
        var colToUnload := prevCell.1 + h * (prevCell.1 - currentCell.1);
        var colToLoad := currentCell.1 - h * (prevCell.1 - currentCell.1);
        var prevStart, curStart := prevCell.0 - h, currentCell.0 - h;
        ghost var dropped := ColumnSegment(rows, cols, range, colToUnload, prevStart);
        ColumnStepBounds(rows, cols, range, loaded.Keys, prev, cur, colToUnload, prevStart, colToLoad, curStart);
        UnloadColumnLevels(colToUnload, prevStart);
        ghost var mid, log := loaded, unloadSignals;
        LoadColumnLevels(colToLoad, curStart);
        Survives(old(loaded), mid, loaded, dropped);
        UnloadThenLoad(old(loaded), mid, loaded, dropped, old(unloadSignals), log, old(loadsIssued), old(loadsIssued));
        assert prev == prevCell && cur == currentCell;
      } else {
        StepsWithoutChange(rows, cols, range, loaded.Keys, prevCell, currentCell);
      }
    }

    /**
     * A full reload replaces the loaded levels by the window of the tracked
     * cell. An incremental one shifts the row and then the column edges from
     * the previous cell's window to the current one's (ShiftedKeys).
     */
    method ReloadAllLevels(fullReload: bool)
      requires Configured() && Stocked()
      modifies this`loaded, this`loadsIssued, this`unloadSignals
      ensures Stocked()
      ensures currentCell == old(currentCell) && prevCell == old(prevCell)
      ensures fullReload ==> loaded.Keys == Window(rows, cols, range, currentCell)
      ensures !fullReload ==> loaded.Keys == ShiftedKeys(rows, cols, range, old(loaded).Keys, prevCell, currentCell)
      ensures !fullReload ==>
                forall k :: k in old(loaded) && k !in RowDropped(rows, cols, range, prevCell, currentCell)
                              && k !in ColumnDropped(rows, cols, range, prevCell, currentCell)
                            ==> k in loaded && loaded[k] == old(loaded)[k]
      ensures old(unloadSignals) <= unloadSignals
      ensures fullReload ==> forall k :: k in old(loaded) ==> old(loaded)[k] in unloadSignals[|old(unloadSignals)|..]
      ensures fullReload ==> forall k :: k in loaded ==> old(loadsIssued) <= loaded[k].serial
      ensures SignalledGone(old(loaded), loaded, unloadSignals[|old(unloadSignals)|..])
      ensures old(loadsIssued) <= loadsIssued && LoadedSince(old(loaded), loaded, old(loadsIssued))
      ensures fullReload ==> SignalledFrom(old(loaded), unloadSignals[|old(unloadSignals)|..])
      ensures NoneSignalled(loaded, unloadSignals[|old(unloadSignals)|..])
    {
      if fullReload {
        UnloadAllOldLevels();
        ghost var m, log := loaded, unloadSignals;
        SignalsPredate(old(loaded), log[|old(unloadSignals)|..], old(loadsIssued));
        LoadAllNewLevels();
        NoneSignalledChain(m, loaded, old(unloadSignals), log, unloadSignals, old(loadsIssued));
      } else {
        ShiftRows();
        ghost var m, log, n := loaded, unloadSignals, loadsIssued;
        SignalsPredate(old(loaded), log[|old(unloadSignals)|..], old(loadsIssued));
        ShiftColumns();
        GoneChain(old(loaded), m, loaded, old(unloadSignals), log, unloadSignals);
        SinceChain(old(loaded), m, loaded, old(loadsIssued), n);
        NoneSignalledChain(m, loaded, old(unloadSignals), log, unloadSignals, old(loadsIssued));
      }
    }

    /** Scans the whole grid, row by row, for the first cell containing `p`. */
    method ScanGrid(p: Vec2) returns (found: bool, cell: Cell)
      requires Configured()
      ensures found ==> FirstInGrid(cell, p)
      ensures !found ==> NoneInGrid(p)
    {
      var i := 0;
      while i < rows
        invariant 0 <= i <= rows
        invariant forall d :: InGrid(rows, cols, d) && d.0 < i ==> !Hit(d, p)
      {
        var j := 0;
        while j < cols
          invariant 0 <= j <= cols
          invariant forall d :: InGrid(rows, cols, d) && (d.0 < i || (d.0 == i && d.1 < j)) ==> !Hit(d, p)
        {
          if Overlapping(cells[i, j], cellSize, p) {
            return true, (i, j);
          }
          j := j + 1;
        }
        i := i + 1;
      }
      return false, Unset;
    }

    /** Tests the in-grid neighbours of the tracked cell, row by row, for the first containing `p`. */
    method ScanNeighbours(p: Vec2) returns (found: bool, cell: Cell)
      requires Configured() && currentCell != Unset
      ensures found ==> FirstNeighbour(currentCell, cell, p)
      ensures !found ==> NoNeighbour(currentCell, p)
    {
      var i := currentCell.0 - 1;
      while i <= currentCell.0 + 1
        invariant currentCell.0 - 1 <= i <= currentCell.0 + 2
        invariant forall d :: IsNeighbour(d, currentCell) && InGrid(rows, cols, d) && d.0 < i ==> !Hit(d, p)
      {
        if 0 <= i < rows {
          var j := currentCell.1 - 1;
          while j <= currentCell.1 + 1
            invariant currentCell.1 - 1 <= j <= currentCell.1 + 2
            invariant forall d ::
                        (IsNeighbour(d, currentCell) && InGrid(rows, cols, d) && (d.0 < i || (d.0 == i && d.1 < j)))
                        ==> !Hit(d, p)
          {
            if 0 <= j < cols && !(i == currentCell.0 && j == currentCell.1) {
              if Overlapping(cells[i, j], cellSize, p) {
                return true, (i, j);
              }
            }
            j := j + 1;
          }
        }
        i := i + 1;
      }
      return false, Unset;
    }

    /**
     * Untracked search: the first grid cell containing `p` becomes the tracked
     * cell, the old tracked cell becomes the previous one, and the window is
     * fully reloaded; if no cell contains `p` nothing changes.
     */
    method FindPlayerOverlappingCell(p: Vec2)
      requires Valid()
      modifies this
      ensures Valid()
      ensures old(unloadSignals) <= unloadSignals && old(loadsIssued) <= loadsIssued
      ensures forall k :: k in loaded ==> loaded[k] !in unloadSignals[|old(unloadSignals)|..]
      ensures NoneInGrid(p) ==> unchanged(this)
      ensures !NoneInGrid(p) ==>
                && FirstInGrid(currentCell, p)
                && prevCell == old(currentCell)
                && loaded.Keys == Window(rows, cols, range, currentCell)
                && (forall k :: k in old(loaded) ==> old(loaded)[k] in unloadSignals[|old(unloadSignals)|..])
                && (forall h :: h in unloadSignals[|old(unloadSignals)|..] ==> h in old(loaded).Values)
                && (forall k :: k in loaded ==> old(loadsIssued) <= loaded[k].serial)
                && (forall k :: k in old(loaded) && k in loaded ==> loaded[k] != old(loaded)[k])
    {
      var found, cell := ScanGrid(p);
      if found {
        prevCell := currentCell;
        currentCell := cell;
        ghost var start, log, n := loaded, unloadSignals, loadsIssued;
        assert start == old(loaded) && log == old(unloadSignals) && n == old(loadsIssued);
        ReloadAllLevels(true);
      }
    }

    /**
     * Neighbour search: the first in-grid neighbour of the tracked cell that
     * contains `p` becomes the tracked cell and the window is shifted to it;
     * `moved` says whether one was found, and if not nothing changes.
     */
    method CheckIfPlayerOverlappingInNeighbours(p: Vec2) returns (moved: bool)
      requires Valid() && currentCell != Unset
      modifies this
      ensures Valid()
      ensures old(unloadSignals) <= unloadSignals && old(loadsIssued) <= loadsIssued
      ensures forall k :: k in loaded ==> loaded[k] !in unloadSignals[|old(unloadSignals)|..]
      ensures moved <==> !NoNeighbour(old(currentCell), p)
      ensures moved ==>
                && FirstNeighbour(old(currentCell), currentCell, p)
                && prevCell == old(currentCell)
                && loaded.Keys == Window(rows, cols, range, currentCell)
                && (forall k :: k in old(loaded) && k in loaded ==> loaded[k] == old(loaded)[k])
                && (forall k :: k in old(loaded) && k !in loaded ==> old(loaded)[k] in unloadSignals[|old(unloadSignals)|..])
                && (forall k :: k in loaded && k !in old(loaded) ==> old(loadsIssued) <= loaded[k].serial)
      ensures !moved ==> unchanged(this)
    {
      var found, cell := ScanNeighbours(p);
      if found {
        prevCell := currentCell;
        currentCell := cell;
        ghost var start, log, n := loaded, unloadSignals, loadsIssued;
        assert start == old(loaded) && log == old(unloadSignals) && n == old(loadsIssued);
        ReloadAllLevels(false);
        NeighbourShift(start, loaded, rows, cols, range, prevCell, currentCell);
        return true;
      }
      return false;
    }

    /**
     * One frame with the player at `p`. Untracked: full search. Tracked: keep
     * the cell if it still contains `p`, else move to the first neighbour that
     * does, else drop the tracking (the loaded levels stay until the next full
     * search).
     */
    method Tick(p: Vec2)
      requires Valid()
      modifies this
      ensures Valid()
      ensures old(unloadSignals) <= unloadSignals && old(loadsIssued) <= loadsIssued
      ensures forall k :: k in loaded ==> loaded[k] !in unloadSignals[|old(unloadSignals)|..]
      ensures prevCell == old(prevCell) || prevCell == old(currentCell)
      ensures old(currentCell) == Unset && NoneInGrid(p) ==> unchanged(this)
      ensures old(currentCell) == Unset && !NoneInGrid(p) ==>
                && FirstInGrid(currentCell, p)
                && prevCell == Unset
                && loaded.Keys == Window(rows, cols, range, currentCell)
                && (forall k :: k in old(loaded) ==> old(loaded)[k] in unloadSignals[|old(unloadSignals)|..])
                && (forall h :: h in unloadSignals[|old(unloadSignals)|..] ==> h in old(loaded).Values)
                && (forall k :: k in loaded ==> old(loadsIssued) <= loaded[k].serial)
                && (forall k :: k in old(loaded) && k in loaded ==> loaded[k] != old(loaded)[k])
      ensures old(currentCell) != Unset && Hit(old(currentCell), p) ==> unchanged(this)
      ensures old(currentCell) != Unset && !Hit(old(currentCell), p) && !NoNeighbour(old(currentCell), p) ==>
                && FirstNeighbour(old(currentCell), currentCell, p)
                && prevCell == old(currentCell)
                && loaded.Keys == Window(rows, cols, range, currentCell)
                && (forall k :: k in old(loaded) && k in loaded ==> loaded[k] == old(loaded)[k])
                && (forall k :: k in old(loaded) && k !in loaded ==> old(loaded)[k] in unloadSignals[|old(unloadSignals)|..])
                && (forall k :: k in loaded && k !in old(loaded) ==> old(loadsIssued) <= loaded[k].serial)
      ensures old(currentCell) != Unset && !Hit(old(currentCell), p) && NoNeighbour(old(currentCell), p) ==>
                && currentCell == Unset
                && prevCell == old(prevCell)
                && loaded == old(loaded)
                && loadsIssued == old(loadsIssued) && unloadSignals == old(unloadSignals)
    {
      if currentCell.0 == -1 || currentCell.1 == -1 {
        FindPlayerOverlappingCell(p);
      } else {
        if !Overlapping(cells[currentCell.0, currentCell.1], cellSize, p) {
          var moved := CheckIfPlayerOverlappingInNeighbours(p);
          if !moved {
            // the player was carried beyond the neighbours in one frame
            currentCell := Unset;
          }
        }
      }
    }
  }
}
