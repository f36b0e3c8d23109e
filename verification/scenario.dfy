/**
 * A worked example driven through the class: a 5 x 5 grid with neighbour
 * range 3, extents 50 x 50 and origin 0.
 */
module Scenario {
  import opened Geometry
  import opened GridWindow
  import opened Streaming

  /**
   * A player at (25, 25) is found in cell (2, 2) and the 3 x 3 block around
   * it loaded; after moving to (35, 25) cell (2, 3) is tracked, column 1 has
   * been unloaded and column 4 loaded.
   */
  method WalkOneCell() returns (first: Cell, firstKeys: set<Cell>, second: Cell, secondKeys: set<Cell>)
    ensures first == (2, 2) && second == (2, 3)
    ensures firstKeys == {(1, 1), (1, 2), (1, 3), (2, 1), (2, 2), (2, 3), (3, 1), (3, 2), (3, 3)}
    ensures secondKeys == {(1, 2), (1, 3), (1, 4), (2, 2), (2, 3), (2, 4), (3, 2), (3, 3), (3, 4)}
  {
    var v := new GridLevelStreamingVolume(5, 5, 3, Vec2(50.0, 50.0), Vec2(0.0, 0.0));
    ScenarioPlayerCells();
    var o, s := Vec2(0.0, 0.0), Vec2(10.0, 10.0);
    assert v.origin == o && v.cellSize == s;
    var p := Vec2(25.0, 25.0);
    assert v.Hit((2, 2), p);
    v.Tick(p);
    first := v.currentCell;
    assert v.Hit(first, p);
    assert first == CellAt(o, s, p);
    firstKeys := v.loaded.Keys;
    ScenarioFullWindow();
    var q := Vec2(35.0, 25.0);
    assert !v.Hit((2, 2), q);
    assert v.Hit((2, 3), q);
    v.Tick(q);
    second := v.currentCell;
    assert v.Hit(second, q);
    assert second == CellAt(o, s, q);
    secondKeys := v.loaded.Keys;
    ScenarioShiftedWindow();
  }
}
