/** The occupancy grid the search runs on: cells, bounds, walls and the
    4-connected neighbourhood (astar_streamlit_app/app.py, `astar`). */
module Grid {

  /** A cell as a (row, column) pair; Python compares these lexicographically. */
  datatype Cell = Cell(row: int, col: int)

  /** A row-major 2-D array of integers; the value 1 marks a wall. */
  type Occupancy = seq<seq<int>>

  /** A numpy 2-D array: every row has the same length. */
  predicate Rectangular(grid: Occupancy) {
    forall i | 0 <= i < |grid| :: |grid[i]| == |grid[0]|
  }

  function Rows(grid: Occupancy): nat {
    |grid|
  }

  function Cols(grid: Occupancy): nat {
    if |grid| == 0 then 0 else |grid[0]|
  }

  predicate InBounds(grid: Occupancy, c: Cell) {
    0 <= c.row < Rows(grid) && 0 <= c.col < Cols(grid)
  }

  /** In bounds and not a wall: the cells a neighbour expansion may enter. */
  predicate Passable(grid: Occupancy, c: Cell)
    requires Rectangular(grid)
  {
    InBounds(grid, c) && grid[c.row][c.col] != 1
  }

  /** The four neighbour offsets, in the order the search tries them. */
  const Offsets: seq<(int, int)> := [(0, 1), (1, 0), (-1, 0), (0, -1)]

  function Shift(c: Cell, d: (int, int)): Cell {
    Cell(c.row + d.0, c.col + d.1)
  }

  function Abs(x: int): nat {
    if x < 0 then -x else x
  }

  /** The heuristic: |row difference| + |column difference|. */
  function Manhattan(a: Cell, b: Cell): nat {
    Abs(a.row - b.row) + Abs(a.col - b.col)
  }

  /** Two cells one unit step apart along a row or a column. */
  predicate Adjacent(a: Cell, b: Cell) {
    Manhattan(a, b) == 1
  }

  /** The four offsets are exactly the unit steps: shifting by any of them
      gives an adjacent cell, and every adjacent cell is such a shift. */
  lemma OffsetsAreUnitSteps(a: Cell, b: Cell)
    ensures Adjacent(a, b) <==> exists k :: 0 <= k < |Offsets| && b == Shift(a, Offsets[k])
  {
    if Adjacent(a, b) {
      if b.row == a.row + 1 {
        assert b == Shift(a, Offsets[1]);
      } else if b.row == a.row - 1 {
        assert b == Shift(a, Offsets[2]);
      } else if b.col == a.col + 1 {
        assert b == Shift(a, Offsets[0]);
      } else {
        assert b == Shift(a, Offsets[3]);
      }
    }
  }
}
