/** The termination measure of the search. Every cell the search can score
    is in the "universe" (the grid's cells plus the start cell, which the
    source never bounds-checks). A cell's potential is its cost while scored
    and the size of the universe before; costs only fall and stay below that
    size, so each push onto the heap is paid for by a fall in potential. */
module Potential {
  import opened Grid
  import opened Seqs

  /** The cells of row `r` with column below `n`. */
  function RowCells(r: int, n: nat): (cs: seq<Cell>)
    ensures |cs| == n
    ensures forall i | 0 <= i < n :: cs[i] == Cell(r, i)
  {
    if n == 0 then [] else RowCells(r, n - 1) + [Cell(r, n - 1)]
  }

  /** Every cell of a `rows` x `cols` grid, once each, row by row. */
  function AllCells(rows: nat, cols: nat): (cs: seq<Cell>)
    ensures Distinct(cs)
    ensures forall c :: c in cs <==> 0 <= c.row < rows && 0 <= c.col < cols
  {
    if rows == 0 then []
    else
      var front := AllCells(rows - 1, cols);
      var back := RowCells(rows - 1, cols);
      assert forall c | c in back :: c.row == rows - 1;
      assert forall c: Cell :: c in back <==> c.row == rows - 1 && 0 <= c.col < cols by {
        forall c: Cell | c.row == rows - 1 && 0 <= c.col < cols ensures c in back {
          assert back[c.col] == c;
        }
      }
      assert forall i, j | 0 <= i < |front| && 0 <= j < |back| :: front[i] != back[j] by {
        forall i, j | 0 <= i < |front| && 0 <= j < |back| ensures front[i] != back[j] {
          assert front[i] in front;
        }
      }
      front + back
  }

  /** The cells the search can ever score. */
  function Universe(grid: Occupancy, start: Cell): (u: seq<Cell>)
    ensures Distinct(u)
    ensures forall c :: c in u <==> InBounds(grid, c) || c == start
  {
    var cells := AllCells(Rows(grid), Cols(grid));
    if InBounds(grid, start) then cells
    else
      assert forall i | 0 <= i < |cells| :: cells[i] != start by {
        forall i | 0 <= i < |cells| ensures cells[i] != start {
          assert cells[i] in cells;
        }
      }
      cells + [start]
  }

  function Pot(g: map<Cell, int>, top: int, c: Cell): int {
    if c in g then g[c] else top
  }

  function SumPot(u: seq<Cell>, g: map<Cell, int>, top: int): int {
    if |u| == 0 then 0 else Pot(g, top, u[0]) + SumPot(u[1..], g, top)
  }

  lemma {:induction false} SumPotNonNegative(u: seq<Cell>, g: map<Cell, int>, top: int)
    requires top >= 0 && forall n | n in g :: g[n] >= 0
    ensures SumPot(u, g, top) >= 0
  {
    if |u| > 0 {
      SumPotNonNegative(u[1..], g, top);
    }
  }

  /** Changing the cost of a cell outside `u` leaves the sum alone. */
  lemma {:induction false} SumPotOutside(u: seq<Cell>, g: map<Cell, int>, top: int, x: Cell, v: int)
    requires x !in u
    ensures SumPot(u, g[x := v], top) == SumPot(u, g, top)
  {
    if |u| > 0 {
      assert u[0] != x;
      assert x !in u[1..] by {
        forall i | 0 <= i < |u[1..]| ensures u[1..][i] != x {
          assert u[1..][i] == u[i + 1];
        }
      }
      SumPotOutside(u[1..], g, top, x, v);
    }
  }

  /** Lowering the potential of one cell of a distinct `u` lowers the sum by
      exactly that much. */
  lemma {:induction false} SumPotLower(u: seq<Cell>, g: map<Cell, int>, top: int, x: Cell, v: int)
    requires Distinct(u) && x in u
    ensures SumPot(u, g[x := v], top) == SumPot(u, g, top) - Pot(g, top, x) + v
  {
    if u[0] == x {
      assert x !in u[1..] by {
        forall i | 0 <= i < |u[1..]| ensures u[1..][i] != x {
          assert u[1..][i] == u[i + 1];
        }
      }
      SumPotOutside(u[1..], g, top, x, v);
    } else {
      assert x in u[1..] by {
        var i :| 0 <= i < |u| && u[i] == x;
        assert u[1..][i - 1] == x;
      }
      SumPotLower(u[1..], g, top, x, v);
    }
  }
}
