/** Routes on the grid and the walk back along the predecessor map
    (`came_from`) that `astar` uses to rebuild paths. */
module Paths {
  import opened Grid
  import opened Seqs

  /** Every predecessor link goes to a scored cell of strictly smaller,
      non-negative cost: the walk back along `came_from` always ends. */
  predicate Ranked(cameFrom: map<Cell, Cell>, g: map<Cell, int>) {
    forall n | n in cameFrom ::
      n in g && cameFrom[n] in g && 0 <= g[cameFrom[n]] < g[n]
  }

  /** `p` is a sequence of passable cells, each one step from the one before
      it, the first one step from `from` (which itself is not part of `p`). */
  predicate Steps(grid: Occupancy, from: Cell, p: seq<Cell>)
    requires Rectangular(grid)
  {
    forall i {:trigger Before(from, p, i)} | 0 <= i < |p| ::
      Passable(grid, p[i]) && Adjacent(Before(from, p, i), p[i])
  }

  /** The cell a route is at just before its `i`-th step. */
  function Before(from: Cell, p: seq<Cell>, i: nat): Cell
    requires i <= |p|
  {
    if i == 0 then from else p[i - 1]
  }

  /** `p` follows predecessor links: every cell after the first is a key of
      `cameFrom` whose predecessor is the cell before it. */
  predicate Linked(cameFrom: map<Cell, Cell>, p: seq<Cell>) {
    forall i | 0 < i < |p| :: p[i] in cameFrom && cameFrom[p[i]] == p[i - 1]
  }

  /** The walk from the root of `n`'s predecessor chain to `n`, both
      included: the cells the loops at app.py:95-97 and app.py:140-142 visit,
      in forward order. */
  function Walk(cameFrom: map<Cell, Cell>, g: map<Cell, int>, n: Cell): (w: seq<Cell>)
    requires Ranked(cameFrom, g)
    ensures |w| > 0 && Last(w) == n
    ensures w[0] !in cameFrom
    ensures Linked(cameFrom, w)
    ensures |w| == 1 <==> n !in cameFrom
    decreases if n in cameFrom then g[n] + 1 else 0
  {
    if n in cameFrom then Walk(cameFrom, g, cameFrom[n]) + [n] else [n]
  }

  /** The walk is the only sequence that ends at `n`, follows predecessor
      links and starts at a cell without a predecessor. */
  lemma {:induction false} WalkUnique(cameFrom: map<Cell, Cell>, g: map<Cell, int>, n: Cell, p: seq<Cell>)
    requires Ranked(cameFrom, g)
    requires |p| > 0 && Last(p) == n && p[0] !in cameFrom && Linked(cameFrom, p)
    ensures p == Walk(cameFrom, g, n)
    decreases |p|
  {
    if |p| == 1 {
    } else {
      var q := p[..|p| - 1];
      assert Linked(cameFrom, q);
      WalkUnique(cameFrom, g, cameFrom[n], q);
      assert p == q + [n];
    }
  }

  /** Costs strictly increase along the walk, so no cell repeats on it. */
  lemma {:induction false} WalkRanked(cameFrom: map<Cell, Cell>, g: map<Cell, int>, n: Cell)
    requires Ranked(cameFrom, g) && n in g
    ensures forall i | 0 <= i < |Walk(cameFrom, g, n)| :: Walk(cameFrom, g, n)[i] in g
    ensures forall i, j | 0 <= i < j < |Walk(cameFrom, g, n)| ::
      g[Walk(cameFrom, g, n)[i]] < g[Walk(cameFrom, g, n)[j]]
    ensures Distinct(Walk(cameFrom, g, n))
    decreases if n in cameFrom then g[n] + 1 else 0
  {
    var w := Walk(cameFrom, g, n);
    if n in cameFrom {
      var m := cameFrom[n];
      WalkRanked(cameFrom, g, m);
      var v := Walk(cameFrom, g, m);
      assert w == v + [n];
      assert forall i | 0 <= i < |v| :: g[v[i]] <= g[m] by {
        forall i | 0 <= i < |v| ensures g[v[i]] <= g[m] {
          if i < |v| - 1 {
            assert g[v[i]] < g[v[|v| - 1]];
          }
        }
      }
    }
  }
}
