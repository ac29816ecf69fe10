/** The A* search of astar_streamlit_app/app.py:70-148 on a 4-connected grid
    with unit step cost and the Manhattan heuristic.

    The Python function is one `while oheap` loop over mutable tables; here
    the tables form an immutable `State` and `Loop` performs one iteration per
    call. Python's "no entry" in `gscore.get(n, float('inf'))` is "key not in
    the map". */
module Search {
  import opened Grid
  import opened Seqs
  import opened Heap
  import opened Paths
  import opened Potential

  /** The bookkeeping of one search: `open_set`, `close_set`, `came_from`,
      `gscore`, `fscore` and `oheap`. */
  datatype State = State(
    open: set<Cell>,
    closed: set<Cell>,
    cameFrom: map<Cell, Cell>,
    g: map<Cell, int>,
    f: map<Cell, int>,
    heap: seq<Entry>)

  /** One animation frame: a partial path and the open and closed cells
      (the source's lists of set members, whose order Python leaves open). */
  datatype Frame = Frame(partial: seq<Cell>, open: set<Cell>, closed: set<Cell>)

  /** What `astar` returns: the path (start excluded) and the frames. */
  datatype Outcome = Outcome(path: seq<Cell>, frames: seq<Frame>)

  /** `t < gscore.get(n, float('inf'))`. */
  predicate Better(g: map<Cell, int>, n: Cell, t: int) {
    n !in g || t < g[n]
  }

  /** The tables before the loop (app.py:75-82). */
  function Init(start: Cell, goal: Cell): (r: State)
    ensures r.open == Cells(r.heap) == r.g.Keys == r.f.Keys == {start} && r.closed == {}
    ensures r.g[start] == 0 && r.f[start] == r.g[start] + Manhattan(start, goal)
    ensures r.cameFrom == map[]
  {
    var h := Manhattan(start, goal);
    var r := State({start}, {}, map[], map[start := 0], map[start := h], [Entry(h, start)]);
    assert Cells(r.heap) == {start} by {
      assert r.heap[0].cell == start;
    }
    r
  }

  /** One pass of the neighbour loop body (app.py:109-131) for the cell
      `nb` next to the expanded cell `current`. */
  function Relax(grid: Occupancy, goal: Cell, s: State, current: Cell, nb: Cell): (r: State)
    requires Rectangular(grid) && current in s.g
    ensures s.g.Keys <= r.g.Keys && r.closed == s.closed
  {
    if !InBounds(grid, nb) then s
    else if grid[nb.row][nb.col] == 1 then s
    else
      var t := s.g[current] + 1;
      if nb in s.closed && !Better(s.g, nb, t) then s
      else if Better(s.g, nb, t) || nb !in s.open then
        var scored := s.(cameFrom := s.cameFrom[nb := current],
                         g := s.g[nb := t],
                         f := s.f[nb := t + Manhattan(nb, goal)]);
        if nb !in s.open then
          scored.(heap := s.heap + [Entry(scored.f[nb], nb)], open := s.open + {nb})
        else
          scored
      else s
  }

  /** The `for i, j in neighbors` loop over the offsets `ds`. */
  function RelaxAll(grid: Occupancy, goal: Cell, s: State, current: Cell, ds: seq<(int, int)>): (r: State)
    requires Rectangular(grid) && current in s.g
    ensures s.g.Keys <= r.g.Keys && r.closed == s.closed
    decreases |ds|
  {
    if ds == [] then s
    else RelaxAll(grid, goal, Relax(grid, goal, s, current, Shift(current, ds[0])), current, ds[1..])
  }

  /** `heappop` followed by `open_set.remove` (app.py:88-91): the entry
      taken out is a smallest one, and only it leaves the heap. */
  function Pop(s: State): (r: (Entry, State))
    requires |s.heap| > 0
    ensures r.0 in s.heap
    ensures forall e | e in s.heap :: EntryLe(r.0, e)
    ensures multiset(r.1.heap) + multiset{r.0} == multiset(s.heap)
    ensures r.1 == s.(heap := r.1.heap, open := s.open - {r.0.cell})
  {
    var k := MinIndex(s.heap);
    (s.heap[k], s.(heap := Remove(s.heap, k), open := s.open - {s.heap[k].cell}))
  }

  /** Closing `current` and relaxing its four neighbours (app.py:106-131). */
  function Expand(grid: Occupancy, goal: Cell, s: State, current: Cell): (r: State)
    requires Rectangular(grid) && current in s.g
    ensures r.closed == s.closed + {current}
    ensures s.g.Keys <= r.g.Keys
  {
    RelaxAll(grid, goal, s.(closed := s.closed + {current}), current, Offsets)
  }

  /** The path shown in an animation frame (app.py:136-143): empty for the
      start cell, otherwise the predecessor walk ending at `current`. */
  function PartialPath(s: State, start: Cell, current: Cell): (p: seq<Cell>)
    requires Ranked(s.cameFrom, s.g)
    ensures p == [] <==> current == start
    ensures current != start ==> Last(p) == current && p[0] !in s.cameFrom && Linked(s.cameFrom, p)
  {
    if current == start then [] else Walk(s.cameFrom, s.g, current)
  }

  // ---------------------------------------------------------------------
  // The loop invariant

  /** `open_set` is exactly the set of cells with a heap entry, and no cell
      has two entries. */
  predicate HeapMirrorsOpen(s: State) {
    DistinctCells(s.heap) && Cells(s.heap) == s.open
  }

  /** The cost tables: every scored cell is open or closed, the start costs
      0, f = g + Manhattan distance to the goal, and heap keys are never below
      the current f (they go stale when g improves, app.py:124-131). */
  predicate Scored(grid: Occupancy, start: Cell, goal: Cell, s: State)
    requires Rectangular(grid)
  {
    && s.g.Keys == s.f.Keys
    && s.g.Keys == s.open + s.closed
    && start in s.g && s.g[start] == 0
    && goal !in s.closed
    && (forall n | n in s.g :: s.g[n] >= 0 && s.f[n] == s.g[n] + Manhattan(n, goal))
    && (forall e | e in s.heap :: e.cell in s.f && s.f[e.cell] <= e.key)
  }

  /** Every scored cell but the start has a predecessor; links go to an
      adjacent cell of smaller cost and come from passable cells. */
  predicate Links(grid: Occupancy, start: Cell, s: State)
    requires Rectangular(grid)
  {
    && s.cameFrom.Keys == s.g.Keys - {start}
    && Ranked(s.cameFrom, s.g)
    && (forall n | n in s.cameFrom :: Passable(grid, n) && Adjacent(s.cameFrom[n], n))
  }

  /** A witness that the cost of `n` is small: a walk of distinct cells,
      `g[n] + 1` long, ending at `n`, whose i-th cell costs at most i. */
  predicate Trail(g: map<Cell, int>, w: seq<Cell>, n: Cell) {
    && |w| > 0 && Last(w) == n && n in g && |w| == g[n] + 1
    && Distinct(w)
    && (forall i | 0 <= i < |w| :: w[i] in g && g[w[i]] <= i)
  }

  ghost predicate HasTrail(g: map<Cell, int>, n: Cell) {
    exists w :: Trail(g, w, n)
  }

  ghost predicate Trailed(s: State) {
    forall n {:trigger HasTrail(s.g, n)} | n in s.g :: HasTrail(s.g, n)
  }

  /** Every passable neighbour of `c` has been scored. */
  predicate Explored(grid: Occupancy, s: State, c: Cell)
    requires Rectangular(grid)
  {
    forall k | 0 <= k < |Offsets| :: Passable(grid, Shift(c, Offsets[k])) ==> Shift(c, Offsets[k]) in s.g
  }

  ghost predicate Core(grid: Occupancy, start: Cell, goal: Cell, s: State) {
    && Rectangular(grid)
    && HeapMirrorsOpen(s)
    && Scored(grid, start, goal, s)
    && Links(grid, start, s)
    && Trailed(s)
  }

  /** The invariant of the `while oheap` loop. */
  ghost predicate Inv(grid: Occupancy, start: Cell, goal: Cell, s: State) {
    && Core(grid, start, goal, s)
    && forall c {:trigger Explored(grid, s, c)} | c in s.closed :: Explored(grid, s, c)
  }

  /** Potential of the scores plus the heap size: falls with every
      iteration. */
  function Measure(grid: Occupancy, start: Cell, s: State): int {
    var u := Universe(grid, start);
    SumPot(u, s.g, |u|) + |s.heap|
  }

  /** No route of passable cells leads from `start` to `goal`. */
  ghost predicate NoRoute(grid: Occupancy, start: Cell, goal: Cell)
    requires Rectangular(grid)
  {
    forall p | Steps(grid, start, p) && |p| > 0 :: Last(p) != goal
  }

  // ---------------------------------------------------------------------
  // The invariant holds initially and is kept by every step

  lemma InitInv(grid: Occupancy, start: Cell, goal: Cell)
    requires Rectangular(grid)
    ensures Inv(grid, start, goal, Init(start, goal))
  {
    var s := Init(start, goal);
    assert Cells(s.heap) == {start} by {
      assert s.heap[0].cell == start;
    }
    assert Trail(s.g, [start], start);
    assert HasTrail(s.g, start);
  }

  /** Every score is below the size of the universe. */
  lemma ScoreBound(grid: Occupancy, start: Cell, goal: Cell, s: State)
    requires Core(grid, start, goal, s)
    ensures forall n | n in s.g :: s.g[n] < |Universe(grid, start)|
  {
    var u := Universe(grid, start);
    forall n | n in s.g ensures s.g[n] < |u| {
      assert HasTrail(s.g, n);
      var w :| Trail(s.g, w, n);
      forall i | 0 <= i < |w| ensures w[i] in u {
        assert w[i] in s.g;
        if w[i] != start {
          assert w[i] in s.cameFrom;
        }
      }
      DistinctWithin(w, u);
    }
  }

  /** `r` is `s` after `nb` got the cost `g[current] + 1` through `current`
      (app.py:125-127), with a heap entry pushed when `nb` was not open
      (app.py:129-131). */
  predicate Improvement(goal: Cell, s: State, current: Cell, nb: Cell, r: State)
    requires current in s.g
  {
    var t := s.g[current] + 1;
    && r.g == s.g[nb := t]
    && r.f == s.f[nb := t + Manhattan(nb, goal)]
    && r.cameFrom == s.cameFrom[nb := current]
    && r.closed == s.closed
    && r.open == s.open + {nb}
    && r.heap == (if nb in s.open then s.heap else s.heap + [Entry(t + Manhattan(nb, goal), nb)])
  }

  /** The relaxation of one neighbour improves it exactly when it is
      passable and the cost through `current` beats its recorded cost, and
      otherwise changes nothing: once every scored cell is open or closed,
      the `or neighbor not in open_set` alternative never fires on its own,
      and the guard at app.py:121 only skips closed cells that would not
      improve. */
  lemma RelaxShape(grid: Occupancy, goal: Cell, s: State, current: Cell, nb: Cell)
    requires Rectangular(grid) && current in s.g
    requires s.g.Keys == s.open + s.closed
    ensures var r := Relax(grid, goal, s, current, nb);
      if Passable(grid, nb) && Better(s.g, nb, s.g[current] + 1)
      then Improvement(goal, s, current, nb, r)
      else r == s
  {
  }

  lemma ImprovementHeap(goal: Cell, s: State, current: Cell, nb: Cell, r: State)
    requires current in s.g && HeapMirrorsOpen(s) && Improvement(goal, s, current, nb, r)
    ensures HeapMirrorsOpen(r)
  {
    if nb !in s.open {
      PushCells(s.heap, Last(r.heap));
    }
  }

  lemma ImprovementScored(grid: Occupancy, start: Cell, goal: Cell, s: State, current: Cell, nb: Cell, r: State)
    requires Rectangular(grid) && Scored(grid, start, goal, s) && current in s.g
    requires Better(s.g, nb, s.g[current] + 1) && Improvement(goal, s, current, nb, r)
    ensures Scored(grid, start, goal, r)
  {
    assert nb != start;
    forall e | e in r.heap ensures e.cell in r.f && r.f[e.cell] <= e.key {
      if e !in s.heap {
        assert e == Last(r.heap);
      }
    }
  }

  lemma ImprovementLinks(grid: Occupancy, start: Cell, goal: Cell, s: State, current: Cell, nb: Cell, r: State)
    requires Rectangular(grid) && Links(grid, start, s) && current in s.g && s.g[current] >= 0
    requires start in s.g && s.g[start] == 0
    requires Passable(grid, nb) && Adjacent(current, nb)
    requires Better(s.g, nb, s.g[current] + 1) && Improvement(goal, s, current, nb, r)
    ensures Links(grid, start, r)
  {
    assert nb != start && nb != current;
  }

  lemma ImprovementTrailed(goal: Cell, s: State, current: Cell, nb: Cell, r: State)
    requires Trailed(s) && current in s.g
    requires Better(s.g, nb, s.g[current] + 1) && Improvement(goal, s, current, nb, r)
    ensures Trailed(r)
  {
    forall n | n in r.g ensures HasTrail(r.g, n) {
      if n == nb {
        assert HasTrail(s.g, current);
        var wc :| Trail(s.g, wc, current);
        forall i | 0 <= i < |wc| ensures wc[i] != nb {
          assert s.g[wc[i]] <= i <= s.g[current];
        }
        assert Trail(r.g, wc + [nb], nb);
      } else {
        assert HasTrail(s.g, n);
        var w :| Trail(s.g, w, n);
        assert Trail(r.g, w, n);
      }
    }
  }

  lemma ImprovementMeasure(grid: Occupancy, start: Cell, goal: Cell, s: State, current: Cell, nb: Cell, r: State)
    requires Core(grid, start, goal, r) && current in s.g && InBounds(grid, nb)
    requires Better(s.g, nb, s.g[current] + 1) && Improvement(goal, s, current, nb, r)
    ensures Measure(grid, start, r) <= Measure(grid, start, s)
  {
    var u := Universe(grid, start);
    ScoreBound(grid, start, goal, r);
    SumPotLower(u, s.g, |u|, nb, s.g[current] + 1);
  }

  /** One relaxation keeps the invariant, scores the neighbour when it is
      passable, and does not raise the measure. */
  lemma RelaxStep(grid: Occupancy, start: Cell, goal: Cell, s: State, current: Cell, nb: Cell)
    requires Core(grid, start, goal, s) && current in s.closed && Adjacent(current, nb)
    ensures var r := Relax(grid, goal, s, current, nb);
      && Core(grid, start, goal, r)
      && (if Passable(grid, nb) && Better(s.g, nb, s.g[current] + 1)
          then Improvement(goal, s, current, nb, r)
          else r == s)
      && (Passable(grid, nb) ==> nb in r.g)
      && Measure(grid, start, r) <= Measure(grid, start, s)
  {
    var r := Relax(grid, goal, s, current, nb);
    RelaxShape(grid, goal, s, current, nb);
    if Passable(grid, nb) && Better(s.g, nb, s.g[current] + 1) {
      ImprovementHeap(goal, s, current, nb, r);
      ImprovementScored(grid, start, goal, s, current, nb, r);
      ImprovementLinks(grid, start, goal, s, current, nb, r);
      ImprovementTrailed(goal, s, current, nb, r);
      ImprovementMeasure(grid, start, goal, s, current, nb, r);
    }
  }

  /** Relaxing the neighbours along the offsets `ds` keeps the invariant and
      does not raise the measure. */
  lemma {:induction false} RelaxAllStep(grid: Occupancy, start: Cell, goal: Cell, s: State, current: Cell, ds: seq<(int, int)>)
    requires Core(grid, start, goal, s) && current in s.closed
    requires forall k | 0 <= k < |ds| :: Adjacent(current, Shift(current, ds[k]))
    ensures Core(grid, start, goal, RelaxAll(grid, goal, s, current, ds))
    ensures Measure(grid, start, RelaxAll(grid, goal, s, current, ds)) <= Measure(grid, start, s)
    decreases |ds|
  {
    if ds != [] {
      var s1 := Relax(grid, goal, s, current, Shift(current, ds[0]));
      RelaxStep(grid, start, goal, s, current, Shift(current, ds[0]));
      assert forall k | 0 <= k < |ds[1..]| :: ds[1..][k] == ds[k + 1];
      RelaxAllStep(grid, start, goal, s1, current, ds[1..]);
    }
  }

  /** Costs only fall during an expansion (app.py:124-126 writes a cost only
      when it beats the recorded one), and every passable neighbour along
      `ds` ends up scored. */
  lemma {:induction false} RelaxAllLowers(grid: Occupancy, goal: Cell, s: State, current: Cell, ds: seq<(int, int)>)
    requires Rectangular(grid) && current in s.g && s.g.Keys == s.open + s.closed
    ensures var r := RelaxAll(grid, goal, s, current, ds);
      && (forall n | n in s.g :: n in r.g && r.g[n] <= s.g[n])
      && (forall k | 0 <= k < |ds| :: Passable(grid, Shift(current, ds[k])) ==> Shift(current, ds[k]) in r.g)
    decreases |ds|
  {
    if ds != [] {
      var nb := Shift(current, ds[0]);
      var s1 := Relax(grid, goal, s, current, nb);
      RelaxShape(grid, goal, s, current, nb);
      assert s1.g.Keys == s1.open + s1.closed;
      RelaxAllLowers(grid, goal, s1, current, ds[1..]);
      assert forall k | 0 <= k < |ds[1..]| :: ds[1..][k] == ds[k + 1];
    }
  }

  /** The popped cell is in `open_set`, so `open_set.remove` never fails,
      and afterwards the heap still mirrors the open set. */
  lemma PopHeap(s: State)
    requires HeapMirrorsOpen(s) && |s.heap| > 0
    ensures Pop(s).0.cell in s.open
    ensures HeapMirrorsOpen(Pop(s).1)
  {
    var k := MinIndex(s.heap);
    assert Pop(s).0 == s.heap[k];
    assert s.heap[k].cell in Cells(s.heap);
    RemoveCells(s.heap, k);
  }

  lemma PopScored(grid: Occupancy, start: Cell, goal: Cell, s: State)
    requires Rectangular(grid) && Scored(grid, start, goal, s) && HeapMirrorsOpen(s) && |s.heap| > 0
    requires Pop(s).0.cell != goal
    ensures var (e, popped) := Pop(s);
      Scored(grid, start, goal, popped.(closed := popped.closed + {e.cell}))
  {
    PopHeap(s);
  }

  /** Popping the smallest entry and closing its cell (when it is not the
      goal) keeps the invariant except for the exploration of that cell, and
      lowers the measure by the popped entry. */
  lemma PopStep(grid: Occupancy, start: Cell, goal: Cell, s: State)
    requires Inv(grid, start, goal, s) && |s.heap| > 0
    ensures Pop(s).0.cell in s.open
    ensures var (e, popped) := Pop(s);
      var closed := popped.(closed := popped.closed + {e.cell});
      e.cell != goal ==>
        && Core(grid, start, goal, closed)
        && (forall x {:trigger Explored(grid, closed, x)} | x in closed.closed && x != e.cell :: Explored(grid, closed, x))
        && Measure(grid, start, closed) < Measure(grid, start, s)
  {
    PopHeap(s);
    var (e, popped) := Pop(s);
    if e.cell != goal {
      PopScored(grid, start, goal, s);
      var closed := popped.(closed := popped.closed + {e.cell});
      forall x | x in closed.closed && x != e.cell ensures Explored(grid, closed, x) {
        assert Explored(grid, s, x);
      }
    }
  }

  /** Scoring more cells keeps a cell explored. */
  lemma ExploredGrows(grid: Occupancy, s: State, r: State, x: Cell)
    requires Rectangular(grid) && s.g.Keys <= r.g.Keys && Explored(grid, s, x)
    ensures Explored(grid, r, x)
  {
  }

  /** Relaxing all four neighbours of the just-closed cell `c` restores the
      invariant and does not raise the measure. */
  lemma ExpandStep(grid: Occupancy, start: Cell, goal: Cell, s: State, c: Cell)
    requires Core(grid, start, goal, s) && c in s.closed
    requires forall x {:trigger Explored(grid, s, x)} | x in s.closed && x != c :: Explored(grid, s, x)
    ensures var next := RelaxAll(grid, goal, s, c, Offsets);
      && Inv(grid, start, goal, next)
      && next.closed == s.closed
      && (forall n | n in s.g :: n in next.g && next.g[n] <= s.g[n])
      && Measure(grid, start, next) <= Measure(grid, start, s)
  {
    var next := RelaxAll(grid, goal, s, c, Offsets);
    assert forall i | 0 <= i < |Offsets| :: Adjacent(c, Shift(c, Offsets[i]));
    RelaxAllStep(grid, start, goal, s, c, Offsets);
    RelaxAllLowers(grid, goal, s, c, Offsets);
    forall x | x in next.closed ensures Explored(grid, next, x) {
      if x != c {
        ExploredGrows(grid, s, next, x);
      }
    }
  }

  /** One non-goal iteration: after closing and expanding the popped cell the
      invariant holds again, costs have only fallen, the closed set has grown
      by the popped cell, and the measure has fallen. */
  lemma StepKeepsInv(grid: Occupancy, start: Cell, goal: Cell, s: State)
    requires Inv(grid, start, goal, s) && |s.heap| > 0
    ensures Pop(s).0.cell in s.open
    ensures var (e, popped) := Pop(s);
      e.cell != goal ==>
        var next := Expand(grid, goal, popped, e.cell);
        && Inv(grid, start, goal, next)
        && next.closed == s.closed + {e.cell}
        && (forall n | n in s.g :: n in next.g && next.g[n] <= s.g[n])
        && 0 <= Measure(grid, start, next) < Measure(grid, start, s)
  {
    PopStep(grid, start, goal, s);
    var (e, popped) := Pop(s);
    if e.cell != goal {
      var closed := popped.(closed := popped.closed + {e.cell});
      ExpandStep(grid, start, goal, closed, e.cell);
      var next := Expand(grid, goal, popped, e.cell);
      SumPotNonNegative(Universe(grid, start), next.g, |Universe(grid, start)|);
    }
  }

  /** The part of `StepKeepsInv` the loop's termination needs. */
  lemma Advance(grid: Occupancy, start: Cell, goal: Cell, s: State)
    requires Inv(grid, start, goal, s) && |s.heap| > 0 && Pop(s).0.cell != goal
    ensures var (e, popped) := Pop(s);
      var next := Expand(grid, goal, popped, e.cell);
      && Inv(grid, start, goal, next)
      && 0 <= Measure(grid, start, next) < Measure(grid, start, s)
  {
    StepKeepsInv(grid, start, goal, s);
  }

  /** The walk back from a scored cell ends at the start, and the cells
      after the start form a route from it. */
  lemma WalkFromStart(grid: Occupancy, start: Cell, s: State, n: Cell)
    requires Rectangular(grid) && Links(grid, start, s) && n in s.g
    ensures Walk(s.cameFrom, s.g, n)[0] == start
    ensures Steps(grid, start, Walk(s.cameFrom, s.g, n)[1..])
    ensures |Walk(s.cameFrom, s.g, n)| == 1 <==> n == start
  {
    var w := Walk(s.cameFrom, s.g, n);
    if |w| > 1 {
      assert w[0] == s.cameFrom[w[1]];
    }
    assert w[0] in s.g;
    var p := w[1..];
    forall i | 0 <= i < |p| ensures Passable(grid, p[i]) && Adjacent(Before(start, p, i), p[i]) {
      assert p[i] == w[i + 1];
      assert s.cameFrom[w[i + 1]] == w[i];
    }
  }

  /** A frame's partial path is empty exactly for the start; otherwise it
      starts at the start, ends at `current`, and its cells after the start
      form a route from it. */
  lemma PartialFromStart(grid: Occupancy, start: Cell, s: State, current: Cell)
    requires Rectangular(grid) && Links(grid, start, s) && current in s.g
    ensures var p := PartialPath(s, start, current);
      && (p == [] <==> current == start)
      && (current != start ==> p[0] == start && Last(p) == current && Steps(grid, start, p[1..]))
  {
    if current != start {
      WalkFromStart(grid, start, s, current);
    }
  }

  /** When the goal is popped, the rebuilt path (app.py:94-98) is a route
      from the start that ends at the goal, and it is empty exactly when the
      goal is the start. */
  lemma GoalStep(grid: Occupancy, start: Cell, goal: Cell, s: State)
    requires Inv(grid, start, goal, s) && |s.heap| > 0 && Pop(s).0.cell == goal
    ensures var popped := Pop(s).1;
      && Ranked(popped.cameFrom, popped.g)
      && var path := Walk(popped.cameFrom, popped.g, goal)[1..];
      && Steps(grid, start, path)
      && (path != [] ==> Last(path) == goal)
      && (path == [] <==> start == goal)
  {
    PopHeap(s);
    var popped := Pop(s).1;
    assert goal in s.g;
    WalkFromStart(grid, start, popped, goal);
  }

  /** A passable unit step out of an explored cell lands on a scored cell. */
  lemma StepFromExplored(grid: Occupancy, s: State, a: Cell, b: Cell)
    requires Rectangular(grid) && Explored(grid, s, a)
    requires Passable(grid, b) && Adjacent(a, b)
    ensures b in s.g
  {
    OffsetsAreUnitSteps(a, b);
    var k :| 0 <= k < |Offsets| && b == Shift(a, Offsets[k]);
  }

  /** When the start is closed, every closed cell is explored and no scored
      cell is open, every route from the start stays inside the closed
      set. */
  lemma {:induction false} RouteStaysClosed(grid: Occupancy, start: Cell, s: State, p: seq<Cell>)
    requires Rectangular(grid) && start in s.closed && s.g.Keys <= s.closed
    requires forall c {:trigger Explored(grid, s, c)} | c in s.closed :: Explored(grid, s, c)
    requires Steps(grid, start, p)
    ensures forall i | 0 <= i < |p| :: p[i] in s.closed
    decreases |p|
  {
    if |p| > 0 {
      var q := p[..|p| - 1];
      assert Steps(grid, start, q) by {
        forall i | 0 <= i < |q| ensures Passable(grid, q[i]) && Adjacent(Before(start, q, i), q[i]) {
          assert q[i] == p[i] && Before(start, q, i) == Before(start, p, i);
        }
      }
      RouteStaysClosed(grid, start, s, q);
      var last := |p| - 1;
      var prev := Before(start, p, last);
      assert prev in s.closed by {
        if last > 0 {
          assert prev == q[last - 1];
        }
      }
      assert Explored(grid, s, prev);
      StepFromExplored(grid, s, prev, p[last]);
      assert forall i | 0 <= i < |p| :: p[i] == (if i < last then q[i] else p[last]);
    }
  }

  /** An empty heap means no route leads from the start to the goal: the
      closed set holds every cell reachable from the start, but not the
      goal. */
  lemma Exhausted(grid: Occupancy, start: Cell, goal: Cell, s: State)
    requires Inv(grid, start, goal, s) && |s.heap| == 0
    ensures NoRoute(grid, start, goal)
  {
    assert s.open == {};
    forall p | Steps(grid, start, p) && |p| > 0 ensures Last(p) != goal {
      RouteStaysClosed(grid, start, s, p);
    }
  }

  // ---------------------------------------------------------------------
  // The search

  /** The `while oheap` loop (app.py:87-148) from state `s`, with the frames
      captured so far. */
  function Loop(grid: Occupancy, start: Cell, goal: Cell, animate: bool, s: State, frames: seq<Frame>): (r: Outcome)
    requires Inv(grid, start, goal, s)
    ensures Steps(grid, start, r.path)
    ensures r.path != [] ==> Last(r.path) == goal
    ensures start != goal && r.path == [] ==> NoRoute(grid, start, goal)
    ensures frames <= r.frames
    ensures !animate ==> r.frames == frames
    decreases Measure(grid, start, s)
  {
    if |s.heap| == 0 then
      Exhausted(grid, start, goal, s);
      Outcome([], frames)
    else
      var (e, popped) := Pop(s);
      var current := e.cell;
      if current == goal then
        GoalStep(grid, start, goal, s);
        var path := Walk(popped.cameFrom, popped.g, goal)[1..];
        Outcome(path, if animate then frames + [Frame(path, popped.open, popped.closed)] else frames)
      else
        Advance(grid, start, goal, s);
        var next := Expand(grid, goal, popped, current);
        var frames' := if animate then frames + [Frame(PartialPath(next, start, current), next.open, next.closed)] else frames;
        Loop(grid, start, goal, animate, next, frames')
  }

  /** `astar(grid, start, goal, animate)`: the returned path leaves the start
      by unit steps over passable cells and ends at the goal; it is empty at
      once when start and goal coincide, and empty otherwise only when no
      route exists; frames are recorded only when animating. */
  function AStar(grid: Occupancy, start: Cell, goal: Cell, animate: bool): (r: Outcome)
    requires Rectangular(grid)
    ensures Steps(grid, start, r.path)
    ensures r.path != [] ==> Last(r.path) == goal
    ensures start == goal ==> r.path == [] && r.frames == (if animate then [Frame([], {}, {})] else [])
    ensures start != goal && r.path == [] ==> NoRoute(grid, start, goal)
    ensures !animate ==> r.frames == []
  {
    InitInv(grid, start, goal);
    var s := Init(start, goal);
    var r := Loop(grid, start, goal, animate, s, []);
    if start == goal then
      var popped := Pop(s).1;
      assert Pop(s).0 == Entry(0, start);
      assert popped.open == {} && popped.closed == {};
      assert Walk(popped.cameFrom, popped.g, start) == [start];
      assert r == Outcome([], if animate then [Frame([], {}, {})] else []);
      r
    else
      r
  }
}
