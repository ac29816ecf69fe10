/** The animation frames `astar` records when `animate` is set, and the
    fact that animating does not change the path. */
module Animation {
  import opened Grid
  import opened Seqs
  import opened Paths
  import opened Heap
  import opened Search

  /** The closed set never shrinks from one frame to a later one. */
  predicate ClosedGrows(frames: seq<Frame>) {
    forall i, j | 0 <= i < j < |frames| :: frames[i].closed <= frames[j].closed
  }

  /** A frame's path is empty or a route from the start, drawn with the
      start cell in front (expansion frames) or without it (the final
      frame, which shows the returned path). */
  predicate Drawn(grid: Occupancy, start: Cell, p: seq<Cell>)
    requires Rectangular(grid)
  {
    || p == []
    || (p[0] == start && Steps(grid, start, p[1..]))
    || (p[0] != start && Steps(grid, start, p))
  }

  /** The frames recorded from state `s` on keep the closed sets growing,
      draw routes from the start, and whenever the goal is reached (the path
      is non-empty, or start and goal coincide) end with a frame showing
      exactly the returned path. */
  lemma {:induction false} LoopFrames(grid: Occupancy, start: Cell, goal: Cell, s: State, frames: seq<Frame>)
    requires Inv(grid, start, goal, s)
    requires ClosedGrows(frames) && forall i | 0 <= i < |frames| :: frames[i].closed <= s.closed
    requires forall i | 0 <= i < |frames| :: Drawn(grid, start, frames[i].partial)
    ensures var r := Loop(grid, start, goal, true, s, frames);
      && ClosedGrows(r.frames)
      && (forall i | 0 <= i < |r.frames| :: Drawn(grid, start, r.frames[i].partial))
      && (r.path != [] || start == goal ==> |r.frames| > |frames| && Last(r.frames).partial == r.path)
    decreases Measure(grid, start, s)
  {
    if |s.heap| == 0 {
      EmptyHeapApart(grid, start, goal, s);
    } else {
      var (e, popped) := Pop(s);
      if e.cell == goal {
        GoalFrame(grid, start, goal, s);
        var path := Walk(popped.cameFrom, popped.g, goal)[1..];
        RouteDrawn(grid, start, path);
        Extended(grid, start, frames, Frame(path, popped.open, popped.closed));
      } else {
        ExpansionFrame(grid, start, goal, s);
        var next := Expand(grid, goal, popped, e.cell);
        var f := Frame(PartialPath(next, start, e.cell), next.open, next.closed);
        WalkDrawn(grid, start, f.partial);
        assert forall i | 0 <= i < |frames| :: frames[i].closed <= f.closed;
        Extended(grid, start, frames, f);
        LoopFrames(grid, start, goal, next, frames + [f]);
      }
    }
  }

  /** The heap never runs empty while the goal is the start: the start stays
      scored and the goal never gets closed, so it stays open. */
  lemma EmptyHeapApart(grid: Occupancy, start: Cell, goal: Cell, s: State)
    requires Inv(grid, start, goal, s) && |s.heap| == 0
    ensures start != goal
  {
    assert s.open == Cells(s.heap) == {};
  }

  /** A route from the start, drawn without the start cell. */
  lemma RouteDrawn(grid: Occupancy, start: Cell, p: seq<Cell>)
    requires Rectangular(grid) && Steps(grid, start, p)
    ensures Drawn(grid, start, p)
  {
    if p != [] {
      assert Adjacent(Before(start, p, 0), p[0]);
    }
  }

  /** A route from the start, drawn with the start cell in front. */
  lemma WalkDrawn(grid: Occupancy, start: Cell, p: seq<Cell>)
    requires Rectangular(grid)
    requires p == [] || (p[0] == start && Steps(grid, start, p[1..]))
    ensures Drawn(grid, start, p)
  {
  }

  /** The final frame shows the returned path, a route from the start that
      leaves the start cell out and ends at the goal, over the closed set of
      the iteration that found the goal. */
  lemma GoalFrame(grid: Occupancy, start: Cell, goal: Cell, s: State)
    requires Inv(grid, start, goal, s) && |s.heap| > 0 && Pop(s).0.cell == goal
    ensures var popped := Pop(s).1;
      && Ranked(popped.cameFrom, popped.g)
      && var path := Walk(popped.cameFrom, popped.g, goal)[1..];
      && Steps(grid, start, path)
      && (path != [] ==> Last(path) == goal)
      && start !in path
      && popped.closed == s.closed
  {
    GoalStep(grid, start, goal, s);
    var popped := Pop(s).1;
    var w := Walk(popped.cameFrom, popped.g, goal);
    WalkRanked(popped.cameFrom, popped.g, goal);
    WalkFromStart(grid, start, popped, goal);
    forall i | 0 <= i < |w[1..]| ensures w[1..][i] != start {
      assert w[1..][i] == w[i + 1];
    }
  }

  /** An expansion frame shows nothing for the start and otherwise the walk
      from the start to the expanded cell, whose cells after the start form
      a route; its closed set contains the previous one. */
  lemma ExpansionFrame(grid: Occupancy, start: Cell, goal: Cell, s: State)
    requires Inv(grid, start, goal, s) && |s.heap| > 0 && Pop(s).0.cell != goal
    ensures var (e, popped) := Pop(s);
      var next := Expand(grid, goal, popped, e.cell);
      && Inv(grid, start, goal, next)
      && 0 <= Measure(grid, start, next) < Measure(grid, start, s)
      && s.closed <= next.closed
      && var p := PartialPath(next, start, e.cell);
      && (p == [] <==> e.cell == start)
      && (e.cell != start ==> p[0] == start && Last(p) == e.cell && Steps(grid, start, p[1..]))
  {
    StepKeepsInv(grid, start, goal, s);
    var (e, popped) := Pop(s);
    var next := Expand(grid, goal, popped, e.cell);
    PartialFromStart(grid, start, next, e.cell);
  }

  /** Appending a frame whose closed set contains every earlier one keeps
      the frame properties. */
  lemma Extended(grid: Occupancy, start: Cell, frames: seq<Frame>, f: Frame)
    requires Rectangular(grid) && ClosedGrows(frames)
    requires forall i | 0 <= i < |frames| :: frames[i].closed <= f.closed
    requires forall i | 0 <= i < |frames| :: Drawn(grid, start, frames[i].partial)
    requires Drawn(grid, start, f.partial)
    ensures ClosedGrows(frames + [f])
    ensures forall i | 0 <= i < |frames + [f]| :: (frames + [f])[i].closed <= f.closed
    ensures forall i | 0 <= i < |frames + [f]| :: Drawn(grid, start, (frames + [f])[i].partial)
  {
  }

  /** Whether frames are recorded has no influence on the path. */
  lemma {:induction false} AnimationKeepsPath(grid: Occupancy, start: Cell, goal: Cell, s: State,
                                               a1: bool, f1: seq<Frame>, a2: bool, f2: seq<Frame>)
    requires Inv(grid, start, goal, s)
    ensures Loop(grid, start, goal, a1, s, f1).path == Loop(grid, start, goal, a2, s, f2).path
    decreases Measure(grid, start, s)
  {
    if |s.heap| > 0 {
      StepKeepsInv(grid, start, goal, s);
      var (e, popped) := Pop(s);
      if e.cell != goal {
        var next := Expand(grid, goal, popped, e.cell);
        var partial := PartialPath(next, start, e.cell);
        var g1 := if a1 then f1 + [Frame(partial, next.open, next.closed)] else f1;
        var g2 := if a2 then f2 + [Frame(partial, next.open, next.closed)] else f2;
        AnimationKeepsPath(grid, start, goal, next, a1, g1, a2, g2);
      }
    }
  }

  /** `astar` with `animate` set: the same path as without, closed sets that
      never shrink from frame to frame, every frame drawing a route from the
      start, whenever the goal was reached a last frame showing the returned
      path, and, unless start and goal coincide, at least one frame, with the
      start closed in every frame. */
  lemma AStarFrames(grid: Occupancy, start: Cell, goal: Cell)
    requires Rectangular(grid)
    ensures var r := AStar(grid, start, goal, true);
      && r.path == AStar(grid, start, goal, false).path
      && ClosedGrows(r.frames)
      && (forall i | 0 <= i < |r.frames| :: Drawn(grid, start, r.frames[i].partial))
      && (r.path != [] || start == goal ==> |r.frames| > 0 && Last(r.frames).partial == r.path)
      && (start != goal ==> |r.frames| > 0 && forall i | 0 <= i < |r.frames| :: start in r.frames[i].closed)
  {
    InitInv(grid, start, goal);
    var s := Init(start, goal);
    AnimationKeepsPath(grid, start, goal, s, true, [], false, []);
    LoopFrames(grid, start, goal, s, []);
    if start != goal {
      FirstFrame(grid, start, goal);
      var r := AStar(grid, start, goal, true);
      forall i | 0 <= i < |r.frames| ensures start in r.frames[i].closed {
        if i > 0 {
          assert r.frames[0].closed <= r.frames[i].closed;
        }
      }
    }
  }

  /** A non-goal iteration records a frame with the closed set after the
      expansion. */
  lemma ExpansionRecorded(grid: Occupancy, start: Cell, goal: Cell, s: State, frames: seq<Frame>)
    requires Inv(grid, start, goal, s) && |s.heap| > 0 && Pop(s).0.cell != goal
    ensures var (e, popped) := Pop(s);
      var r := Loop(grid, start, goal, true, s, frames);
      |r.frames| > |frames| && r.frames[|frames|].closed == popped.closed + {e.cell}
  {
    Advance(grid, start, goal, s);
  }

  /** The first iteration always expands the start, so with start and goal
      apart the first frame already has the start closed. */
  lemma FirstFrame(grid: Occupancy, start: Cell, goal: Cell)
    requires Rectangular(grid) && start != goal
    ensures var r := AStar(grid, start, goal, true);
      |r.frames| > 0 && start in r.frames[0].closed
  {
    InitInv(grid, start, goal);
    var s := Init(start, goal);
    assert Pop(s).0.cell == start;
    ExpansionRecorded(grid, start, goal, s, []);
  }
}
