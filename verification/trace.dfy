/** The two loops of `astar` that walk `came_from` backwards and reverse
    the result (app.py:94-98 on success, app.py:136-143 for an animation
    frame), shown to compute the forward walk `Paths.Walk`. */
module Trace {
  import opened Grid
  import opened Seqs
  import opened Paths

  /** `s[::-1]`. */
  function Reversed<T>(s: seq<T>): (r: seq<T>)
    ensures |r| == |s|
    ensures forall i | 0 <= i < |s| :: r[i] == s[|s| - 1 - i]
  {
    seq(|s|, i requires 0 <= i < |s| => s[|s| - 1 - i])
  }

  /** Appending to `data` (app.py:96) puts the new cell in front of the
      reversed list. */
  lemma ReversedSnoc<T>(s: seq<T>, x: T)
    ensures Reversed(s + [x]) == [x] + Reversed(s)
  {
  }

  /** Reversing twice gives back the list. */
  lemma ReversedTwice<T>(s: seq<T>)
    ensures Reversed(Reversed(s)) == s
  {
  }

  /** The path returned on reaching the goal: every cell from the goal back
      along `came_from`, leaving out the cell without a predecessor (the
      start), in forward order. */
  method TracePath(cameFrom: map<Cell, Cell>, g: map<Cell, int>, goal: Cell) returns (path: seq<Cell>)
    requires Ranked(cameFrom, g)
    ensures path == Walk(cameFrom, g, goal)[1..]
  {
    ghost var w := Walk(cameFrom, g, goal);
    var data: seq<Cell> := [];
    var current := goal;
    while current in cameFrom
      invariant |data| < |w|
      invariant current == w[|w| - 1 - |data|]
      invariant forall i | 0 <= i < |data| :: data[i] == w[|w| - 1 - i]
      decreases |w| - |data|
    {
      data := data + [current];
      current := cameFrom[current];
    }
    path := Reversed(data);
  }

  /** The path drawn in an animation frame: empty for the start, otherwise
      `current` and every cell back along `came_from` up to and including the
      cell without a predecessor, in forward order. */
  method TracePartial(cameFrom: map<Cell, Cell>, g: map<Cell, int>, start: Cell, current: Cell)
    returns (partial: seq<Cell>)
    requires Ranked(cameFrom, g)
    ensures partial == if current == start then [] else Walk(cameFrom, g, current)
  {
    partial := [];
    if current != start {
      ghost var w := Walk(cameFrom, g, current);
      var temp := current;
      partial := partial + [temp];
      while temp in cameFrom
        invariant 0 < |partial| <= |w|
        invariant temp == w[|w| - |partial|]
        invariant forall i | 0 <= i < |partial| :: partial[i] == w[|w| - 1 - i]
        decreases |w| - |partial|
      {
        temp := cameFrom[temp];
        partial := partial + [temp];
      }
      partial := Reversed(partial);
    }
  }
}
