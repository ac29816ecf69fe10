# A* grid search

This project models `astar` from the Streamlit path-finding demo. The function runs A* search on a
4-connected occupancy grid: the value 1 is a wall, every step costs 1, and the heuristic is the
Manhattan distance. It returns the path from start to goal with the start left out. When asked, it
also returns one animation frame per expanded cell, plus a final frame when the goal is reached. A frame holds a partial
path, the open set and the closed set.

The model is functional. The mutable tables `open_set`, `close_set`, `came_from`, `gscore`,
`fscore` and `oheap` form an immutable `Search.State`. `Search.Loop` performs one iteration of
`while oheap` per call, and `Search.AStar` runs it from the initial tables.

- `heappop` on `(f, (row, col))` tuples is a minimum under lexicographic order
  (`Heap.EntryLe`). No cell is ever in the heap twice, so that minimum is unique and the model
  removes the same entry Python does.
- `gscore.get(n, inf)` means "no key" (`Search.Better`).
- Termination is proved with a measure: the sum, over every cell the search can score, of its cost
  (or the number of such cells while it is unscored), plus the heap size. `Search.ScoreBound`
  shows costs stay below that number.

Modules:

| module | contents |
|---|---|
| `Grid` | cells, bounds, walls, offsets, Manhattan distance |
| `Seqs` | distinctness and size facts |
| `Heap` | the priority queue |
| `Paths` | routes and the walk back along `came_from` |
| `Potential` | the termination measure |
| `Search` | the loop, its invariant, path validity and completeness |
| `Trace` | the two backward walks as loops |
| `Animation` | frames, and independence from `animate` |

Two behaviours of `astar` the model keeps as they are:

- **No input checks.** `astar` checks neither bounds nor walls for the start and the goal, so the
  model accepts any start and goal on any rectangular grid. An out-of-bounds or walled start is
  simply scored and expanded.
- **Ties between equal priorities.** Heap entries are `(f, (row, col))` tuples, so Python's tuple
  comparison breaks ties by `(row, col)`. The model does the same.

## Model

| member | source | states |
|---|---|---|
| Grid.OffsetsAreUnitSteps | astar_streamlit_app/app.py:75 | The four neighbour offsets give exactly the cells at Manhattan distance 1: 4-connectivity, both directions. |
| Heap.EntryLe | astar_streamlit_app/app.py:81 | The comparison `heapq` applies to `(f, (row, col))` tuples: a smaller key always comes first, a larger key never does, and every entry is at most itself. |
| Heap.EntryLeTotalOrder | astar_streamlit_app/app.py:130 | That comparison is a total order: reflexive, total, antisymmetric and transitive. |
| Heap.MinIndex | astar_streamlit_app/app.py:88 | The popped position holds an entry no greater, in `(f, row, col)` order, than any entry of the heap. |
| Heap.MinIsUnique | astar_streamlit_app/app.py:88 | With distinct cells, any position holding a minimal entry is the one chosen, so every extract-min (in particular `heappop`) takes the same entry. |
| Heap.Remove | astar_streamlit_app/app.py:88 | Popping takes out exactly one occurrence of the entry, as a multiset, and adds nothing. |
| Heap.RemoveCells | astar_streamlit_app/app.py:88-91 | After the pop, the heap's cells are the old ones minus the popped cell, still without repeats; this is what `open_set.remove` mirrors. |
| Heap.PushCells | astar_streamlit_app/app.py:129-131 | Pushing a cell not yet in the heap adds exactly that cell and keeps cells distinct. |
| Paths.Walk | astar_streamlit_app/app.py:95-97 | Following `came_from` back from a cell ends at a cell without a predecessor. It yields a sequence ending at the cell in which each cell is the recorded predecessor of the next, and it is a single cell exactly when the cell has no predecessor. |
| Paths.WalkUnique | astar_streamlit_app/app.py:140-142 | Any sequence that ends at the cell, follows predecessor links and starts at a cell with no predecessor is that walk. |
| Paths.WalkRanked | astar_streamlit_app/app.py:124-126 | Costs strictly increase along the walk, so it visits no cell twice and the back-walk loops terminate. |
| Trace.Reversed | astar_streamlit_app/app.py:98 | `[::-1]`: the same length, with position i holding the input's position from the end. |
| Trace.ReversedSnoc | astar_streamlit_app/app.py:96-98 | Appending a cell to `data` puts it in front of `data[::-1]`, so the cell appended last (the one nearest the start) comes first in the path. |
| Trace.ReversedTwice | astar_streamlit_app/app.py:98 | `[::-1]` undoes itself: reversing the reversed list gives back the list. |
| Trace.TracePath | astar_streamlit_app/app.py:94-98 | The `data` loop with `data[::-1]` returns the walk to the goal with its first cell (the start) dropped. |
| Trace.TracePartial | astar_streamlit_app/app.py:136-143 | The frame's partial path is empty for the start; otherwise it is the whole walk from the start to the current cell, start included. |
| Search.Init | astar_streamlit_app/app.py:75-82 | The tables before the loop: only the start is scored, open and in the heap; its cost is 0 and its f is its Manhattan distance to the goal; nothing is closed and no cell has a predecessor. |
| Search.Relax | astar_streamlit_app/app.py:109-131 | One pass of the neighbour loop never forgets a scored cell and never changes the closed set. `Search.RelaxShape` states exactly what it changes. |
| Search.RelaxAll | astar_streamlit_app/app.py:108 | The loop over the four offsets keeps every scored cell and the closed set. |
| Search.Expand | astar_streamlit_app/app.py:106-131 | Expanding a cell closes exactly that cell and keeps every scored cell scored. |
| Search.PartialPath | astar_streamlit_app/app.py:136-143 | The partial path is empty exactly for the start. Otherwise it ends at the current cell, starts at a cell without a predecessor, and each cell is the recorded predecessor of the next. |
| Search.PartialFromStart | astar_streamlit_app/app.py:136-143 | Under the loop invariant, a non-empty partial path starts at the start and ends at the current cell, and its cells after the start form a route of passable unit steps. |
| Search.Pop | astar_streamlit_app/app.py:88-91 | `heappop` plus `open_set.remove` take out one smallest heap entry and its cell from the open set; nothing else changes. |
| Search.PopHeap | astar_streamlit_app/app.py:88-91 | The popped cell is always in `open_set` (the `remove` never raises), and the heap and the open set still hold the same cells afterwards. |
| Search.InitInv | astar_streamlit_app/app.py:75-82 | The initial tables satisfy the loop invariant: the start alone is open, scored 0, with f equal to its Manhattan distance to the goal. |
| Search.RelaxShape | astar_streamlit_app/app.py:108-131 | With every scored cell open or closed, a neighbour is updated exactly when it is in bounds, not a wall and cheaper through the current cell. The update sets its predecessor, g and f = g + Manhattan, and pushes it only if it was not open. Otherwise nothing changes, including for a closed cell that would not improve. |
| Search.RelaxStep | astar_streamlit_app/app.py:108-131 | One neighbour relaxation keeps the invariant: heap mirrors open, f = g + h, start cost 0, ranked links to adjacent passable cells. It scores every passable neighbour and never raises the termination measure. |
| Search.RelaxAllLowers | astar_streamlit_app/app.py:124-127 | Across the four relaxations, costs only fall, no scored cell is dropped, and every passable neighbour of the expanded cell ends up scored. |
| Search.ScoreBound | astar_streamlit_app/app.py:119 | Every recorded cost is smaller than the number of cells the search can score. |
| Search.PopStep | astar_streamlit_app/app.py:88-106 | Popping and closing a non-goal cell keeps the invariant, except that the new cell is not yet explored, and lowers the measure. |
| Search.ExpandStep | astar_streamlit_app/app.py:106-131 | Relaxing the four neighbours of the closed cell restores the full invariant (every closed cell has all passable neighbours scored), keeps the closed set, and lowers costs only. |
| Search.StepKeepsInv | astar_streamlit_app/app.py:87-131 | A whole non-goal iteration keeps the invariant. The closed set gains exactly the popped cell, costs never rise (so the start keeps cost 0), and the non-negative measure strictly falls, so the loop terminates. |
| Search.WalkFromStart | astar_streamlit_app/app.py:94-98 | The walk back from any scored cell starts at the start, and its remaining cells are a route of passable unit steps from the start. |
| Search.GoalStep | astar_streamlit_app/app.py:93-98 | When the goal is popped, the rebuilt path is a route from the start ending at the goal, and it is empty exactly when the goal is the start. |
| Search.RouteStaysClosed | astar_streamlit_app/app.py:106-131 | When all closed cells are explored and no scored cell is left open, every route from the start stays inside the closed set. |
| Search.Exhausted | astar_streamlit_app/app.py:147-148 | When the heap runs empty, no route of passable cells leads from the start to the goal. |
| Search.Loop | astar_streamlit_app/app.py:87-148 | The returned path is a route of passable unit steps from the start and ends at the goal when non-empty. If start and goal differ, an empty path means no route exists. Frames are only ever appended, and none are added when not animating. |
| Search.AStar | astar_streamlit_app/app.py:70-148 | The same path guarantees for the whole search. Start equal to goal gives the empty path at once, with a single empty frame when animating. Without animation the frame list is empty. |
| Animation.GoalFrame | astar_streamlit_app/app.py:100-102 | The final frame's path is a route of passable unit steps from the start that does not contain the start and, when non-empty, ends at the goal. Its closed set is the one before the pop. |
| Animation.ExpansionFrame | astar_streamlit_app/app.py:133-145 | An expansion frame's path is empty exactly when the expanded cell is the start. Otherwise it starts at the start, ends at the expanded cell, and its cells after the start form a route. Its closed set contains the previous one, and the invariant holds again. |
| Animation.EmptyHeapApart | astar_streamlit_app/app.py:87 | The loop cannot run out of entries while start and goal coincide. |
| Animation.LoopFrames | astar_streamlit_app/app.py:99-102 | From any state, the recorded closed sets never shrink, and every frame draws a route from the start. Whenever the goal is reached (the path is non-empty, or start and goal coincide), the last frame shows exactly the returned path. |
| Animation.AnimationKeepsPath | astar_streamlit_app/app.py:134 | Whether frames are recorded never changes the path the loop returns. |
| Animation.ExpansionRecorded | astar_streamlit_app/app.py:106 | A non-goal iteration records a frame whose closed set has the popped cell added. |
| Animation.FirstFrame | astar_streamlit_app/app.py:87-106 | With start and goal apart, the first frame exists and has the start closed. |
| Animation.AStarFrames | astar_streamlit_app/app.py:70-148 | With animation the path is the same as without; closed sets grow from frame to frame; every frame draws a route from the start. When the goal was reached the last frame shows the returned path, and unless start and goal coincide there is at least one frame and the start is closed in all of them. |

## Left out

- `plot_grid` and the Streamlit page (`main`, session state, widgets) are rendering and user
  interface, not search.
- The `animation_speed` parameter is accepted by `astar` but never used, so it is not modelled.
- The order of the `list(open_set)` and `list(close_set)` lists in a frame depends on Python's
  set iteration order. Frames hold sets instead.
- The grid is a rectangular sequence of rows of integers. The numpy array type is left out.
  Only the row and column counts and the value 1 for a wall matter.
- Optimality of the returned path is not stated. When an open cell's cost improves, its heap key
  is left stale and it is not pushed again (app.py:124-131), so pops are not strictly in f order.
  The model neither proves nor refutes that the path is shortest.
- Search.AStar: the number of frames (one per non-goal iteration plus one on success) is not
  stated as a separate count. It holds by construction of `Search.Loop`, which appends exactly one
  frame per iteration.
- No concrete grid is evaluated: the properties are stated for all grids.
