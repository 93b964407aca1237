# Maze generation and solving, modelled in Dafny

`mazes.py` defines one class, `Maze`. Its grid `arr` has `height` rows of `width` cells. A cell is
`1` (a wall), `0` (a passage) or `"P"` (a path marker, which only appears in stamped copies).

- Construction fills the grid with walls. It sets the default `start = (1, 1)` and
  `end = (width - 2, height - 2)`, then runs `recursive_backtrace`.
- `recursive_backtrace` carves the maze. It uses an explicit stack and looks two cells away, in
  the order down, up, right, left.
- `is_wall`, `is_path` and `neighbors` are the bounds-checked grid queries.
- There are three solvers:
  - `random_mouse` is a random walk from `start`;
  - `dfs` is a stack search whose top is index 0, returning the stack from `end` back to `start`;
  - `dijkstra` is a unit-weight shortest-path search. Its priority queue keeps stale duplicates.
    It returns the walk from `end` back to `start` along the `prev` dict.
- `shortest_path(method)` runs one solver by name. It stamps the path into a copy of the grid and
  returns the copy wrapped in a new `Maze`.

Modules:

- `Wrappers` holds `Option` and `Result`. `Option` stands for Python's `None` and for the
  infinite distances of `dijkstra`. `Result` stands for the exceptions.
- `Grid` holds cells, positions, the cell tests, `neighbors` and single-cell carving.
- `Carving` holds what the generator may write, and the closure argument that every room other
  than `start` gets opened, and `start` too once a room lies two steps from it.
- `Backtracking` holds the step lemmas of the generator loop.
- `Routes` holds walks, reachability, the facts behind the solvers, and the stamp.
- `Search` holds the loop invariants of `dfs` and `dijkstra`, the relaxation loop of `dijkstra`
  and its trace back along `prev`.
- `Mazes` holds the class `Maze`: construction, the generator, `neighbors`, the three solvers and
  `shortest_path`, plus the stamping loop and the re-wrap of the copy.

How the Python is modelled:

- The grid is a `seq<seq<Cell>>` field that the methods reassign.
- `random.choice` becomes a nondeterministic choice (`:|`).
- `float("inf")` becomes `None`.
- The `PriorityQueue` becomes a multiset of `(distance, position)` entries with pop-min.
- Missing attributes and failed lookups become `Err` values (`MissingAttribute`, `KeyError`,
  `IndexError`, `UnknownNeighborType`, `UnexpectedMethod`).

The code never assigns an explicit `start` or `end` argument (`if not start: self.start = ...`).
The model therefore treats an explicit `start` as making construction fail: generation reads
`self.start` at once. An explicit `end` leaves `end` unset, so every solver fails when it first
reads it.

## Model

| member | source | states |
|---|---|---|
| Mazes.Maze.Blank | mazes.py:20-29 | the grid is `height` rows of `width` walls; `start` is `(1, 1)`; `end` is `(width - 2, height - 2)` exactly when no explicit end was passed, otherwise unset |
| Mazes.Maze.New | mazes.py:20-35 | construction fails with a missing `start` exactly when an explicit start is passed; otherwise the grid is a generated maze of the given size with the default start, and the default end unless an explicit end was passed, in which case `end` is unset |
| Carving.AllWalls | mazes.py:25 | the initial grid has the given shape, with every cell a wall and no marker |
| Grid.IsWall | mazes.py:69-72 | `is_wall` is false for every position outside the grid, where the source's bounds guard fails |
| Grid.IsPath | mazes.py:74-77 | `is_path` is false for every position outside the grid, where the source's bounds guard fails |
| Grid.CellTestsExclusive | mazes.py:69-77 | `is_wall` and `is_path` never both hold; both are false outside the grid; inside a grid of 0s and 1s exactly one holds |
| Grid.Neighbors | mazes.py:79-96 | an unknown type raises `UnknownNeighborType`; otherwise the result holds exactly the in-grid candidates at distance `radius` whose cell matches the type |
| Grid.NeighborsOf | mazes.py:88-96 | membership: a position is listed exactly when it is one of the four candidates and matches the type |
| Grid.KeptCandidates | mazes.py:89-96 | the loop over the four directions appends exactly the neighbour list |
| Grid.NeighborsInOrder | mazes.py:88-96 | the neighbours are a subsequence of the candidates in the order right, left, down, up |
| Mazes.Maze.Neighbors | mazes.py:79-96 | the loop over the directions returns exactly the neighbour result, including the error for an unknown type |
| Grid.PathNeighborsAreAdjacent | mazes.py:79-96 | with the defaults `radius = 1` and type "path", the neighbours are exactly the in-grid passages at Manhattan distance 1 |
| Grid.Carve | mazes.py:56 | writing 0 into one in-grid cell keeps the grid's shape |
| Grid.CarveAt | mazes.py:56 | the written cell becomes a passage and every other cell is unchanged |
| Grid.CarveWalls | mazes.py:55-62 | carving never adds a wall, and carving a wall removes one from the wall set |
| Grid.PositionsSize | mazes.py:137-142 | the `dist` and `prev` dicts have `width * height` keys |
| Carving.CarvedFromTrans | mazes.py:55-62 | repeated carving only ever turns walls into passages, at carvable cells |
| Carving.FinishedStays | mazes.py:44-48 | a cell with no wall two steps away keeps that property under further carving |
| Carving.CarveOne | mazes.py:55-62 | writing 0 into a carvable cell is a carving step and introduces no marker |
| Carving.StepGeometry | mazes.py:55-62 | from a room towards an in-grid target, the cell between is in the grid, carvable and not a room; the target is a room, so every target keeps the parity of `start` |
| Carving.BacktrackInit | mazes.py:38 | the generator's invariant holds for the stack `[start]` on the initial grid |
| Carving.RoomsReached | mazes.py:40-67 | if every reached cell is finished, every never-reached room is a wall and `start` was reached, then every in-grid room was reached |
| Carving.AllRoomsOpen | mazes.py:40-67 | under the same conditions, every room other than `start` is a passage, and so is `start` once a room lies two steps from it |
| Carving.OddMazeShape | mazes.py:37-67 | for odd dimensions of at least 5, the generated border is all walls, no cell with both coordinates even is carved, and every room, `start` included, is a passage |
| Backtracking.WallTargets | mazes.py:43-48 | `valid` holds exactly the directions whose cell two steps away is an in-grid wall; it is empty exactly when the top is finished |
| Backtracking.BacktrackPop | mazes.py:41-51 | popping a top with an empty `valid` keeps the invariant |
| Backtracking.PushBounds | mazes.py:53-62 | for a chosen direction, both written cells lie in the grid |
| Backtracking.CarveStep | mazes.py:55-62 | the two writes of a move keep the grid's shape |
| Backtracking.BacktrackPush | mazes.py:50-67 | a move writes only in-grid cells, keeps the invariant with the target on top, and strictly shrinks the wall set |
| Backtracking.PushKeepsInv | mazes.py:50-67 | the same, once both written cells are known to lie in the grid |
| Backtracking.PushKeepsStack | mazes.py:67 | pushing a room keeps every stacked cell reached, and keeps reached cells rooms |
| Backtracking.DoubleCarve | mazes.py:55-62 | the two writes of a move only turn walls into passages, at carvable cells, and add no marker |
| Backtracking.DoubleCarveWalls | mazes.py:55-62 | a move onto a wall target strictly shrinks the wall set |
| Backtracking.DoubleCarveCells | mazes.py:55-62 | after a move the target is a passage, and every cell other than the two written ones is unchanged |
| Backtracking.PushKeepsCells | mazes.py:55-62 | after a move, reached cells stay open passages and unreached rooms keep their starting value |
| Backtracking.FinishedAllStay | mazes.py:55-67 | cells off the stack stay finished after a move |
| Backtracking.StartInBounds | mazes.py:38-47 | an in-grid cell two steps from `start` in a generator direction implies that `start` lies in the grid |
| Backtracking.BacktrackDone | mazes.py:40 | with the stack empty and an all-wall start, every room other than `start` is a passage, and so is `start` once a room lies two steps from it |
| Mazes.Maze.RecursiveBacktrace | mazes.py:37-67 | terminates; only ever writes 0 into carvable in-grid walls; from an all-wall grid every room other than `start` is a passage, and so is `start` once a room lies two steps from it |
| Routes.RouteOpen | mazes.py:98-103 | every element of a forward walk except `start` is an in-grid passage |
| Routes.BackRouteOpen | mazes.py:166-171 | every element of a backward walk except its last, `start`, is an in-grid passage |
| Routes.BackRouteReversed | mazes.py:105-132 | a walk from `end` back to `start`, reversed, is a walk from `start` to `end`, so `end` is reachable |
| Routes.ReachableHasRows | mazes.py:199 | a walk between two different positions needs a grid with a row and a column |
| Routes.ClosedHoldsRoute | mazes.py:123-130 | a set closed under steps that holds the start of a walk holds its end |
| Routes.ClosedExcludesUnreachable | mazes.py:105-132 | a closed set holding `start` but not `end` shows that `end` is unreachable |
| Routes.MinEntryExists | mazes.py:151 | a nonempty queue has an entry of least distance, so `pq.get()` is defined |
| Routes.SettledBoundsRoute | mazes.py:134-171 | once every finite distance is settled, `dist[b]` is finite and at most the length of any walk from `start` to `b` |
| Routes.StampUnique | mazes.py:179-182 | stamping a path into a grid has one result |
| Routes.StampIdempotent | mazes.py:179-182 | stamping the same path twice gives the same grid as stamping it once |
| Routes.StampOnlyMarksPassages | mazes.py:179-182 | stamping a walk turns passages into "P" and nothing else, and leaves `start` and `end` alone |
| Search.RouteExtend | mazes.py:98-103 | appending a passage neighbour extends a walk from `start` |
| Search.Unvisited | mazes.py:123 | the filtered list holds exactly the neighbours not in `visited` |
| Search.DfsInit | mazes.py:106-110 | the invariant of `dfs` holds for the stack `[start]` and an empty `visited` |
| Search.DfsPush | mazes.py:112-127 | going to the first unvisited neighbour keeps the invariant; `seen` grows by one in-grid position, so fewer positions are unseen |
| Search.DfsIterations | mazes.py:112-130 | the iteration count is at most `2 * width * height + 1` |
| Search.SeenGrows | mazes.py:126-127 | adding an unseen in-grid position shrinks the set of unseen positions |
| Search.DfsPushStack | mazes.py:127 | the new stack is a backward walk to `start` without repeats |
| Search.DfsPushSets | mazes.py:113-127 | the visited, seen and closed parts of the invariant survive a push |
| Search.DfsPop | mazes.py:128-130 | popping a top with no unvisited neighbour keeps the invariant; the popped cell is closed |
| Search.DfsDone | mazes.py:112-132 | an empty stack means `end` is unreachable |
| Search.AllNone | mazes.py:137-142 | `dist` and `prev` start with exactly the in-grid positions as keys, each mapped to infinity or `None` |
| Search.DijkstraInit | mazes.py:137-148 | the invariant of `dijkstra` holds once `dist[start] = 0` and the queue holds `(0, start)` |
| Search.DijkstraPopStale | mazes.py:151-157 | dropping a popped entry worse than its position's distance keeps the invariant |
| Search.DijkstraPopCurrent | mazes.py:151-157 | a popped entry that is not stale has exactly its position's distance, and the other positions remain settled or queued |
| Search.QueueEntry | mazes.py:151-157 | a queued entry's position has a finite distance no larger than the entry's |
| Search.FloorRises | mazes.py:151 | the bound on finite distances survives popping a larger distance |
| Search.QueuePop | mazes.py:151 | after pop-min, every queued entry lies between the popped distance and one more |
| Search.PendingDrop | mazes.py:151-157 | dropping a stale entry, or the entry of the position being expanded, keeps every other position settled or queued |
| Search.UnsetShrinks | mazes.py:162-164 | setting an infinite distance removes exactly one position from the set of infinite distances |
| Search.DijkstraRelax | mazes.py:159-164 | an improvement only ever replaces an infinite distance; finite distances stay; the updated dicts and queue keep the invariant |
| Search.RelaxKeys | mazes.py:162-163 | the keys of `dist` and `prev` do not change, and `dist[start]` stays 0 |
| Search.RelaxQueue | mazes.py:164 | the new entry `(d + 1, neighbor)` fits the queue's distance bounds |
| Search.RelaxPending | mazes.py:159-164 | after a relaxation, every position other than the one being expanded is still settled or queued |
| Search.RelaxPredecessors | mazes.py:163 | `prev[neighbor] = current` keeps `prev` a predecessor map: one step back to a strictly smaller distance |
| Search.SettledStays | mazes.py:162 | a settled position stays settled when an infinite distance elsewhere becomes finite |
| Search.Expand | mazes.py:159-164 | the loop over the popped position's neighbours keeps the invariant, after which that position has a finite distance and is settled; no finite distance changes; every neighbour whose distance improves goes from infinite to `d + 1`, with `current` as predecessor and an entry `(d + 1, neighbour)` queued; the queue only grows (every old entry stays), by exactly one entry per distance that became finite; `prev` changes only where `dist` changes; fewer distances stay infinite, or the queue is unchanged |
| Search.RelaxedNothing | mazes.py:159 | before the loop, nothing has been relaxed |
| Search.RelaxedStep | mazes.py:161-164 | one relaxation extends the record of what the loop has changed, adding one queue entry and one finite distance |
| Search.FiniteExtends | mazes.py:159-164 | the neighbours handled so far all have finite distances |
| Search.NeighborKnown | mazes.py:161 | every in-grid neighbour is a key of `dist` |
| Search.DijkstraSettle | mazes.py:159-164 | once every adjacent passage has a finite distance, the expanded position is settled |
| Search.DijkstraDone | mazes.py:150-164 | with the queue empty, every position reachable from `start` has a finite distance no longer than any walk to it |
| Search.StepBack | mazes.py:169-170 | `prev[v]` is one step back from `v`, with a strictly smaller distance |
| Search.Trace | mazes.py:166-171 | the trace succeeds exactly when `end` is `start` or has a finite distance; otherwise it raises `KeyError`; on success it is a walk from `end` back to `start` of at most `dist[end] + 1` cells |
| Search.TraceStep | mazes.py:169-170 | appending `prev[out[-1]]` keeps a backward walk |
| Search.DijkstraOutcome | mazes.py:134-171 | the result is a path exactly when `end` is reachable, and it is no longer than any walk from `start` to `end` |
| Mazes.Maze.RandomMouse | mazes.py:98-103 | on success, a walk from `start` to `end`; `random.choice([])` raises `IndexError` only at a reachable cell without passage neighbours; with `end` set, the only failures are `IndexError` and running out of fuel; an unset `end` raises |
| Mazes.Maze.Dfs | mazes.py:105-132 | the result is nonempty exactly when `end` is reachable; it is then a walk from `end` back to `start` without repeats; the loop runs at most `2 * width * height + 1` times; an unset `end` raises |
| Mazes.Maze.Dijkstra | mazes.py:134-171 | success exactly when `end` is reachable, with a walk from `end` back to `start` that is no longer than any walk from `start` to `end`; otherwise `KeyError`, which is the only failure once `end` is set; a missing `end` raises its own error |
| Mazes.Maze.ShortestPath | mazes.py:173-201 | an unknown method name raises; once `end` is set, the error is the solver's own: `IndexError` or running out of fuel for `random_mouse`, `KeyError` for `dijkstra`, and for `dfs` only the `IndexError` of a copy without rows; on success the new maze holds the grid with the solver's path stamped in, under the original's dimensions, start and end; for `dijkstra` the path is a shortest walk, and for `dfs` an unreachable `end` gives an unchanged copy |
| Mazes.Stamp | mazes.py:177-182 | the copy equals the grid except that every position of the path other than `start` and `end` is "P" |
| Mazes.StampNothing | mazes.py:179-182 | stamping an empty path gives back the grid unchanged |
| Mazes.RewrapDimsAsWritten | mazes.py:199 | as written, re-wrapping a copy without rows raises `IndexError` |
| Mazes.RewrapDimsAsWrittenSwaps | mazes.py:199 | as written, a non-square copy is wrapped with its width and height exchanged, which do not match its rows |
| Mazes.RewrapDimsAsWrittenExample | mazes.py:199 | a grid 3 wide and 2 high is wrapped as 2 wide and 3 high |
| Mazes.RewrapDims | mazes.py:199 | corrected re-wrap: it raises `IndexError` exactly for a copy without rows |
| Mazes.RewrapDimsOfShaped | mazes.py:199 | corrected re-wrap: a copy with rows gets its own width and height back |

## Left out

- `print`, `to_image`, and the capture and saving of GIF frames (mazes.py:31-33, 58-65, 184-197, 203-250): these are terminal and image rendering and file output.
- The `__main__` block (mazes.py:253-255).
- The distribution of `random.choice`: the model only says that some valid element is chosen.
- `PriorityQueue` tie-breaking on positions: pop-min takes any least entry. Which of several shortest walks `dijkstra` returns is therefore not modelled, only that it is shortest.
- `getattr` reflection (mazes.py:175): it is modelled as a comparison of the method name with the three solver names.
- Mazes.Maze.RandomMouse: the walk has no termination guarantee. The model bounds it by a `fuel` step budget and fails with `OutOfFuel` when that runs out.
- Any perfect-maze (acyclic) claim. `start` is not carved before the loop, so it can later be opened from two sides, which closes a loop through it. What is proved instead is that every room other than `start` gets opened, and `start` too once a room lies two steps from it.
- Mazes.Maze.ShortestPath: the throwaway `recursive_backtrace` run by `Maze(...)` on the copy (mazes.py:185, 199) is not performed, because `m.arr = new_arr` replaces its grid at once. The random grid it carves is not modelled.
- Mazes.Maze.ShortestPath: it uses the corrected re-wrap (see Findings), so the returned maze has the copy's own width and height and keeps the original's `end` `(width - 2, height - 2)`. As written, the wrapper would get the width and height swapped and `end` `(height - 2, width - 2)`.
- Row aliasing: Python lists are shared by reference, grids here are values. `[row[:] for row in self.arr]` is therefore plain assignment, and `m.arr = new_arr` shares nothing in the model.
- Mazes.Maze.RecursiveBacktrace: the two writes `arr[y1][x1] = 0` and `arr[y2][x2] = 0` are modelled as one step, and the carving runs on a local grid assigned to `arr` when the loop ends. Nothing reads `arr` in between apart from the GIF capture, which is left out.
- Backtracking.WallTargets: the order down, up, right, left of `valid` is not stated, since `random.choice` ignores order. Only its membership is stated.
- Mazes.Stamp: it requires every stamped position to lie in the grid. Python would raise for an index past the end and wrap a negative index, but every solver result satisfies the requirement.
- Widths and heights are natural numbers. A negative size, which Python would accept and turn into an empty grid, is not modelled.
- A falsy explicit `start` or `end` (such as `()`) behaves like an omitted one in Python. The model's optional arguments have no falsy values, so any given value counts as explicit.
- Mazes.Maze.Dfs: the iteration bound is returned as a ghost count of loop iterations. It is not a running time.

## Findings

| source | as written | input that shows it | evidently intended | confidence | as-written member | corrected member |
|---|---|---|---|---|---|---|
| mazes.py:199 | `Maze(len(new_arr), len(new_arr[0]))` passes the row count as the width and the row length as the height | a maze 3 wide and 2 high comes back 2 wide and 3 high, not matching its rows (the same call is at mazes.py:185) | `Maze(len(new_arr[0]), len(new_arr))` | not executed | Mazes.RewrapDimsAsWrittenSwaps | Mazes.RewrapDimsOfShaped |
