# Backtracking maze generator

This project models the maze generator of `backtracking_algorithm.py`. The
generator builds a rectangular grid of tiles. Each tile owns only its east and
south walls and carries a visited flag. A tracker then carves passages with a
randomised depth-first walk, and it backtracks through an explicit
last-in-first-out history stack.

The model is a functional state machine:

- `Tracker(tiles, pos, history)` is the tile dictionary, the tracker's
  `(self.x, self.y)` and its `Stack` of visited coordinates.
- `Update(s, k)` is one call of `Tracker.update`. The index `k` stands for the
  draw of `random.choice`, so quantifying over `k` covers every possible draw.
- `find` pops history until it reaches a tile with an accessible neighbour, calls
  `goto` on that tile and then calls `update` again, which always advances. The
  model splits this into `Backtrack` (the popping loop, recursive on the length
  of history), `Goto` and `Advance`.

Modules:

- `Results`: `Option` and `Result` for the `None` and exception paths.
- `Stacks`: the `Stack` class.
- `Grid`: tiles, coordinates, walls, and the grid built by `Maze.__init__`.
- `Tracker`: `is_accessible`, `accessible_neighbor`, `goto`, `find`, `update` and
  `Tracker.__init__`.
- `Traversal`: the invariant the walk keeps, termination, coverage, idempotence,
  and the border walls staying up.
- `Findings`: the extra wall knocked down on backtracking, shown on a 3 by 3
  grid, and the corrected step with its tree-count property.

The grid is generic in width and height. The application's own 32 by 20 grid
(1024 / 32 by 640 / 32) is given as `Grid.Width` and `Grid.Height`, and
`Tracker.AppMaze` builds a maze on it.

A randomised depth-first backtracker is usually described as carving a
perfect maze: the passages would form a spanning tree, with exactly one path
from the start to every cell. This code does not guarantee that. The model follows the code, and the difference is
recorded under "Findings".

## Model

| member | source | states |
|---|---|---|
| Stacks.Empty | backtracking_algorithm.py:19-20 | a new stack is empty: popping it fails with `IndexError` |
| Stacks.Add | backtracking_algorithm.py:25-26 | `add` grows the stack by one, and popping right after returns the added value together with the stack as it was before (LIFO) |
| Stacks.GetData | backtracking_algorithm.py:22-23 | `get_data` fails with `IndexError` exactly when the stack is empty; otherwise it shrinks the stack by one, and pushing the popped value back rebuilds the original stack |
| Grid.Cells | backtracking_algorithm.py:56-57 | a coordinate is among the cells the two `range` loops visit exactly when `0 <= x < w` and `0 <= y < h` |
| Grid.FreshGrid | backtracking_algorithm.py:55-58 | every coordinate in `[0,w) x [0,h)` holds a tile and no other coordinate does; every tile is fresh (both walls up, not visited) |
| Grid.BuildGrid | backtracking_algorithm.py:55-58 | the nested loops produce exactly the fresh grid on `[0,w) x [0,h)`, which has `w * h` tiles |
| Grid.FillColumn | backtracking_algorithm.py:57-58 | the inner loop adds a fresh tile at `(x, y)` for each `y` in `range(h)`, keeps every earlier tile, and adds `h` tiles |
| Grid.Visit | backtracking_algorithm.py:87-88 | `visit` marks the tile visited and leaves both its walls as they were |
| Grid.FreshGridStanding | backtracking_algorithm.py:74-76 | every tile `Tile.__init__` creates has both walls standing and is not visited, so on a new grid every wall stands and no tile is visited |
| Grid.SharedWall | backtracking_algorithm.py:144-151 | the wall on the edge between two adjacent tiles belongs to one of them and faces the other |
| Grid.AdjacentIsCompassStep | backtracking_algorithm.py:118-121 | the four compass steps `accessible_neighbor` looks at are exactly the tiles at Manhattan distance 1 |
| Tracker.AccessibleGet | backtracking_algorithm.py:94-95 | `is_accessible` applied to `get((x, y))` holds exactly when `(x, y)` is a tile that has not been visited; a missing tile (`None`) is not accessible |
| Tracker.AccessibleNeighbors | backtracking_algorithm.py:105-123 | at most four results, in north, east, south, west order; a coordinate is returned exactly when the start is a tile and the coordinate is an adjacent, unvisited tile; the list is empty exactly at a dead end, including when the start is not a tile |
| Tracker.Goto | backtracking_algorithm.py:136-153 | `goto(t)` moves to `t`, pushes `t`, marks only `t` visited, and knocks down only the wall the x-before-y comparison selects |
| Tracker.GotoWallSelects | backtracking_algorithm.py:144-151 | the `if/elif` chain clears a flag unless the target is the current position; the flag belongs to one of the two tiles, and it is an east wall whenever the x coordinates differ, whatever the y coordinates |
| Tracker.GotoWallAdjacent | backtracking_algorithm.py:144-151 | between adjacent tiles the comparison chain knocks down exactly the wall they share |
| Tracker.GotoWallNotAdjacent | backtracking_algorithm.py:144-151 | between two distinct tiles that are not adjacent the chain still knocks down a wall, and that wall does not lie between them |
| Tracker.AccessibleStable | backtracking_algorithm.py:105-123 | the accessible neighbours of a tile depend only on the visited flags of the other tiles |
| Tracker.Advance | backtracking_algorithm.py:155-159 | the chosen neighbour is adjacent and was unvisited; it alone becomes visited, it is pushed and becomes the position, and only the wall between the two tiles falls |
| Tracker.Backtrack | backtracking_algorithm.py:125-134 | the popping loop runs out exactly when every history entry is a dead end; otherwise it stops at the topmost entry that is not a dead end, with the entries below it left on the stack |
| Tracker.ResumeChoicesEmpty | backtracking_algorithm.py:129-131 | the list the nested `update` of `find` draws from is empty exactly when history runs out, and otherwise holds only unvisited tiles |
| Tracker.ChoicesEmpty | backtracking_algorithm.py:156-161 | `update` has nothing to draw from exactly when the position is a dead end and history runs out; otherwise every candidate is an unvisited tile |
| Tracker.Find | backtracking_algorithm.py:125-134 | after `find` the position is a tile, and no wall has been rebuilt and no visited flag cleared |
| Tracker.Update | backtracking_algorithm.py:155-161 | after `update` the position is a tile, and no wall has been rebuilt and no visited flag cleared |
| Tracker.NewTracker | backtracking_algorithm.py:97-103 | fails exactly when `(0, 0)` is not a tile; otherwise the tracker stands on `(0, 0)`, history is `[(0, 0)]`, only `(0, 0)` is visited and no wall has fallen |
| Tracker.NewMaze | backtracking_algorithm.py:53-59 | succeeds exactly for a non-empty grid; then the grid is `[0,w) x [0,h)`, `(0, 0)` alone is visited and in history, and every wall is up |
| Tracker.AppMaze | backtracking_algorithm.py:56-57 | the application's 1024 by 640 window with 32-pixel tiles gives a 32 by 20 grid, on which the maze is built successfully |
| Traversal.NewMazeInv | backtracking_algorithm.py:97-103 | a new maze satisfies the walk's invariant: history tiles visited and distinct, top of history is the position, and visited tiles no longer in history are dead ends |
| Traversal.AdvanceInv | backtracking_algorithm.py:155-159 | an advancing step keeps the invariant |
| Traversal.ExhaustedInv | backtracking_algorithm.py:133-134 | when `find` empties history the invariant still holds |
| Traversal.ResumeInv | backtracking_algorithm.py:128-131 | resuming at the tile `find` stops at, with the popped entries gone, keeps the invariant |
| Traversal.UpdateInv | backtracking_algorithm.py:155-161 | every `update`, for every draw, keeps the invariant |
| Traversal.UpdateProgress | backtracking_algorithm.py:155-161 | each `update` on a non-empty history either visits exactly one new tile and leaves history non-empty, or empties history and changes nothing else |
| Traversal.ResumeKeepsUnvisited | backtracking_algorithm.py:128-130 | the tile `find` resumes at is already visited, so `goto` on it leaves the unvisited tiles as they were |
| Traversal.UpdateIdle | backtracking_algorithm.py:155-161 | with history empty there is nothing to draw from, and `update` changes nothing |
| Traversal.DoneCoversGrid | backtracking_algorithm.py:125-134 | once history is empty, every tile of the grid is visited |
| Traversal.AdvancingUpdate | backtracking_algorithm.py:155-159 | an `update` from a tile with accessible neighbours moves to the chosen one, pushes it, visits only it, and knocks down only the wall between them |
| Traversal.FindExhausted | backtracking_algorithm.py:133-134 | when every history entry is a dead end, `find` pops them all, stops on `IndexError`, and leaves tiles and position as they were |
| Traversal.ExhaustedUpdate | backtracking_algorithm.py:155-161 | an `update` at a dead end whose history holds only dead ends has nothing to draw from, empties history and changes nothing else |
| Traversal.FindResumes | backtracking_algorithm.py:128-131 | `find` is the advance from the resumed tile after `goto` on it, and that `goto` does not change the tile's accessible neighbours |
| Traversal.BacktrackingFind | backtracking_algorithm.py:125-132 | `find` visits the resumed tile `t` and its chosen neighbour `n`, leaves history as the unpopped part plus `t` and `n`, and knocks down the `goto` wall and the wall between `t` and `n` |
| Traversal.GotoThenAdvance | backtracking_algorithm.py:130-131 | `goto(t)` followed by an advance from `t` visits `t` and `n`, pushes both, and knocks down exactly the `goto` wall and the wall toward `n` |
| Traversal.BacktrackingUpdate | backtracking_algorithm.py:125-132 | an `update` at a dead end resumes at a different tile `t` and advances to an adjacent unvisited `n`; exactly `t` and `n` become visited, history becomes the unpopped part plus `t` and `n`, and the cleared wall flags are exactly the one the comparison with the dead end selects and the one between `t` and `n` (the former may already be down) |
| Traversal.GotoKeepsBorder | backtracking_algorithm.py:144-151 | a `goto` between two tiles of a rectangular grid never opens the outer border |
| Traversal.UpdateKeepsBorder | backtracking_algorithm.py:155-161 | no `update` knocks down a wall on the outer border of the grid |
| Traversal.FindKeepsBorder | backtracking_algorithm.py:125-132 | no backtracking step knocks down a border wall |
| Traversal.Generate | backtracking_algorithm.py:42-43 | calling `update` repeatedly on a new maze ends, for any sequence of draws, within `w * h` calls, and the result is the run of exactly those `steps` draws from the new maze; then every tile is visited, history is empty, every border wall is up and `update` changes nothing more; the construction fails exactly for an empty grid |
| Traversal.RunSnoc | backtracking_algorithm.py:42-43 | one more `update` after a run is the run with the extra draw appended |
| Traversal.RunOne | backtracking_algorithm.py:155-161 | a run of one draw is one `update` |
| Traversal.RunFirst | backtracking_algorithm.py:155-161 | a run that does not fail takes its first draw in range, and the rest of the run continues from that one `update` |
| Traversal.Run | backtracking_algorithm.py:42-43 | a run of updates keeps the position on a tile and only knocks walls down and marks tiles visited |
| Traversal.RunInv | backtracking_algorithm.py:155-161 | every state a run reaches satisfies the invariant |
| Traversal.RunIdle | backtracking_algorithm.py:155-161 | once history is empty, any number of further updates changes nothing |
| Traversal.RunTerminates | backtracking_algorithm.py:125-134 | any run with at least as many draws as the remaining work empties history |
| Traversal.NewMazeMeasure | backtracking_algorithm.py:53-59 | a new maze has one unit of work per tile |
| Traversal.RunCompletes | backtracking_algorithm.py:155-161 | from a new maze, a run with at least as many draws as tiles ends with history empty, every grid tile visited and `update` idle |
| Traversal.IdleForever | backtracking_algorithm.py:155-161 | with history empty, no draw makes `update` change anything |
| Findings.ResumeIntended | backtracking_algorithm.py:136-139 | the corrected resumption stands on `t` and pushes it, visits only `t`, and knocks down no wall |
| Findings.UpdateIntended | backtracking_algorithm.py:155-161 | the corrected `update` keeps the position on a tile |
| Findings.CarveKeepsTree | backtracking_algorithm.py:155-159 | carving from a visited tile to an unvisited neighbour adds one passage and one visited tile, so "passages = visited tiles - 1" is kept |
| Findings.CarveJoinsVisited | backtracking_algorithm.py:155-159 | after such a carve every passage still joins two visited tiles |
| Findings.AdvanceKeepsTree | backtracking_algorithm.py:155-159 | an advancing step keeps both tree properties |
| Findings.NewMazeTree | backtracking_algorithm.py:53-59 | a new maze has no passage and one visited tile |
| Findings.IntendedKeepsTree | backtracking_algorithm.py:125-132 | the corrected `update` keeps the invariant, keeps every passage between visited tiles, and keeps "passages = visited tiles - 1" |
| Findings.IntendedResumeKeepsTree | backtracking_algorithm.py:128-131 | the corrected backtracking step keeps the tree properties |
| Findings.RunIntended | backtracking_algorithm.py:42-43 | a run of corrected updates keeps the position on a tile |
| Findings.IntendedRunIsTree | backtracking_algorithm.py:155-161 | every state a run of corrected updates reaches from a tree-shaped state is tree-shaped: one passage fewer than visited tiles, each passage between visited tiles |
| Findings.NewMazeRunIsTree | backtracking_algorithm.py:53-59 | from a new maze, every state a run of corrected updates reaches has one passage fewer than visited tiles, each passage between visited tiles |
| Findings.NewMazeStarts | backtracking_algorithm.py:53-59 | a new 3 by 3 maze is the start state the counterexample walks from |
| Findings.NeighboursOnGrid | backtracking_algorithm.py:105-123 | on the 3 by 3 grid, the accessible neighbours are the free compass neighbours in north, east, south, west order |
| Findings.WalkEnd | backtracking_algorithm.py:155-159 | the draws 0, 0, 0, 1, 0, 1, 0 take the 3 by 3 maze to `(0, 1)`, with every tile but `(2, 2)` visited and the passages tree-shaped |
| Findings.WalkEndsStuck | backtracking_algorithm.py:105-123 | the walk ends at a dead end |
| Findings.BacktrackFromWalkEnd | backtracking_algorithm.py:125-132 | from there `find` pops `(0, 1)` and `(0, 2)` and resumes at `(1, 2)` |
| Findings.ResumeStep | backtracking_algorithm.py:128-131 | a backtracking `update` whose resumed tile has one accessible neighbour knocks down the `goto` wall and the wall toward that neighbour |
| Findings.UpdateAtWalkEnd | backtracking_algorithm.py:144-151 | the next `update` knocks down the east walls of `(0, 1)` and `(1, 2)` and visits `(1, 2)` and `(2, 2)` |
| Findings.TwoWallsOneTile | backtracking_algorithm.py:144-151 | a step that knocks down two standing walls but visits one new tile breaks "passages = visited tiles - 1" |
| Findings.CarveAtWalkEnd | backtracking_algorithm.py:144-151 | at the end of the walk the east wall of `(0, 1)` is up and the passages are tree-shaped; after the next `update` that wall is down and they are not |
| Findings.WallByEnds | backtracking_algorithm.py:144-151 | the wall `goto` knocks down between two adjacent tiles is the only wall whose two sides are those tiles |
| Findings.AdvanceDown | backtracking_algorithm.py:155-159 | an advancing step knocks down the wall toward the chosen neighbour and raises no fallen wall |
| Findings.WalkStep | backtracking_algorithm.py:155-159 | one step of the 3 by 3 walk is an advancing `update` with the given draw: it visits and pushes the next tile and knocks down the wall between the two tiles |
| Findings.PathDown | backtracking_algorithm.py:155-159 | the walls the walk's steps 5, 6 and 7 knocked down are the passages (1,1)-(1,2), (1,2)-(0,2) and (0,2)-(0,1) |
| Findings.SpuriousCarveCounterexample | backtracking_algorithm.py:128-131 | the faithful run with draws 0, 0, 0, 1, 0, 1, 0 on a 3 by 3 maze reaches a state with "passages = visited tiles - 1", in which (0, 1) and (1, 1) are already connected through (0, 2) and (1, 2); the next `update` (draw 0) knocks down the east wall of (0, 1) between them, closing a cycle, and breaks "passages = visited tiles - 1" |

## Left out

- `MainApp`, `Tile.display`, `Tile.image`, the drawing loop of `Maze.update`, `pygame.init`/`pygame.quit`, the event loop and the clock: these only render and pace, so `Traversal.Generate` keeps only the repeated `update` calls.
- The pixel rectangle of a tile: the source stores `x * 32` and recovers `x` with `// 32`. The model stores the integer coordinates directly.
- The `random` module: each draw is an index into the list `random.choice` would draw from (`Tracker.Choices`). `Traversal.Generate` takes the draws from an arbitrary function. The distribution is not modelled.
- A start other than `(0, 0)` for `Tracker.__init__`: `Maze` only uses the default. A different start would make the first `goto` compare against `(0, 0)` and knock down a wall.
- The `AttributeError` the source raises when `goto` reads a wall of a position that is not a tile: every operation requires the position to be a tile, which holds in every reachable state (`Tracker.Update` ensures it).
- `recursive_tree.py` is not part of this model: it is unrelated turtle graphics driven by `input()`.
- A perfect-maze (spanning tree) property of the faithful walk: it does not hold, as shown under "Findings". Its edge-count form is proved for the corrected walk in `Findings.IntendedRunIsTree` and `Findings.NewMazeRunIsTree`.
- The faithful walk (`Tracker.Update`, `Traversal.Generate`) keeps the code's behaviour. Only the `Findings` module uses the corrected step.
- Tracker.Find: its contract states only that the position stays on a tile and that the change is monotone. What `find` does in each branch is stated by `Traversal.BacktrackingFind` and `Traversal.BacktrackingUpdate` (a tile is found) and `Traversal.FindExhausted` (history runs out).
- Tracker.Update: its contract states only that the position stays on a tile and that the change is monotone. What each branch does is stated by `Traversal.AdvancingUpdate`, `Traversal.BacktrackingUpdate`, `Traversal.ExhaustedUpdate` and `Traversal.UpdateIdle`.
- Findings.IntendedRunIsTree and Findings.NewMazeRunIsTree: prove the edge count of a tree (one passage fewer than visited tiles, each passage between visited tiles). It does not prove connectivity or acyclicity as graph properties.
- Findings.UpdateIntended: its contract states only that the position stays on a tile. Its tree property is `Findings.IntendedKeepsTree`.

## Findings

| source | as written | input that shows it | evidently intended | confidence | as-written member | corrected member |
|---|---|---|---|---|---|---|
| backtracking_algorithm.py:128-131 | `find` calls `goto(t)` while the position is still the dead end. The x-before-y comparison chain of `goto` (lines 144-151) therefore knocks down a wall even though the dead end and `t` need not be adjacent. | A 3 by 3 maze with draws 0, 0, 0, 1, 0, 1, 0 walks (0,0) (1,0) (2,0) (2,1) (1,1) (1,2) (0,2) (0,1). The next `update` (draw 0) resumes at (1,2) and knocks down the east wall of (0,1). That wall joins (0,1) to (1,1), which the passages (0,1)-(0,2)-(1,2)-(1,1) already connect, so a cycle closes and "passages = visited tiles - 1" breaks. | Resume at `t` without knocking down any wall, so that the passages form a spanning tree of the visited tiles. | not executed | Findings.SpuriousCarveCounterexample | Findings.NewMazeRunIsTree |
