# MazeSolver, modelled in Dafny

This project models the traversal engine of `MazeSolver`: the solver of a
grid maze, and what it proves about it. The engine has two parts.

- `getSolution` follows parent links from the end cell back to the start
  cell. It pushes each cell onto a stack, then pops the stack into a list
  that runs from start to end.
- `solveMazeDFS` is a depth-first search with an explicit stack. It marks
  the start explored, then looks at the four neighbours of the current
  cell in the order North, East, South, West. Each valid neighbour is
  pushed, marked explored and given the current cell as parent at the moment
  it is discovered. The next current cell is the one pushed last.

The model has three modules.

- `Cells` (cells.dfy) holds coordinates, adjacency, the `Reverse` of a stack,
  and the pigeonhole bound on distinct cells of a grid.
- `Grid` (maze.dfy) holds the class `Maze`, which stands in for the Java
  `Maze` and `MazeCell` classes. It has three `rows`-by-`cols` arrays:
  `wall`, `explored` and `parent` (an `Option` of a coordinate). It also has
  fixed `start` and `end` cells. `Maze` also holds the specification
  functions and predicates: `Ancestry` is the parent chain of a cell, `Tree`
  is the shape of the parent links during a search, `Settled` is the frontier
  invariant, and `Reachable` says some walk through open cells joins start
  and end.
- `Solver` (solver.dfy) holds the methods of `MazeSolver`. The solver's only
  field is its maze, so each method takes the maze as a parameter.

The search is written once, as `Search`, with a parameter that picks a stack
or a queue. `SolveMazeDFS` calls it with a stack. `SolveMazeBFS` calls it with
a queue.

`solveMazeBFS` is a stub in the Java code: it returns null. Its comment asks
for a breadth-first search that explores North, East, South, West.
`Solver.SolveMazeBFS` is that search. It is an extension that is not present
in the source. Nothing about shortest paths is claimed for it.

### Where the model departs from the code as written

The model follows what the code's comments say it is for. Each departure is
also marked in a doc comment.

- **Loop guard.** The loop guard at src/MazeSolver.java:69 reads
  `current != maze.getStartCell()`, and `current` starts as the start cell.
  So the loop never runs. The comment at :66 says the loop runs until the end
  cell is reached. The model loops while `current != end` (see "## Findings").
- **Row and column.** `row` and `col` are read once, from the start cell
  (src/MazeSolver.java:63-64), and never updated. With the guard corrected,
  every iteration would look at the start's neighbours. The model reads them
  from `current` on every iteration, in `CheckNeighbours`.
- **Empty stack.** Popping an empty stack (src/MazeSolver.java:99) throws in
  Java. The model returns `NoPath`, and proves that this happens exactly when
  the end cannot be reached.
- **Broken parent chain.** `getSolution` dereferences a missing parent
  (src/MazeSolver.java:41-43). It would also loop for ever on a cycle of
  parent links. The model returns `BrokenChain` in both cases, giving up after
  rows * cols links. Both searches prove that they never reach this case.

## Model

| member | source | states |
|---|---|---|
| Solver.GetSolution | src/MazeSolver.java:30-50 | The result is `Found` of the reversed parent chain of the end cell, or `BrokenChain` when that chain is missing. A found path starts at the start cell and ends at the end cell. Each cell's parent is the cell before it. When start and end coincide the result is `[start]` |
| Solver.PushAncestors | src/MazeSolver.java:39-44 | The stack pushed, read from the bottom, is exactly `Ancestry` of the end cell. It gives up (None) at a missing parent or after rows * cols links |
| Solver.PopAll | src/MazeSolver.java:46-48 | Popping every cell of a stack into a list gives the stack's contents reversed |
| Grid.Maze.AncestrySound | src/MazeSolver.java:39-44 | A chain `Ancestry` finds starts at the given cell and steps from each cell to its parent. It ends at the start, meets the start nowhere earlier, and has at most fuel + 1 cells |
| Grid.Maze.AncestryComplete | src/MazeSolver.java:39-44 | Conversely, every parent chain that first meets the start at its last cell is the one `Ancestry` finds |
| Cells.Reverse | src/MazeSolver.java:46-48 | The k-th element of the reversal is the k-th from the end, and the length is kept |
| Cells.ReverseTwice | src/MazeSolver.java:46-48 | Reversing twice gives back the original sequence, so the parent chain is the reversed path |
| Cells.ReverseWalk | src/MazeSolver.java:46-48 | Reversing a chain of distinct neighbouring cells keeps them distinct and neighbouring and swaps its endpoints |
| Solver.Discover | src/MazeSolver.java:71-75 | One check: `pushed` says whether the cell was valid (in bounds, not a wall, not explored). In that case it is pushed, and exactly that cell becomes explored with `current` as parent. Otherwise nothing changes |
| Solver.CheckNeighbours | src/MazeSolver.java:70-96 | The valid neighbours of `current` are pushed in the order North, East, South, West. Exactly those cells become explored with `current` as parent. Every other cell keeps its state |
| Grid.Maze.ValidNeighboursMembers | src/MazeSolver.java:71-96 | The cells the four checks push are exactly the valid neighbours of `current`, each once |
| Solver.Expand | src/MazeSolver.java:70-96 | After the four checks, the parent links still form a tree over the discovered cells, in discovery order. `current` becomes expanded. Each newly discovered cell has `current` as parent, every other parent is unchanged, and no parent that was set is overwritten |
| Grid.Maze.Prepare | src/MazeSolver.java:67-68 | The cells about to be discovered are valid neighbours of `current`. None of them was discovered before, and together with the discovered cells none appears twice |
| Grid.Maze.ExpandedTree | src/MazeSolver.java:71-96 | Marking the valid neighbours explored with `current` as parent keeps the tree. Each discovered cell other than the start has as parent a neighbour discovered before it. The start never gets a parent |
| Grid.Maze.ExpandedSettled | src/MazeSolver.java:70-99 | Once `current`'s valid neighbours are discovered, every open neighbour of `current` is explored. So the frontier invariant holds with `current` removed and the new cells added |
| Solver.MarkStart | src/MazeSolver.java:57-59 | From the reset state, after the start is marked explored, it is the only discovered cell and has no parent |
| Solver.Take | src/MazeSolver.java:99 | The next cell is the last of the waiting cells for a stack (LIFO) and the first for a queue. The rest are left waiting |
| Solver.Advance | src/MazeSolver.java:69-99 | One loop iteration. The discovered cells grow by the valid neighbours in N, E, S, W order. The next current cell is the one pushed last (stack) or earliest (queue). An empty stack means the end is unreachable. Each cell discovered in the iteration has `current` as parent, and every other parent is unchanged. The measure 2 * (rows * cols - discovered) + waiting strictly decreases |
| Solver.Search | src/MazeSolver.java:55-103 | The search terminates and leaves the parent links a tree over the discovered cells. It returns `Found` of a walk through open cells from start to end, with no cell twice and each cell the parent of the next, or `NoPath`. `NoPath` is returned exactly when no walk joins start and end |
| Solver.Conclude | src/MazeSolver.java:100-102 | Once the loop stops at the end cell, `getSolution` returns `Found` of a walk through open cells from start to end, with no cell twice and each cell the parent of the next, so the end is reachable |
| Solver.SolveMazeDFS | src/MazeSolver.java:55-103 | Depth-first search with the stack. The same contract as `Search`: the parent links form a tree rooted at the start over the discovered cells; a found path is a walk from start to end with no cell twice and is the end's parent chain reversed; `NoPath` exactly when no walk joins start and end |
| Solver.SolveMazeDFSAsWritten | src/MazeSolver.java:57-69 | With the loop guard as written, the loop never runs: afterwards only the start is explored and no parent is set, so the end has no parent unless it is the start. The result is `[start]` when start is the end, and otherwise the chain from the end is broken at its first link |
| Solver.SolveMazeBFS | src/MazeSolver.java:109-113 | An extension, not present in the source: the same skeleton with a queue, checking N, E, S, W. The same contract as `Search`: a tree of parent links rooted at the start, a found path that is a walk from start to end and the end's parent chain reversed, `NoPath` exactly when none exists |
| Grid.Maze.TreeAncestry | src/MazeSolver.java:67-68 | In a tree of parent links, the chain from the i-th discovered cell reaches the start within i links. It runs through earlier-discovered cells, each once, each a neighbour of the next |
| Grid.Maze.TreePath | src/MazeSolver.java:102 | For every discovered cell, the reversed parent chain is a walk through open cells from the start to that cell, with no cell twice |
| Grid.Maze.EndDiscovered | src/MazeSolver.java:102 | Once the end is discovered, `getSolution` finds a walk from start to end |
| Grid.Maze.WalkStaysDiscovered | src/MazeSolver.java:99 | When every discovered cell is expanded, every walk from the start ends at a discovered cell |
| Grid.Maze.Exhausted | src/MazeSolver.java:99 | When no cell is waiting, no walk leads from start to end |
| Cells.DistinctCellsBound | src/MazeSolver.java:69-100 | Distinct cells of a rows-by-cols grid number at most rows * cols, which bounds the cells the search can discover |

## Findings

| source | as written | input that shows it | evidently intended | confidence | as-written member | corrected member |
|---|---|---|---|---|---|---|
| src/MazeSolver.java:69 | `while (current != maze.getStartCell())`, with `current` starting as the start cell, so the loop body never runs | any maze whose start is not its end: no parent is set, and `getSolution` dereferences the end's missing parent | `while (current != maze.getEndCell())`, as the comment at :66 says | not executed | Solver.SolveMazeDFSAsWritten | Solver.SolveMazeDFS |

## Left out

- `main` (src/MazeSolver.java:115-133) loads a maze file, prints solutions and resets the maze. This is I/O and is not modelled.
- The `Maze` and `MazeCell` classes are not part of this model. `isValidCell`, `getCell`, `getStartCell`, `getEndCell`, `setExplored` and `setParent` are stood in for by the `Maze` class's arrays. `isValidCell` is taken to mean in bounds, not a wall, and not explored.
- `Maze.reset()` is not modelled. The state it is meant to leave (nothing explored, no parents) is the precondition `Reset()` of the searches.
- The constructors and `setMaze` (src/MazeSolver.java:13-23) only assign the maze field. The maze is a parameter of each operation instead.
- Java object identity is not modelled: a cell is its (row, column) pair, and `!=` on cells is inequality of coordinates.
- Exceptions are not modelled: a pop of an empty stack becomes `NoPath`, and a null parent becomes `BrokenChain`.
- Solver.SolveMazeDFS: does not model the stale `row`/`col` of src/MazeSolver.java:63-64. The model reads them from `current` on every iteration, because with them stale no cell beyond the start's neighbours would ever be checked.
- Solver.SolveMazeBFS: no shortest-path property is proved; its contract is the same as the depth-first search's.
- The contents of the `ArrayList` are cells, not `MazeCell` objects. The path is a sequence of coordinates.
