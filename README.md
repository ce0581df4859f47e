# Verified model of the maze core

This project models the maze core of a Python maze generator and
solver: the grid of walled cells, the recursive-backtracker and Prim
generators, and the BFS, DFS, Dijkstra, A* and wall-follower solvers.
It proves what these promise about that model:

- the neighbour queries return the right cells, in top, right, bottom, left order;
- `remove_wall` opens a passage both ways and keeps the walls of neighbours in agreement;
- both generators turn a fully walled grid into a perfect maze, whatever the random choices;
- BFS, Dijkstra and A* return a shortest route or, when end cannot be reached, an empty path;
- DFS returns a route or, when end cannot be reached, an empty path;
- the wall follower takes exactly the steps of the right-hand rule.

How the model is organised:

- **Cells and grid** (`Cells.dfy`, `Grids.dfy`).
  - A cell is a value: four wall flags and the transient flags.
  - The `Grid` class keeps its cells as a field `cells: seq<seq<Cell>>` indexed `cells[x][y]`, which its methods reassign. A cell's position is its index.
  - The grid also holds the `current` pointer that generators write for display.
  - The list-building loops of `get_neighbors`, `get_accessible_neighbors` and `reset_visited` are methods proved against the functions that specify them.
- **Generators** (`Carving.dfy`, `Backtracker.dfy`, `Prims.dfy`).
  - `Carving` holds the theory both generators share: the cells taken into the maze, the count of knocked-down inner walls, the invariant of a carving that grows a tree one cell at a time, and the perfect maze it ends in.
  - The backtracker's random draws come from an oracle `rand`: draw `k` picks index `rand(k) % |neighbours|`. The specification function `Dug` gives the board a run ends with, for every oracle.
  - Prim's random choices are the verifier's `:|`, so every contract holds for every choice the source could make.
- **Searches** (`Search.dfy`, `Discovery.dfy`, `Bfs.dfy`, `Dfs.dfy`, `Dijkstra.dfy`, `Heaps.dfy`, `AStarHeap.dfy`, `AStarSpec.dfy`, `AStar.dfy`).
  - Each solver's main loop is proved equal, round by round, to a specification function `Run(k)`: its state after `k` rounds. Invariants about `Run` are proved as lemmas.
  - `came_from`, `distances` and `g_score` are maps keyed by position.
  - The heaps are multisets from which the least entry is taken, in the order Python compares the entry tuples.
- **Wall follower** (`WallFollower.dfy`). The walk is the function `Walk`; the method's path equals it.

`Agreement.dfy` relates the shortest-path solvers to each other.

## Model

| member | source | states |
|---|---|---|
| Cells.NewCell | model/cell.py:2-13 | A new cell has all four walls standing and none of visited, is_entry, is_exit, visited_by_solver, in_frontier, is_path set |
| Cells.CheckWalls | model/cell.py:15-31 | The wall check answers with the left wall when the other cell is one column to the left and the right wall when it is one column to the right. Only when the x offset is not ±1 does it answer with the top or bottom wall for a y offset of +1 or -1, and with false (no wall) for any other offset |
| Cells.CheckWallsSymmetric | model/cell.py:15-31 | For two adjacent cells whose facing walls agree, the check gives the same answer from either cell |
| Cells.AdjacentStep | model/cell.py:20-30 | For every unit neighbour, the side the check examines is the side whose step leads to that neighbour |
| Cells.Walls.Open | model/grid.py:42-57 | Knocking down the wall on side s clears exactly that wall flag and keeps the other three |
| Grids.Grid.constructor | model/grid.py:6-10 | A new grid has the given rows and columns, every cell a fresh fully walled cell, walls agreeing between neighbours, and `current` at (0, 0) |
| Grids.Grid.GetCell | model/grid.py:12-15 | A cell is returned exactly when 0 <= x < cols and 0 <= y < rows, and it is the cell at index [x][y]; otherwise None |
| Grids.Grid.NeighborsUpToFacts | model/grid.py:20-26 | After the first k directions of the loop, the list holds exactly the in-bounds cells one step away in those directions, in direction order |
| Grids.Grid.NeighborsFacts | model/grid.py:17-26 | The neighbours are exactly the in-bounds cells at Manhattan distance 1, at most four of them, in top, right, bottom, left order |
| Grids.Grid.GetNeighbors | model/grid.py:17-26 | The loop over the four directions returns the neighbour list specified by Neighbors |
| Grids.Grid.VisitedAmongMembers | model/grid.py:28-31 | Filtering by the visited flag keeps exactly the listed cells whose flag has the wanted value |
| Grids.Grid.VisitedAmongInSideOrder | model/grid.py:28-31 | Filtering by the visited flag keeps the top, right, bottom, left order |
| Grids.Grid.UnvisitedNeighborsFacts | model/grid.py:28-31 | The unvisited neighbours are exactly the in-bounds adjacent cells not marked visited, in side order |
| Grids.Grid.OpenFacts | model/grid.py:35-39 | The accessible filter keeps exactly the listed cells the wall check does not block, in their order |
| Grids.Grid.AccessibleFacts | model/grid.py:33-40 | The accessible neighbours are exactly the in-bounds adjacent cells that the cell's own walls do not block, in side order |
| Grids.Grid.GetAccessibleNeighbors | model/grid.py:33-40 | The filtering loop returns the list specified by Accessible |
| Grids.Grid.AccessibleIsPassable | model/grid.py:33-40 | A cell is an accessible neighbour exactly when the passage to it is open in the grid's wall map |
| Grids.Grid.RemoveWallEffect | model/grid.py:42-57 | When neither offset is ±1 the walls are unchanged. Otherwise the wall of a facing b comes down, the wall of b facing a comes down, and every other cell keeps its walls |
| Grids.Grid.RemoveWallOpens | model/grid.py:42-57 | After the removal between adjacent cells, the passage is open in both directions |
| Grids.Grid.RemoveWallKeepsSymmetry | model/grid.py:42-57 | If every pair of neighbours agreed on their shared wall before the removal, they still agree after it |
| Grids.Grid.WithoutWallFacts | model/grid.py:42-57 | The board after the removal has the updated wall map and exactly the old flags |
| Grids.Grid.RemoveWall | model/grid.py:42-57 | The method leaves the board specified by WithoutWall. No flag changes, the passage between adjacent cells opens both ways, and wall agreement between neighbours is kept |
| Grids.ResetFlags | model/grid.py:59-66 | A reset cell keeps its walls, is_entry and is_exit, and has visited, visited_by_solver, in_frontier and is_path cleared |
| Grids.Grid.ResetVisited | model/grid.py:59-66 | The nested loops reset every cell of the grid as ResetFlags says and change no wall |
| Carving.PassagesKept | model/grid.py:42-57 | Removing a wall never closes an open passage |
| Carving.EnclosedKept | model/grid.py:42-57 | Removing the wall between two adjacent cells never breaches the outer wall of the grid |
| Carving.CarveCounts | model/grid.py:42-57 | Knocking down the wall between adjacent cells, one of them still fully walled, adds exactly one passage |
| Carving.CarveWalls | model/grid.py:42-57 | Carving into a fully walled cell keeps the outer wall and wall agreement, adds one passage, opens the new passage both ways and keeps every old passage |
| Carving.GrowStart | model/generators/recursive_backtracker.py:9-14 | Taking the first cell into a fully walled grid starts a growing carving whose only taken cell is that one |
| Carving.GrowReach | model/generators/recursive_backtracker.py:29-33 | Knocking through from a taken cell to a new cell keeps every taken cell reachable from the root, and makes the new cell reachable too |
| Carving.GrowBoard | model/generators/recursive_backtracker.py:29-33 | Knocking through from a taken cell to an untaken one keeps every growing-carving property. The untaken cells stay fully walled, the outer wall and wall agreement hold, and the passages stay one fewer than the taken cells |
| Carving.GrowKeeps | model/generators/recursive_backtracker.py:29-33 | One carve from a taken cell into an untaken neighbour keeps the carving a growing tree and adds exactly that cell |
| Carving.TakenByDistance | model/generators/recursive_backtracker.py:16-42 | When every neighbour of a taken cell is taken, every cell of the grid is taken |
| Carving.CoordsCount | model/grid.py:9 | The grid has exactly rows * cols positions |
| Carving.RouteBack | model/grid.py:42-57 | With walls agreeing between neighbours, every route can be walked backwards |
| Carving.AllConnected | model/generators/recursive_backtracker.py:16-42 | If every cell is reachable from the root and walls agree, every cell is reachable from every other |
| Carving.Spans | model/generators/recursive_backtracker.py:16-42 | A growing carving in which every neighbour of a taken cell is taken is a perfect maze. Every cell is taken and reachable from every other, the outer wall stands, and exactly rows * cols - 1 inner walls are down |
| BacktrackerSpec.Begin | model/generators/recursive_backtracker.py:9-14 | The initial state takes in (0, 0) and stacks it alone, and is well formed: the board fits the grid and the stack lies on it |
| BacktrackerSpec.DigStep | model/generators/recursive_backtracker.py:17-42 | One iteration leaves a well formed state |
| BacktrackerSpec.StepShrinks | model/generators/recursive_backtracker.py:24-42 | Every iteration either takes in a new cell or pops the stack, so the loop ends |
| BacktrackerSpec.Dug | model/generators/recursive_backtracker.py:16-42 | The board the loop ends with is defined for every start state and every sequence of draws, and fits the grid |
| BacktrackerSpec.StepKeepsStack | model/generators/recursive_backtracker.py:29-40 | Every iteration keeps every stack cell taken in, with each stack cell open to the next |
| BacktrackerSpec.StepKeepsDigging | model/generators/recursive_backtracker.py:24-40 | Every iteration on a fresh run keeps a growing carving and a connected stack. Every taken cell off the stack also keeps all its neighbours taken |
| BacktrackerSpec.DugPerfect | model/generators/recursive_backtracker.py:16-42 | A run in that state ends in a perfect maze |
| BacktrackerSpec.BacktrackerCarvesPerfectMaze | model/generators/recursive_backtracker.py:7-42 | From a fully walled grid with no cell taken, the generator carves a perfect maze whatever the random draws |
| Backtracker.Generate | model/generators/recursive_backtracker.py:7-45 | The final cells are those specified by Dug, whether or not the run is shown. `current` ends as None when the run is shown and is never written otherwise. From a fresh grid the result is a perfect maze |
| Backtracker.Iterate | model/generators/recursive_backtracker.py:17-42 | One iteration of the loop leaves the board, stack and draw count of DigStep |
| Prims.FrontierStart | model/generators/prims.py:9-17 | After the start cell is taken in, its unvisited neighbours form a frontier of untaken cells that each touch a taken cell. From a fresh grid they are every untaken neighbour of the maze |
| Prims.FrontierHasTakenNeighbor | model/generators/prims.py:25-28 | A frontier cell always has a visited neighbour, so the list of visited neighbours is never empty |
| Prims.TakeIn | model/generators/prims.py:34 | Taking the chosen cell in changes no other visited flag and removes exactly that cell from the untaken cells |
| Prims.Advance | model/generators/prims.py:34-42 | Taking the chosen cell in and trading it for its unvisited neighbours leaves a frontier that still rims the maze. The untaken cells strictly decrease |
| Prims.Pass | model/generators/prims.py:28-42 | One iteration keeps the loop invariant: a frontier, and from a fresh grid a growing carving that it rims. The untaken cells strictly decrease |
| Prims.RimmedSaturated | model/generators/prims.py:19 | When the frontier is empty and rimmed the maze, every neighbour of a taken cell is taken |
| Prims.Generate | model/generators/prims.py:7-46 | The loop ends with `current` None. From a fully walled grid with no cell taken, the result is a perfect maze whatever the random choices |
| Prims.Expand | model/generators/prims.py:21-42 | One iteration picks a frontier cell as current and knocks down the wall between it and an adjacent visited cell. It marks current visited and trades it in the frontier for its unvisited neighbours. The invariant is kept and the untaken cells strictly decrease |
| Prims.KnockThrough | model/generators/prims.py:25-31 | The chosen neighbour is an adjacent visited cell, and the wall between it and the current cell is removed |
| Prims.AddAll | model/generators/prims.py:37-39 | The frontier grows by exactly the listed cells |
| Heaps.LeastExists | model/solvers/dijkstra.py:23 | Every nonempty heap under a total preorder has a least entry |
| Heaps.Least | model/solvers/dijkstra.py:23 | heappop takes an entry no greater than any other in the heap |
| Search.SetFlags | model/solvers/bfs.py:24-25 | Setting solver flags on a cell changes nothing else of the maze. A write that keeps the cell's visited_by_solver, or its is_path, leaves every cell's flag of that kind as it was |
| Search.FlagSet | model/solvers/astar.py:25 | Raising visited_by_solver on a cell adds exactly it to the flagged cells; a write that leaves the flag alone keeps them |
| Search.ReverseAt | model/solvers/bfs.py:39 | The reversed path has at position k the element at position n - 1 - k |
| Search.TrailLinks | model/solvers/bfs.py:34-38 | The walk back from c starts at c and follows came_from one link at a time. It ends at a cell recorded with no predecessor, so the `while temp` loop ends |
| Search.WalkBack | model/solvers/bfs.py:34-38 | The loop collects exactly that walk back and marks exactly its cells is_path. It changes no visited_by_solver flag and nothing else of the maze |
| Search.MarkSet | model/solvers/bfs.py:37 | Marking one more cell is_path adds exactly that cell to the cells marked since the walk began |
| Search.ReversedLinks | model/solvers/bfs.py:39 | The reversed walk follows the links forwards from the root and ends at the cell the walk began with |
| Search.Reconstruct | model/solvers/bfs.py:31-39 | The path is empty exactly when end is not recorded. Otherwise it runs along came_from links from a root to end. Exactly its cells gain is_path, and no visited_by_solver flag changes |
| Search.ChainIsRoute | model/solvers/bfs.py:22-26 | When every came_from link is an open passage, a chain of links is a route through the maze |
| Search.TreeChainConnects | model/solvers/bfs.py:31-39 | A chain of links in a search tree is a route from start to its last cell, one longer than that cell's level |
| Search.SpreadUnreachable | model/solvers/dfs.py:15-30 | A search that has expanded all it recorded, and recorded every open neighbour of what it expanded, has not recorded end only if end cannot be reached |
| Search.ClosedUnreachable | model/solvers/bfs.py:15-29 | With everything recorded expanded and levels closed under open passages, an unexpanded end cannot be reached |
| Search.LevelIsShortest | model/solvers/bfs.py:15-29 | A cell at the least level among those waiting has a level no larger than the length of any route to it, minus one |
| Discovery.VisitFromNext | model/solvers/bfs.py:22-27 | Visiting one more neighbour leaves the state alone if the search has seen it. Otherwise that neighbour is appended to the pending list and linked to the current cell |
| Discovery.VisitFromTree | model/solvers/bfs.py:22-27 | Visiting open neighbours keeps the came-from links a search tree over open passages |
| Discovery.Discover | model/solvers/bfs.py:22-27 | The loop over the accessible neighbours leaves exactly the pending list and came_from that Expanded specifies. The flags match the recorded cells and the maze is otherwise unchanged |
| BfsQueue.PopFrontier | model/solvers/bfs.py:16-20 | Taking the head off the queue keeps the queue the level-ordered frontier, at the head's level |
| BfsQueue.PushFrontier | model/solvers/bfs.py:23-27 | Appending a newly discovered cell one level further keeps the queue the level-ordered frontier |
| BfsSpec.ExpandKeeps | model/solvers/bfs.py:15-29 | One round keeps the invariant (search tree, level-ordered queue, closure on a clean grid) and lowers the queue length minus recorded cells by one |
| BfsSpec.RunKeeps | model/solvers/bfs.py:15-29 | The invariant holds after every number of rounds |
| BfsSpec.RunBounds | model/solvers/bfs.py:15-29 | Queued cells lie on the grid and at most rows * cols cells are recorded. Every round before the stop lowers the queue length minus recorded cells, so the loop ends |
| BfsSpec.RunOutcome | model/solvers/bfs.py:15-29 | At the stop the links form a search tree. On a grid with no cell flagged beforehand, an unrecorded end is unreachable, and a recorded end's level is below the length of every route to it |
| BfsSpec.PathOutcome | model/solvers/bfs.py:31-41 | A nonempty path is a route from start to end. On a clean grid the path is empty exactly when end is unreachable, and no route is shorter |
| Bfs.Solve | model/solvers/bfs.py:8-41 | The solver changes only solver flags. visited_by_solver ends set on exactly the cells the stopped search recorded in came_from, besides those set before, and is_path on exactly the path cells besides those set before. A nonempty result is a route from start to end. On a clean grid the result is empty exactly when end is unreachable, and otherwise a shortest route |
| DfsStack.PopStack | model/solvers/dfs.py:16-21 | Popping the top of the stack keeps the stack exactly the recorded, unexpanded cells |
| DfsStack.PushStack | model/solvers/dfs.py:26-30 | Pushing a newly recorded cell keeps the stack exactly the recorded, unexpanded cells, each once |
| DfsSpec.ExpandKeeps | model/solvers/dfs.py:15-32 | One round keeps the invariant (search tree, stack as frontier, spread on a clean grid) and lowers the stack length minus recorded cells by one |
| DfsSpec.RunKeeps | model/solvers/dfs.py:15-32 | The invariant holds after every number of rounds |
| DfsSpec.RunBounds | model/solvers/dfs.py:15-32 | Stacked cells lie on the grid and at most rows * cols cells are recorded. Every round before the stop lowers the stack length minus recorded cells, so the loop ends |
| DfsSpec.RunOutcome | model/solvers/dfs.py:15-32 | At the stop the links form a search tree, and the stack is empty exactly when end was never recorded. On a clean grid an empty stack means end is unreachable |
| DfsSpec.PathOutcome | model/solvers/dfs.py:34-44 | A nonempty path is a route from start to end. On a clean grid it is empty exactly when end is unreachable |
| Dfs.Explore | model/solvers/dfs.py:8-32 | The loop stops in the state Run specifies, with `found` true exactly when the stopped stack is nonempty, that is when end was popped. visited_by_solver ends set on exactly the recorded cells besides those set before; no is_path flag changes |
| Dfs.Trace | model/solvers/dfs.py:34-44 | The path is nonempty exactly when found. A nonempty path is a route from start to end, and exactly its cells gain is_path. On a clean grid it is empty exactly when end is unreachable |
| Dfs.Solve | model/solvers/dfs.py:7-44 | The solver changes only solver flags. visited_by_solver ends set on exactly the cells the stopped search recorded, besides those set before, and is_path on exactly the path cells besides those set before. A nonempty result is a route from start to end. On a clean grid it is empty exactly when end is unreachable |
| DijkstraHeap.LeastUnique | model/solvers/dijkstra.py:23 | The least (distance, (x, y)) entry is unique, so heappop's choice is determined |
| DijkstraHeap.Least | model/solvers/dijkstra.py:23 | The popped entry is no greater than any entry in the heap in tuple order |
| DijkstraHeap.PopLeast | model/solvers/dijkstra.py:22-31 | Popping the least entry keeps the heap one entry per recorded, unexpanded cell at its distance, at the popped distance |
| DijkstraHeap.PushEntry | model/solvers/dijkstra.py:37-42 | Pushing a newly recorded cell at distance one further keeps that heap invariant |
| DijkstraSpec.RelaxSettled | model/solvers/dijkstra.py:37-42 | A relaxation of a cell that already has a distance changes nothing, so no stale heap entry ever arises |
| DijkstraSpec.RelaxTree | model/solvers/dijkstra.py:33-42 | A relaxation keeps came_from and distances a search tree over open passages, with start at 0 and no predecessor |
| DijkstraSpec.ExpandKeeps | model/solvers/dijkstra.py:22-44 | One round keeps the invariant (search tree, heap as frontier, closure) and lowers heap size minus recorded cells by one |
| DijkstraSpec.RunKeeps | model/solvers/dijkstra.py:22-44 | The invariant holds after every number of rounds |
| DijkstraSpec.RunBounds | model/solvers/dijkstra.py:22-44 | The popped cell lies on the grid, so `if not current` never fires. At most rows * cols cells are recorded, and each round before the stop lowers heap size minus recorded cells |
| DijkstraSpec.RunOutcome | model/solvers/dijkstra.py:22-44 | At the stop the links form a search tree. An unrecorded end is unreachable, and a recorded end's distance is below the length of every route to it |
| DijkstraSpec.PathOutcome | model/solvers/dijkstra.py:46-56 | A nonempty path is a route from start to end. The path is empty exactly when end is unreachable, and no route is shorter |
| Dijkstra.Solve | model/solvers/dijkstra.py:13-56 | Whatever the flags, the solver changes only solver flags. It returns a shortest route from start to end, or nothing exactly when end is unreachable. visited_by_solver ends set on exactly the cells given a distance, besides those set before, and is_path on exactly the path cells besides those set before |
| Dijkstra.Explore | model/solvers/dijkstra.py:15-44 | The loop stops in the state Run specifies, with came_from and distances as there. visited_by_solver ends set on exactly the cells given a distance, besides those set before; no is_path flag changes |
| Dijkstra.Relaxations | model/solvers/dijkstra.py:33-42 | The loop over accessible neighbours leaves the heap, distances and came_from that RelaxFrom specifies, with visited_by_solver set on exactly the recorded cells |
| Dijkstra.RelaxOne | model/solvers/dijkstra.py:34-42 | One relaxation leaves the heap, distances and came_from of Relax, flagging the neighbour visited_by_solver exactly when it is recorded |
| Agreement.DijkstraMatchesBfs | model/solvers/dijkstra.py:9-11 | On a clean grid, Dijkstra's path and the BFS path have the same length |
| Agreement.AStarMatchesDijkstra | model/solvers/astar.py:12-53 | A*'s path and Dijkstra's path have the same length |
| AStarHeap.HeuristicFacts | model/solvers/astar.py:8-10 | The heuristic is zero exactly between equal cells, symmetric, and changes by at most one between adjacent cells |
| AStarHeap.LeastUnique | model/solvers/astar.py:15-23 | With distinct tiebreak counts, the least (priority, count) entry is unique, so cells are never compared |
| AStarHeap.PushCounted | model/solvers/astar.py:36-37 | Pushing with the incremented count keeps every count distinct and at most the counter |
| AStarHeap.PopCounted | model/solvers/astar.py:23 | Popping keeps counts distinct and at most the counter |
| AStarSpec.TotalLower | model/solvers/astar.py:33-34 | Lowering one g-score lowers the sum of all g-scores |
| AStarSpec.LinksGrow | model/solvers/astar.py:33-38 | Updating a cell to a strictly smaller score through an open passage keeps the links. Start keeps score 0 and no predecessor, and each link leads to a strictly smaller score |
| AStarSpec.PushQueue | model/solvers/astar.py:33-39 | A push keeps distinct counts and entries in step with the scores, and every unexpanded recorded cell keeps an entry |
| AStarSpec.ExpandKeeps | model/solvers/astar.py:22-41 | One round keeps the invariant: links, queue, closure of the expanded cells, and end never expanded |
| AStarSpec.RunKeeps | model/solvers/astar.py:22-41 | The invariant holds after every number of rounds |
| AStarSpec.RunProgress | model/solvers/astar.py:22-41 | Every round records more cells, or lowers the sum of scores, or shrinks the heap |
| AStarSpec.MeasureDrops | model/solvers/astar.py:22-41 | That progress strictly lowers a well-founded measure bounded by rows * cols, so the loop ends |
| AStarSpec.RunBounds | model/solvers/astar.py:22-41 | The popped cell lies on the grid and has a score, counts are distinct, and at most rows * cols cells are scored. Every round before the stop makes progress |
| AStarSpec.ChainScores | model/solvers/astar.py:43-51 | Along a chain of links the g-score at position n is at least n |
| AStarSpec.HeuristicAdmissible | model/solvers/astar.py:8-10 | The heuristic from any cell of a route to its end is no more than the number of steps left |
| AStarSpec.WaitingOnRoute | model/solvers/astar.py:22-41 | While the search runs, some heap entry has priority no more than the length of any route to end, minus one |
| AStarSpec.StopOptimal | model/solvers/astar.py:27-28 | When end is popped its g-score is below the length of every route to it |
| AStarSpec.DryQueue | model/solvers/astar.py:22 | An empty heap means every recorded cell is expanded |
| AStarSpec.RunOutcome | model/solvers/astar.py:22-41 | At the stop, an unrecorded end is unreachable, and a recorded end's score is below the length of every route to it |
| AStarSpec.LinksConnect | model/solvers/astar.py:43-51 | A chain of links is a route from start, no longer than its last cell's score plus one |
| AStarSpec.PathOutcome | model/solvers/astar.py:43-53 | A nonempty path is a route from start to end. The path is empty exactly when end is unreachable, and no route is shorter |
| AStar.Solve | model/solvers/astar.py:12-53 | Whatever the flags, the solver changes only solver flags. It returns a shortest route from start to end, or nothing exactly when end is unreachable. visited_by_solver ends set on exactly the popped cells, besides those set before, and is_path on exactly the path cells besides those set before |
| AStar.Explore | model/solvers/astar.py:15-41 | The loop stops in the state Run specifies. visited_by_solver is set on exactly the popped cells, in addition to those flagged before |
| AStar.PopNext | model/solvers/astar.py:23-25 | The popped cell is the least entry's, is removed from the heap and is flagged visited_by_solver |
| AStar.Relaxations | model/solvers/astar.py:30-39 | The loop over accessible neighbours leaves the heap, count, g-scores and came_from that RelaxFrom specifies |
| AStar.RelaxAll | model/solvers/astar.py:30-39 | Relaxing every listed neighbour leaves the state of RelaxFrom |
| AStar.RelaxOne | model/solvers/astar.py:31-39 | One relaxation leaves the state of Relax, keeping the current cell's score |
| WallFollowerSpec.TurnedIsRemainder | model/solvers/wall_follower.py:36 | The turned heading equals (direction + rotation) % 4 and is a direction |
| WallFollowerSpec.FirstOpenFacts | model/solvers/wall_follower.py:35-45 | Trying turns in order yields nothing exactly when every turn is shut. Otherwise it yields the earliest open turn, stepping through that side |
| WallFollowerSpec.NextMoveAt | model/solvers/wall_follower.py:35-45 | If turns before i are shut and turn i is open, the move is through turn i |
| WallFollowerSpec.NextMoveNone | model/solvers/wall_follower.py:35-45 | If all four turns are shut, no move is made |
| WallFollowerSpec.TurnsCoverSides | model/solvers/wall_follower.py:35-36 | The four turns right, straight, left, back reach every direction |
| WallFollowerSpec.NextMoveRule | model/solvers/wall_follower.py:35-62 | There is no move exactly when every side is walled or leads off the grid. A move goes through a side with its wall down into an in-bounds cell, and it is the first such side in the order right, straight, left, back |
| WallFollowerSpec.WalkStep | model/solvers/wall_follower.py:44-58 | A move appends the new cell and the walk continues from it with the new heading |
| WallFollowerSpec.WalkIsRoute | model/solvers/wall_follower.py:39-51 | Every step of the walk goes through an open passage, so the path is a route |
| WallFollowerSpec.WalkStops | model/solvers/wall_follower.py:26-62 | The walk extends the path by at most the step bound. end appears only as its last cell, and the walk stops at end, at the bound, or where every way out is shut |
| WallFollowerSpec.WalkExtends | model/solvers/wall_follower.py:26-62 | A longer step bound extends the walk, and changes nothing once the walk has stopped before the bound |
| WallFollowerSpec.TraceFacts | model/solvers/wall_follower.py:15-66 | The path from start is a route beginning at start with at most bound + 1 cells, and end is at most its last cell. It ends at end, at the bound, or where the walker is stuck |
| WallFollowerSpec.Tread | model/solvers/wall_follower.py:50-55 | Entering a cell raises both visited_by_solver and is_path on it and nothing else |
| WallFollower.Turn | model/solvers/wall_follower.py:35-49 | The loop over the four rotations returns the move of the right-hand rule |
| WallFollower.Enter | model/solvers/wall_follower.py:50-55 | Entering keeps every cell of the walk flagged visited_by_solver and is_path, every other cell as it was |
| WallFollower.Solve | model/solvers/wall_follower.py:12-66 | The returned path is the right-hand-rule walk from start heading right: a route through open passages, start first. It ends at end, at the step bound, or where stuck. Exactly its cells gain visited_by_solver and is_path |

## Left out

- Rendering, the controller's event loop, benchmarking, result analysis and the abstract solver and generator interfaces are not part of this model. The controller keeps grids at least 5 by 5, and the model needs only that a grid has at least one row and column.
- Grids.Grid.constructor: requires rows >= 1 and cols >= 1. The source indexes `cells[0][0]`, which fails on an empty grid.
- Python's `random` is not modelled.
  - The backtracker's choices come from an oracle parameter `rand`.
  - Prim's start cell and frontier choices are arbitrary `:|` choices.
- `heapq` internals are not modelled. Each heap is a multiset from which the least entry, in tuple order, is taken.
- Generator and `yield` mechanics are not modelled. Each loop iteration is one step, and the solvers return their path directly.
- `grid.current` is modelled only where it is written. It is the only thing `visualize` controls.
- Backtracker.Generate: the branch where `get_cell(0, 0)` returns nothing is not modelled, because on a grid with at least one row and column that cell always exists.
- Prims.KnockThrough: requires the frontier cell to have a visited neighbour, and its `else` is an `assert false`. The source simply skips the wall removal when there is none, but FrontierHasTakenNeighbor shows every frontier cell has one, so that branch never runs.
- Dijkstra.Explore: the `if not current: continue` branch is not modelled. RunBounds shows every popped cell lies on the grid.
- Dijkstra.Explore, AStar.Explore: stale heap entries are not skipped, as in the source.
  - For Dijkstra, RelaxSettled shows none arise: a recorded cell is never relaxed again.
  - For A*, a cell whose score falls is expanded again when popped.
- Bfs.Solve, Dfs.Solve: reachability and shortness are stated only for grids on which no cell carries `visited_by_solver` beforehand, the state `reset_visited` leaves. With stale flags the source skips those cells.
- WallFollower.Solve: takes a step bound `maxSteps` that the source does not have. The source loops for ever in a maze where the right-hand rule cycles without meeting end (an island). The model states the walk up to the bound; reaching end in a perfect maze is not proved.
- Cells store no x and y. A cell's position is its index in the grid, which `Grid.__init__` guarantees (`Cell(c, r)` at `cells[c][r]`), and nothing changes it.
- Bfs.Solve, Dfs.Solve, Dijkstra.Solve, AStar.Solve: these do not state which cells end with `in_frontier` set. That flag is only for display, and no search decision reads it.
- Cell `__repr__` is not modelled (display only).
