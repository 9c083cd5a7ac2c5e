# Maze generation and solving in `src/wilson`, in Dafny

This project models the maze programs in `src/wilson`. A `Maze` is a
column-major grid of palette indices: WALL 0, TREE 1, PATH 2, FILL 3. Its
passages sit on every second cell inside the margin, as far as the mask
admits them. The maze also keeps a neighbour map and a change tracker: the
number of pending changes and the bounding box of the changed cells. A
`Canvas` turns the pending region into frames: a static background frame,
a frame when enough cells have changed, and a final flush.

The model covers these parts of the code:

- **Maze construction.** The passages, the neighbour lists and the blank
  grid (`Grid`).
- **Grid updates.** `mark_cell`, `mark_wall`, `mark_path` and the colour
  tests (`Grid`).
- **Frames.** The frame region, the pixel order and the refresh and flush
  rules of the canvas (`Frames`).
- **Wilson's algorithm.** Loop-erased random walks that grow a uniform
  spanning tree (`Wilson`).
- **Search.** Breadth-first and depth-first search with their colouring,
  and retrieving the solution path (`Search`, `Solve`).
- **Kruskal.** The edge dictionary, `greater`, `find`, union by rank and
  the main loop (`Edges`, `UnionFind`, `Kruskal`).
- **Prim.** Prim's algorithm on a `heapq` queue, in both scripts (`Heap`,
  `Prim`, `PrimTree`).
- **Randomised depth-first search.** The in-place `random.shuffle` of the
  neighbour list it pops from (`RandomDfs`).

The parts shared by the tree builders live in `Trees`: attaching a child
with its wall, and the "grown tree" invariant. That invariant says:

- the TREE passages are exactly the tree's cells;
- a wall between neighbours is TREE exactly when it joins a child to its
  parent;
- every other change to the grid is a TREE mark.

Randomness is a parameter:

- Wilson's walk takes a sequence of choice numbers. `random.choice` picks
  `ns[choice % |ns|]`. The sequence is also the walk's fuel.
- Prim's weights, Kruskal's weights and the shuffle take an oracle
  `draw: nat -> int`, indexed by a running counter. A real number from
  `random.random()` becomes an integer draw with the same order.
- `random.shuffle` is modelled as CPython's Fisher–Yates loop, swapping
  position `i` with `draw % (i + 1)`.

The file writes of the canvas become returned `Frame` values. The GIF byte
encoding is not modelled.

Two behaviours of the code that the model keeps:

- **Missing end cell.** Retrieving the solution path when `end` was never
  reached raises `KeyError` in the code (`from_to[parent]`).
  `Solve.RetrievePath` returns `None` there, and `Solve.Solve`
  reports `Unreached`.
- **`connected`.** `connected(a, b)` returns true when the wall between
  `a` and `b` is still WALL, so it means "separated" (maze.py:204-208).
  The searches cross a wall exactly when `connected` is false. The model
  keeps that meaning: `Grid.ConnectedMeansUncarved`.

## Model

| member | source | states |
|---|---|---|
| Grid.NewMaze | src/wilson/maze.py:116-167 | The new maze is valid and every grid cell is WALL. Nothing is pending. The passages are exactly the lattice cells inside the margin that the mask admits, listed row by row. Each neighbour list is the passage's neighbourhood. |
| Grid.LatticeCells | src/wilson/maze.py:148-152 | A cell is listed iff it lies on the two-step lattice from `y` on, inside the margin, and the mask admits it. The list is in row-major order. |
| Grid.LatticeCellsExact | src/wilson/maze.py:148-152 | Starting at the margin, the list holds exactly the lattice passages inside the margin that the mask admits. |
| Grid.Neighborhood | src/wilson/maze.py:154-165 | Every listed neighbour is two steps away along one axis, inside the margin and admitted by the mask. The list runs left, up, right, down. |
| Grid.NeighborhoodComplete | src/wilson/maze.py:154-165 | Every such neighbour is listed: the completeness half of `Neighborhood`. |
| Grid.NeighborsSymmetric | src/wilson/maze.py:154-165 | `b` is a neighbour of `a` iff `a` is a neighbour of `b`. |
| Grid.NeighborGraph | src/wilson/maze.py:167 | The keys of the neighbour map are exactly the passages, and each value is that passage's neighbourhood. |
| Grid.NeighborGraphClosed | src/wilson/maze.py:154-167 | Every listed neighbour is itself a key of the map and adjacent to its passage. |
| Grid.BlankGrid | src/wilson/maze.py:137 | `width` columns of `height` cells, all WALL. |
| Grid.LinkedWall | src/wilson/maze.py:186-190 | The midpoint between two neighbouring passages lies inside the grid. It is not a passage, and it does not depend on the order of the two cells. |
| Grid.MidDeterminesPair | src/wilson/maze.py:186-190 | Two pairs of adjacent passages with the same wall between them are the same pair, so each wall belongs to one edge. |
| Grid.GrowIsLeast | src/wilson/maze.py:177-182 | The grown frame box contains the marked cell and the old box, and it lies inside every other box that contains both. |
| Grid.MarkCell | src/wilson/maze.py:172-184 | The marked cell gets the index and every other cell keeps its value. The change count goes up by one. The new box is `Grow` of the old box and the cell: it covers both, and by `GrowIsLeast` it is the least box that does. The layout and validity are kept. |
| Grid.MarkCellBoxIsLeast | src/wilson/maze.py:177-182 | The box left by `mark_cell` lies inside every box that contains the old box and the marked cell. |
| Grid.MarkWall | src/wilson/maze.py:186-190 | Marking the wall between `a` and `b` is the same as marking the wall between `b` and `a`. |
| Grid.MarkCells | src/wilson/maze.py:194-195 | The listed cells get the index and the rest keep their values. The count grows by the list length, and the box covers every listed cell. |
| Grid.WallsAt | src/wilson/maze.py:196-197 | The j-th wall of a path lies between its cells j+1 and j. |
| Grid.OnTrailIff | src/wilson/maze.py:192-197 | A cell is on the trail of a path iff it is a path cell or one of its walls. |
| Grid.MarkPath | src/wilson/maze.py:192-197 | Exactly the trail cells get the index and the rest keep their values. A non-empty path adds 2·|p|−1 changes, an empty path changes nothing, and the box covers the path. |
| Grid.ConnectedMeansUncarved | src/wilson/maze.py:204-208 | In a new maze every two neighbours are `connected` (their wall stands). After the wall is marked with index i they are no longer `connected` iff i is not WALL. |
| Frames.PixelCell | src/wilson/maze.py:48-54 | Pixel i of a w×h region scaled by s shows region cell ((i mod w·s) div s, (i div w·s) div s), which lies inside the region. |
| Frames.RegionInGrid | src/wilson/maze.py:36-39 | The frame region, the pending box or else the whole grid, lies inside the grid and is non-empty. |
| Frames.FramePixels | src/wilson/maze.py:47-54 | There are columns·rows·s² pixels, and each one is the grid value of its cell in the region. |
| Frames.EncodeFrame | src/wilson/maze.py:30-67 | A static frame has no control block and any other frame has (delay, transparent index). The descriptor is the scaled pending box, or the whole grid when nothing is pending. The pixels show the region. The tracker is reset. |
| Frames.Reset | src/wilson/maze.py:59-61 | No change is pending and there is no box. The grid, the layout and validity are kept. |
| Frames.PaintBackground | src/wilson/maze.py:69-76 | The background frame is static, with no control block. Its descriptor is the scaled tracked region, which is the whole grid on a fresh maze. Its pixels show that region of the grid. The tracker is reset and the grid is kept. |
| Frames.RefreshFrame | src/wilson/maze.py:78-80 | A frame is emitted iff at least `speed` changes are pending. Only the tracker changes. |
| Frames.ClearRemainingChanges | src/wilson/maze.py:82-84 | A frame is emitted iff some change is pending. Afterwards nothing is pending and the grid is unchanged. |
| Frames.ClearIsIdempotent | src/wilson/maze.py:82-84 | A second flush emits nothing and changes nothing. |
| Frames.NothingPendingMeansWholeGrid | src/wilson/maze.py:36-39 | With no pending change the next frame covers the whole grid. |
| Trees.Attach | src/wilson/prim.py:47-48 | The child and the wall between it and its parent become TREE and nothing else changes. Two changes are added and the box covers both cells. |
| Trees.FreshIsUntouched | src/wilson/maze.py:137 | A new maze has no TREE passage and no TREE wall. |
| Trees.Seeded | src/wilson/prim.py:39 | Marking the start TREE gives the one-cell grown tree. |
| Trees.AttachKeeps | src/wilson/prim.py:47-48 | Attaching an unreached neighbour of a tree cell as its child keeps the grown-tree invariant. |
| Trees.PendingKeeps | src/wilson/prim.py:42-52 | Taking one queued link and, for a new child, queueing all of the child's links keeps "every link out of the tree is in the tree or queued". |
| Trees.ClosedHoldsWalks | src/wilson/prim.py:42 | A walk that starts in a tree with no link leaving it ends in the tree. |
| Trees.EmptyFrontierSpans | src/wilson/prim.py:42 | When the queue is empty, every walk from the start ends on a TREE passage of the tree: the tree spans the component of the start. |
| Trees.Ancestry | src/wilson/prim_algorithm.py:47 | The parent chain from any tree cell leads back to the start in depth+1 cells. |
| Search.DistToColor | src/wilson/search_algorithms.py:17-19 | The colour is at least 3. It is d mod 2^depth when that is at least 3, and 3 otherwise. |
| Search.Colour | src/wilson/search_algorithms.py:56-63 | A depth-first search paints every visited cell FILL. |
| Search.Enqueue | src/wilson/search_algorithms.py:33-36 | The pushed neighbours are distinct, unvisited and open. The new visited set is the old one plus exactly them, and every open neighbour is in it afterwards. |
| Search.Take | src/wilson/search_algorithms.py:28 | The entry taken is a position of the frontier: position 0, the oldest, for breadth-first (`popleft`), and the last position, the newest, for depth-first (`pop`). |
| Search.Rest | src/wilson/search_algorithms.py:28 | The frontier loses exactly the taken entry and keeps the others in order. |
| Search.IterateKeeps | src/wilson/search_algorithms.py:27-38 | One iteration keeps the search invariant and records one more cell. |
| Search.Iterate | src/wilson/search_algorithms.py:27-38 | One iteration: pop, record, paint the cell and its wall, push the open unvisited neighbours, refresh. The invariant is kept, the taken entries are recorded in order, and one more passage is recorded. |
| Search.Explore | src/wilson/search_algorithms.py:21-39 | When the frontier empties, every recorded cell has a recorded parent across a carved wall and a distance one more than its parent's. Every neighbour across a carved wall of a recorded cell is recorded too, and each recorded cell has the colour of its distance. Breadth-first takes the entries in nondecreasing distance. |
| Solve.RetrievePath | src/wilson/search_algorithms.py:41-47 | None iff `end` is neither `start` nor recorded (the `KeyError`). Otherwise the path runs from `end` to `start` along recorded parents, repeats no cell and has distance+1 cells. |
| Solve.DistancesSeparate | src/wilson/search_algorithms.py:44-46 | A path whose distances strictly fall repeats no cell. |
| Solve.RouteBack | src/wilson/search_algorithms.py:41-47 | The retrieved path, reversed, is a walk across carved walls from `start` to `end`. |
| Solve.RecordHoldsReachable | src/wilson/search_algorithms.py:33-39 | Every passage reachable from `start` ends up recorded. |
| Solve.PathPainted | src/wilson/search_algorithms.py:47-49 | After `mark_path` the trail is PATH, and every other cell keeps its maze colour or a search colour. |
| Solve.Solve | src/wilson/search_algorithms.py:12-49 | A path is painted iff `end` is reachable from `start`. It runs from `end` to `start`, reversed it is a walk, it repeats no cell, and its trail is PATH. Every other cell keeps its colour or a search colour. Nothing is pending at the end. |
| Heap.AtMostOrder | src/wilson/prim.py:43 | The tuple order of queue items is total, antisymmetric and transitive. |
| Heap.MinIndex | src/wilson/prim.py:43 | `heappop` takes an item no greater than any queued item. |
| Heap.LeastIsUnique | src/wilson/prim.py:43 | The least item is unique, so the pop is determined. |
| Heap.HeadIsLeast | src/wilson/prim.py:43 | In a list with `heapq`'s invariant the head is at most every entry, so `heap[0]` is the entry `MinIndex` finds. |
| Heap.Pop | src/wilson/prim.py:38-43 | The first pop takes position 0 of the list as built, which `heappop` returns whether or not the list is heap-ordered. A later pop takes an entry at most every other entry. |
| Heap.UnorderedStart | src/wilson/prim.py:38-43 | For a start whose neighbours are only right and below, the first list is not heap-ordered: the first pop gives the right neighbour, while the least entry is the one below. |
| Heap.StartListShape | src/wilson/prim.py:38 | A start in a fresh maze with more than two neighbours gets a heap-ordered first list. |
| Heap.Pushes | src/wilson/prim.py:49-52 | One item (next draw, child, v) is pushed per neighbour v, in neighbour order. |
| Prim.StartKeeps | src/wilson/prim.py:38-39 | The start marked TREE with its neighbour links queued satisfies the loop invariant. |
| Prim.SkipKeeps | src/wilson/prim.py:44-45 | Popping a link to a cell already in the tree keeps the invariant, drops one item and leaves the maze alone. |
| Prim.Carve | src/wilson/prim.py:47-54 | Attaching an unreached child marks it and its wall TREE and queues all its links. The invariant is kept and the tree grows. |
| Prim.Round | src/wilson/prim.py:43-54 | The first round pops the head of the list built at line 38, and later rounds pop the least item. It then skips the item or carves it. The invariant is kept and the loop makes progress. |
| Prim.Build | src/wilson/prim.py:30-55 | The first frame is the background of the starting maze. Ends with a grown tree whose TREE passages are exactly its cells and whose TREE walls are exactly its parent links. Every passage reachable from the start is TREE, and nothing is pending. |
| PrimTree.FirstQueued | src/wilson/prim_algorithm.py:39-40 | Before the first round the queue holds only (0, start, start), and the start is TREE. |
| PrimTree.Take | src/wilson/prim_algorithm.py:47-52 | A new child is recorded with its parent in `tree`, carved and its links queued. |
| PrimTree.Round | src/wilson/prim_algorithm.py:43-54 | Pops the least item. A recorded child is skipped and leaves `tree` unchanged. A new child is added to `tree` under its parent and carved. |
| PrimTree.Build | src/wilson/prim_algorithm.py:30-55 | The first frame is the background of the starting maze. The `tree` dict is a spanning tree of the start's component, painted TREE with its walls. |
| RandomDfs.Shuffle | src/wilson/random_dfs_algorithm.py:42 | The shuffled list is a permutation of the input, and n−1 draws are used for n items. |
| RandomDfs.SwapPermutes | src/wilson/random_dfs_algorithm.py:42 | A swap permutes the list. |
| RandomDfs.Relink | src/wilson/random_dfs_algorithm.py:41-42 | Shuffling the list in place replaces that passage's neighbour list in the maze and changes nothing else. |
| RandomDfs.StartKeeps | src/wilson/random_dfs_algorithm.py:31-32 | The start marked TREE with its neighbour links stacked satisfies the loop invariant. |
| RandomDfs.Popped | src/wilson/random_dfs_algorithm.py:36-37 | The popped link joins a tree cell to a neighbour, which is TREE iff it is in the tree. |
| RandomDfs.Carve | src/wilson/random_dfs_algorithm.py:39-44 | The child and its wall become TREE, and the stack becomes the rest plus the child's shuffled links. The invariant is kept and the tree grows. |
| RandomDfs.Round | src/wilson/random_dfs_algorithm.py:35-46 | Pops the last link, then skips it or carves it. The invariant is kept and the loop makes progress. |
| RandomDfs.Build | src/wilson/random_dfs_algorithm.py:23-47 | The first frame is the background of the starting maze. Ends with a grown tree whose TREE passages are its cells. Every passage reachable from the start is TREE. Each neighbour list is a permutation of the original. |
| Seqs.FirstIndex | src/wilson/wilson.py:100 | `list.index` gives the first position holding the value. |
| Seqs.Remove | src/wilson/prim.py:43 | Removing one queue position keeps the other items in order, as a multiset. |
| Walks.Pick | src/wilson/wilson.py:86 | `random.choice` picks a member of the neighbour list. |
| Walks.Retrace | src/wilson/wilson.py:87-110 | The path after a move keeps its first cell and ends at the new head. It holds only cells of the old path and the head, and it stays loop-free: a revisited cell cuts the path back to it, and any other cell is appended. |
| Walks.Wander | src/wilson/wilson.py:61-95 | The course of a walk on the passage graph. A head on the tree lands with the current path. Otherwise the head moves to the neighbour picked by the next choice, and the path is retraced. Running out of choices happens only after every choice is used. An isolated stop names a passage with no neighbours and leaves a choice unused. A landing path starts at the walk's first cell and ends on the tree, and it repeats no cell when the starting path did not. |
| Walks.WanderMoreFuel | src/wilson/wilson.py:69-70 | Only running out of choices depends on how many are supplied: a course that lands or is isolated is the same with more choices appended. |
| Walks.RunFrom | src/wilson/wilson.py:54-56 | The course of a run over the listed passages. A cell already in the tree is skipped. From any other cell a walk's course is followed, and the tree grows by the walk's path. The run stops where a walk stops. It uses at most the given choices, and it runs out only after using them all. |
| Walks.RunMoreFuel | src/wilson/wilson.py:54-56 | A run that does not run out of choices is the same with more choices appended. |
| Walks.WalkMoreFuel | src/wilson/wilson.py:55-56 | A run whose next cell starts a walk is the same with more choices appended, unless it runs out of choices: the walk is the same, and so is the rest of the run after it. |
| Wilson.EraseLoop | src/wilson/wilson.py:97-105 | The path is cut just after the first occurrence of the cell, and 2·(length of the erased tail) changes are added. |
| Wilson.EraseLoopRecolours | src/wilson/wilson.py:97-105 | The revisited cell is PATH again, the rest of the erased trail is WALL, and everything else is unchanged. |
| Wilson.AddToPath | src/wilson/wilson.py:107-110 | The cell and the wall from the old head become PATH, the cell is appended, and nothing else changes. |
| Wilson.MoveOneStep | src/wilson/wilson.py:76-95 | Moves to the chosen neighbour. A PATH neighbour erases the loop. Otherwise the neighbour is appended with a PATH wall, and it stays TREE if it was TREE. |
| Wilson.EraseStep | src/wilson/wilson.py:97-105 | Erasing a loop keeps the walk invariant. PATH passages are exactly the path, and the walls of the path are PATH. Every other cell has its colour from before the walk. |
| Wilson.ErasedWall | src/wilson/wilson.py:100-105 | A wall on the erased part of the path is not a wall of the kept part, and it was WALL before the walk. |
| Wilson.TrailSplit | src/wilson/wilson.py:102-105 | The trail of a path is the trail up to the revisited cell together with the trail from it. |
| Wilson.TrailInParts | src/wilson/wilson.py:101-104 | Every cell of a path's trail is on the trail of the part up to the revisited cell or on the trail of the part from it. |
| Wilson.TrailOfPrefix | src/wilson/wilson.py:101-104 | The trail of the part kept by loop erasure lies on the trail of the whole path. |
| Wilson.TrailOfSuffix | src/wilson/wilson.py:101 | The trail of the erased part lies on the trail of the whole path. |
| Wilson.TailFits | src/wilson/wilson.py:101 | The erased part of a path fits the grid when the path does: its cells and the walls between them are in bounds. |
| Wilson.WallsApart | src/wilson/wilson.py:102 | Different walls of a loop-free path are different cells. |
| Wilson.ExtendStep | src/wilson/wilson.py:89-94 | Appending a neighbour keeps the walk invariant, and the walk is done iff the neighbour was TREE. |
| Wilson.MoveOneStepKeepsWalk | src/wilson/wilson.py:76-95 | One step keeps the walk invariant and the path's first cell, and the path ends at the new head. |
| Wilson.FinishWalk | src/wilson/wilson.py:73-74 | The finished path is loop-free and chained by neighbours, and only its last cell was TREE. After marking it, the TREE passages are the old ones plus the path, and its walls are TREE. No passage is PATH, and every cell off the path and its walls, such as an erased wall, has its colour from before the walk. |
| Wilson.LoopErasedRandomWalk | src/wilson/wilson.py:61-74 | The walk from `cell` follows `Walks.Wander` on the passage graph, with the TREE passages before the walk as the tree. It finishes iff that course lands, and then with the course's path. It halts for the course's reason, and it leaves exactly the choices the course did not use. A finished walk adds a loop-free path of neighbours from `cell` to the old tree. The path and its walls become TREE and every other cell is unchanged. |
| Wilson.StartWalk | src/wilson/wilson.py:65-67 | Marking the start cell PATH begins a walk: the one-cell path satisfies the walk invariant, the head is not TREE, and the whole walk's course is the course from this path with all the choices. |
| Wilson.WalkingAt | src/wilson/wilson.py:69 | The loop test is exact: the head is TREE iff the walk is done. With no choices left, a walk that is not done stops out of choices. With no neighbours, it stops isolated at its head. A walk that is done lands with its path after the choices used. |
| Wilson.WalkLands | src/wilson/wilson.py:73-74 | When a walk is done, marking its path TREE grows the tree by exactly that path, which starts at the walk's cell. The walk's course lands with this path. |
| Wilson.WalkToTree | src/wilson/wilson.py:65-71 | The walk loop stops where the course stops, with the same reason after the same choices. Otherwise it reaches the tree, and the course lands with its path. |
| Wilson.WalkStep | src/wilson/wilson.py:69-71 | One round of the walk loop keeps the walk from the same cell going: the new head is the last cell of the new path, it is TREE iff the walk is now done, and one more choice is used along the course. |
| Wilson.CourseAdvances | src/wilson/wilson.py:69-70 | After one step, the whole walk's course is the course from the new path with the remaining choices, one choice later. |
| Wilson.HeadInTree | src/wilson/wilson.py:69 | During a walk the head is a TREE passage of the maze before the walk iff the walk is done. |
| Wilson.StepFollowsCourse | src/wilson/wilson.py:69-95 | One step retraces the path with the neighbour picked by the next choice. So the course from the new path with the remaining choices is the course from the old path, one choice later. |
| Wilson.TreeOfGrown | src/wilson/wilson.py:74 | Marking a finished path TREE adds exactly the path's cells to the TREE passages. |
| Wilson.RunSpans | src/wilson/wilson.py:54-56 | Once every listed passage has been handled, every passage is TREE. |
| Wilson.SettledAfterWalk | src/wilson/wilson.py:54-56 | After a walk every cell is still WALL or TREE, and every TREE wall still joins two TREE passages. |
| Wilson.SettledAfterRoot | src/wilson/wilson.py:50 | Marking a lattice root TREE keeps the maze settled. |
| Wilson.RunWilsonAlgorithm | src/wilson/wilson.py:47-59 | After the root is marked, the run follows `Walks.RunFrom` over the listed passages, with the root in the tree when it is a passage. It spans iff that course spans. A halted run halts for the course's reason and leaves the choices the course did not use. A run that spans leaves every passage TREE and every cell WALL or TREE, with each TREE wall joining TREE passages. It keeps the layout and flushes everything. |
| Wilson.RootTree | src/wilson/wilson.py:50 | Marking the root TREE adds it to the TREE passages when it is a passage, and changes nothing else among them. |
| Wilson.SkipKeepsCourse | src/wilson/wilson.py:55 | Skipping a TREE passage keeps the run invariant and the run's course. |
| Wilson.WalkKeepsCourse | src/wilson/wilson.py:55-56 | A walk that lands keeps the run invariant at the next cell. The course is unchanged, and the walk's choices count as used. |
| Wilson.HaltEndsCourse | src/wilson/wilson.py:56 | A walk that stops ends the run's course, for the same reason and after the same choices. |
| Wilson.RunAt | src/wilson/wilson.py:55-56 | A listed passage that is not TREE can start a walk: the maze is valid and settled, and the passage is outside the tree. |
| Wilson.WalkHaltsRun | src/wilson/wilson.py:56 | A walk from the next listed passage that stops halts the run's course for the same reason, with the same unused choices. |
| Wilson.WalkLandsRun | src/wilson/wilson.py:56 | A walk from the next listed passage that lands leaves the rest of the run's course to the next cell, the grown tree and the choices the walk left. |
| Wilson.WalkFromCell | src/wilson/wilson.py:55-56 | One walk of the run either halts the run's course for the same reason with the same unused choices, or keeps the run invariant and the course at the next cell. |
| Wilson.WalkFromEveryCell | src/wilson/wilson.py:54-56 | The loop over the listed passages follows `Walks.RunFrom`. It ends with every listed passage handled iff the course spans. When it halts, it halts for the course's reason with the choices the course left. |
| Wilson.OddProductIffBothOdd | src/wilson/wilson.py:133-134 | The product check rejects exactly the sizes with an even side. |
| Edges.Greater | src/wilson/kruskal.py:24-31 | `Some(true)` iff v is before u in tuple order, `Some(false)` iff u is before v, and `None` iff the cells are equal. |
| Edges.GreaterOrients | src/wilson/kruskal.py:24-31 | Of two distinct cells exactly one orientation is greater, and no cell is greater than itself. |
| Edges.Outgoing | src/wilson/kruskal.py:45 | The keys contributed by u are exactly (u, v) for the listed neighbours v before u. |
| Edges.EdgeKeys | src/wilson/kruskal.py:45 | A pair is a key iff its first cell is listed, the two cells are neighbours and the second is before the first. |
| Edges.EdgeKeysNoDup | src/wilson/kruskal.py:45 | No key occurs twice, as in a dict. |
| Edges.KeysOrient | src/wilson/kruskal.py:45 | Each pair of neighbours occurs exactly once among the keys, in the orientation where `greater` holds. |
| Edges.FreshIsSimple | src/wilson/maze.py:148-167 | A new maze lists each passage once and each neighbour once, symmetrically. |
| Edges.Weigh | src/wilson/kruskal.py:45 | Each key gets the next draw as its weight, in key order. |
| Edges.Insert | src/wilson/kruskal.py:63 | Inserting into a sorted list keeps it sorted by weight and adds exactly the one edge. |
| Edges.SortByWeight | src/wilson/kruskal.py:63 | The result is sorted by weight and is a permutation of the input. |
| UnionFind.Singletons | src/wilson/kruskal.py:59-60 | Every passage is its own parent with rank 0. |
| UnionFind.Root | src/wilson/kruskal.py:16-21 | The root reached from u is its own parent, and a root is its own root. |
| UnionFind.Find | src/wilson/kruskal.py:16-21 | `find` returns the root of u's set, and it terminates because ranks strictly rise along parent links. |
| UnionFind.Link | src/wilson/kruskal.py:66-73 | The root of lower rank hangs under the other. On equal ranks the first hangs under the second, whose rank goes up by one. |
| UnionFind.LinkKeeps | src/wilson/kruskal.py:66-73 | Linking two different roots keeps the forest, raises the rank bound by at most one, keeps the passages and removes exactly the losing root. |
| UnionFind.HangRoots | src/wilson/kruskal.py:68-72 | Hanging one root under another removes exactly that root, so there is one set fewer. |
| UnionFind.RootAfterLink | src/wilson/kruskal.py:66-73 | After linking, with the parent map that `Link` gives, the cells of the two joined sets have the winning root, and every other cell keeps its root. |
| Kruskal.StayJoined | src/wilson/kruskal.py:66-73 | Cells in one set stay in one set, and the two linked sets end up together. |
| Kruskal.JoinedAfterLink | src/wilson/kruskal.py:64-73 | After the link, all edges so far, the current one included, lie inside single sets. |
| Kruskal.MergeAfterLink | src/wilson/kruskal.py:64-77 | A link keeps the set invariant with one more carved edge and one set fewer. |
| Kruskal.MergeAfterSkip | src/wilson/kruskal.py:64-66 | An edge inside one set keeps the set invariant unchanged. |
| Kruskal.Join | src/wilson/kruskal.py:75-77 | Both ends and the wall between them become TREE, nothing else changes, and three changes are added. |
| Kruskal.Mids | src/wilson/kruskal.py:77 | The walls of the carved edges: each carved edge's wall, and nothing else. |
| Kruskal.MarksAppend | src/wilson/kruskal.py:75-77 | Carving one more edge adds exactly its two ends and its wall to the marked cells, and exactly its wall to the walls. |
| Kruskal.PaintAfterMark | src/wilson/kruskal.py:75-77 | Marking the next edge turns a grid painted by the carved edges into one painted by them and the next edge. |
| Kruskal.FreshWall | src/wilson/kruskal.py:64-77 | An edge whose ends lie in different sets has a wall that no carved edge has. A carved edge lies inside one set, and a wall belongs to one pair of passages. |
| Kruskal.MidsGrow | src/wilson/kruskal.py:77 | An edge with a wall of its own adds one wall. |
| Kruskal.ChosenNext | src/wilson/kruskal.py:63 | Edges chosen among the first i items are chosen among the first i+1, and so is item i. |
| Kruskal.CarveAfterLink | src/wilson/kruskal.py:64-77 | Carving the next edge keeps the grid invariant with one more carved edge. |
| Kruskal.CarveAfterSkip | src/wilson/kruskal.py:64-66 | An edge inside one set keeps the grid invariant and carves nothing. |
| Kruskal.RoundCarves | src/wilson/kruskal.py:64-78 | One round keeps the grid invariant, carving the edge exactly when its ends were in different sets. |
| Kruskal.MarksOffPassages | src/wilson/kruskal.py:75-77 | Off the passages, the marked cells are exactly the walls of the carved edges. |
| Kruskal.Process | src/wilson/kruskal.py:64-78 | An edge inside one set changes nothing. Otherwise the two sets are joined by rank, both ends and their wall become TREE, and a frame may be flushed. |
| Kruskal.RoundKeeps | src/wilson/kruskal.py:64-78 | One round keeps the set invariant, counting a carved edge exactly when the ends were in different sets. |
| Kruskal.Step | src/wilson/kruskal.py:63-78 | One loop iteration leaves a valid maze with the original layout, keeps the loop invariant and counts a carved edge iff the ends were apart. |
| Kruskal.Advance | src/wilson/kruskal.py:64-78 | One round keeps the maze, set and grid halves of the loop invariant together. |
| Kruskal.StartInv | src/wilson/kruskal.py:59-60 | Before the first edge the invariant holds with no carved edge, on a maze with the starting grid and layout. |
| Kruskal.StartMerged | src/wilson/kruskal.py:59-60 | Singleton sets satisfy the set invariant before the first edge. |
| Kruskal.SortedListed | src/wilson/kruskal.py:45 | Every edge of the sorted list joins two neighbouring passages. |
| Kruskal.Order | src/wilson/kruskal.py:45-63 | The processing order is the weighted key list sorted by weight. |
| Kruskal.SortedCovers | src/wilson/kruskal.py:45-79 | Once every edge has been processed, every two neighbouring passages lie in one set. |
| Kruskal.TreeListed | src/wilson/kruskal.py:63 | Every carved edge is a sorted item, so it joins two listed neighbours. |
| Kruskal.TreeWalls | src/wilson/kruskal.py:75-77 | Off the passages, a grid painted by edges between neighbours is TREE exactly on their walls and where it was TREE before. |
| Kruskal.SomeSetLeft | src/wilson/kruskal.py:59-73 | With at least one passage a set remains, so fewer edges were carved than there are passages. |
| Kruskal.CarvedTotals | src/wilson/kruskal.py:59-79 | At the end of the loop the carved edges meet `CarvedGrid`, and fewer edges were carved than there are passages. |
| Kruskal.Run | src/wilson/kruskal.py:59-78 | After all edges the maze is valid with the original layout, and the loop invariant holds at the end of the list. That invariant covers the sets, and it also covers the grid: the grid is the starting grid with the ends and walls of the carved edges TREE, and the carved edges have distinct walls. |
| Kruskal.Build | src/wilson/kruskal.py:45-79 | The first frame is the background. The edges are processed in weight order. Afterwards every two neighbouring passages lie in one set, and carved edges plus remaining sets equal the number of passages. Each carved edge is a sorted item, and no two share a wall. The grid is the starting grid with the carved edges' ends and walls TREE. Off the passages, the TREE cells are the old TREE cells and the carved walls. With at least one passage, fewer edges are carved than there are passages. The layout is kept and nothing is pending. |

## Left out

- The GIF encoder (`encoder.GIFWriter`), LZW compression, palettes, `set_colors`, `pad_delay_frame`, `set_control_params` and `save`: these are file output. Frames are returned as values holding the descriptor, the control pair and the raw pixel indices.
- The command-line parsing, the `mask` image and `gentext`, `tqdm` and `print`: these are I/O. The mask is a predicate parameter of `Grid.NewMaze`.
- The A* search that `kruskal.py` imports: `astar` is not defined in `search_algorithms.py`, so the solving call at the end of `kruskal.py` is not modelled.
- `random.random()` and its floating-point weights (rounded to three digits in Prim): weights are integer draws from an oracle. On equal weights `heapq` compares the rest of the tuple, (parent, child) in Prim, and the model does the same. `sorted(edges, key=edges.get)` keeps equal weights in dictionary order, and the model does not prove that order (see `Edges.SortByWeight`).
- Heap.MinIndex: after the first pop, `heappop` is modelled as taking the least item of an unordered sequence, and the binary-heap layout is not modelled. That matches `heap[0]` only while the list is a heap. prim.py:38 never heapifies its first list, so the first pop takes position 0 of that list (`Heap.Pop`). `Heap.StartListShape` shows that in a fresh maze the first list is heap-ordered or has at most two entries, and in either case the list left after the first pop is a heap. That `heappop` and `heappush` keep a heap a heap is taken from `heapq` and not proved.
- Edges.SortByWeight: sorts by weight as a permutation but does not prove the stability of Python's `sorted`. Equal integer draws are possible in the model, while the real floats almost never tie.
- UnionFind.LinkKeeps: bounds ranks by the number of edges processed, not by the logarithmic bound union by rank guarantees.
- Kruskal.Build: proves that the carved edges are sorted items with distinct walls, and that the grid is the starting grid with their ends and walls TREE. It also proves that carved edges plus remaining sets equal the passages, and that every two neighbours end in one set. It does not prove that the carved edges connect the passages without a cycle, that is, that the TREE cells and walls form a spanning tree. That proof needs the sets related to the carved edges that joined them, and the set invariant does not record which edges those were. It requires a valid maze with no repeated passage or neighbour, which every new maze is (`Edges.FreshIsSimple`).
- Wilson.RunWilsonAlgorithm: the random walk terminates only with probability one. The model takes a finite sequence of choices as fuel. The walk and the run follow the courses `Walks.Wander` and `Walks.RunFrom`, which report `OutOfChoices` only once every choice is used. `Walks.WanderMoreFuel` and `Walks.RunMoreFuel` show that every other outcome stays the same when more choices are supplied. `Isolated` is reported where `random.choice` would raise on an empty neighbour list. The run requires a root on the passage lattice, as the script's `(2, 2)` is: a root on a wall between two passages could be overwritten by a walk that crosses it. It requires a maze whose cells are WALL or TREE, with every TREE wall joining TREE passages, as every new maze is. It does not prove that the TREE walls form a tree, nor that the tree is uniformly distributed.
- Solve.Solve: for breadth-first search it proves the ordering of distances and the colouring, but not that the retrieved path is a shortest path.
- Solve.Solve and Search.Explore: both require `start` to be a passage. For any other cell the code fails. `mark_cell` at search_algorithms.py:24 and :56 indexes the grid as Python lists (maze.py:174-175). It raises `IndexError` for a coordinate at or past `width` or `height`, or below `-width` or `-height`. A small negative coordinate wraps around to a cell at the opposite side and raises nothing. Then, and for an in-grid cell that is not a passage, `get_neighbors` at search_algorithms.py:33 and :64 raises `KeyError`. The model does not describe those failures.
- Solve.RetrievePath: returns `None` where the code raises `KeyError`. That happens when `end` was never reached, for example behind a mask that breaks connectivity.
- The `maze.path` attribute: the walk's path is an explicit value instead of a field of the maze.
- `get_neighbors`, `is_wall`, `in_tree` and `in_path` are direct lookups and are used inline.
