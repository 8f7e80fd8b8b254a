# MazeGenerator core, modelled and proved in Dafny

The Java system generates rectangular mazes and solves them:

- a grid of WALL and PASSAGE cells, where each passage has a surface with an entry cost;
- two generators, randomized Kruskal and randomized Prim, that carve a spanning tree into the odd/odd lattice;
- two solvers: a breadth-first search for the path with the fewest cells, and Dijkstra's algorithm for the path of least total entry cost.

The model keeps the code's own structure:

- `cells.dfy` (module `Cells`): the `Cell` record, its WALL/PASSAGE type, the five surfaces, their costs and the threshold draw of a surface.
- `mazes.dfy` (module `Mazes`): the coordinate and the maze value, plus the notions the generators and solvers share:
  - adjacency, solver paths and their cost, passage walks and connectivity;
  - the odd/odd lattice (vertices, edge positions, pillars) and the spanning-tree property;
  - writing one cell of a grid array.
- `kruskal.dfy` (module `Kruskal`): the two loops of `KruskalMazeGenerator.generate`.
  - The first loop fills a grid array and builds the edge list and the singleton sets.
  - The second loop runs over the shuffled edges, carving and merging.
  - Each loop is a method, proved against a fold of one step, and the fold's invariant is proved by lemmas.
- `prim.dfy` (module `Prim`): `randomOdd`, `getNeighbors` and the frontier loop of `PrimMazeGenerator.generate`, over a grid array. One iteration is a method proved against a step function, whose invariant is proved by lemmas.
- `bfs.dfy` (module `Bfs`): `BFSSolverImpl.solve` with its `visited` and `predecessors` arrays, its queue, the scan of the four moves and the path read-back.
- `dijkstra.dfy` (module `Dijkstra`): `DijkstraSolverImpl.solve` and its helpers. The distance table is initialised to infinity; the priority queue is lazy and skips stale entries. It relaxes neighbours on strict improvement, stops when `end` is polled, and reads the path back through `reconstructPath`. `getNeighbors` and `isValid` are modelled as well.
- `scenarios.dfy` (module `Scenarios`): the four grids of `BFSSolverImplTest`, drawn as rows of characters. In each grid with a path, the expected route is the only path with the fewest cells, so `Bfs.Solve`'s contract alone fixes the answer the test checks; in the blocked grid the answer is empty.

The headline results:

- Both generators return a maze whose carved cells form a spanning tree over the carved odd/odd cells, with every even/even cell a wall. For Kruskal, every odd/odd cell is carved.
  - The carved cells are pairwise connected through passages.
  - There is exactly one carved edge fewer than carved vertices.
  - Together those force a tree.
- While Kruskal's union loop runs, two vertices share a set exactly when carved passages connect them. So an edge is carved only between vertices no passage joins yet.
- `Bfs.Solve` returns the empty list exactly when `end` cannot be reached; otherwise it returns a path with the fewest cells. Each cell is queued at most once, so the loop polls at most height × width cells.
- `Dijkstra.Solve` returns the empty list exactly when `end` cannot be reached; otherwise it returns a path whose total entry cost is least.
- Both solvers return `[start]` when `start == end`.

Randomness is passed in as parameters:

- The shuffle of the edge list is a permutation of its indices.
- The `nextInt` picks of `randomOdd` are naturals below `bound / 2`.
- The wall Prim picks from its set is any element of it.
- The stream of `nextDouble` samples is a function from the draw's index to a real.

## Model

| member | source | states |
|---|---|---|
| Cells.SurfaceCost | src/main/java/backend/academy/dto/Cell.java:36-44 | the entry cost of each surface: Swamp 5, Sand 3, Coin 0, GoodFloor 2, and 1 for Normal (the default branch); never negative |
| Cells.RandomSurfaceBands | src/main/java/backend/academy/dto/Cell.java:21-34 | the cumulative thresholds select Swamp exactly below 0.02, Sand exactly on [0.02, 0.05), Coin on [0.05, 0.07), GoodFloor on [0.07, 0.09), and Normal from 0.09 on |
| Cells.MakeCell | src/main/java/backend/academy/dto/Cell.java:47-49 | the three-argument constructor keeps position and type and defaults the surface to Normal |
| Mazes.OddDimension | src/main/java/backend/academy/generators/impl/KruskalMazeGenerator.java:46-51 | an even requested dimension is incremented and an odd one kept; a non-negative request gives an odd dimension of at least 1 |
| Mazes.CarveOne | src/main/java/backend/academy/generators/impl/KruskalMazeGenerator.java:92-93 | turning one WALL cell into a PASSAGE keeps every passage and adds exactly that cell to the carved vertices (odd/odd) or to the carved edges (one odd index) |
| Mazes.Store | src/main/java/backend/academy/generators/impl/KruskalMazeGenerator.java:92-93 | writing one slot of the grid array changes the maze it holds at that one cell and nowhere else |
| Mazes.FreezeMirror | src/main/java/backend/academy/generators/impl/KruskalMazeGenerator.java:102 | the returned maze holds exactly the cells of the grid array |
| Kruskal.CandidateEdgesMember | src/main/java/backend/academy/generators/impl/KruskalMazeGenerator.java:59-77 | an edge is in the list iff it joins an in-bounds odd/odd cell to the cell two below it, or two to its right, inside the grid |
| Kruskal.InitialRow | src/main/java/backend/academy/generators/impl/KruskalMazeGenerator.java:60-76 | one row of the first loop: cells with an even index become walls and the others passages; the row's edges are appended down-first in column order; each passage gets a singleton set; other rows are untouched |
| Kruskal.InitialGrid | src/main/java/backend/academy/generators/impl/KruskalMazeGenerator.java:53-77 | after the first loop the grid has the requested size, walls exactly at cells with an even index, the edge list is the candidate list in visiting order, and every odd/odd cell has its own singleton set |
| Kruskal.Shuffle | src/main/java/backend/academy/generators/impl/KruskalMazeGenerator.java:80 | the shuffled list is the edge list reordered by a permutation of its indices and still holds every edge |
| Kruskal.MergePartition | src/main/java/backend/academy/generators/impl/KruskalMazeGenerator.java:95-98 | merging two sets and pointing every member of the second at the first keeps a partition of the vertices |
| Kruskal.MergeClasses | src/main/java/backend/academy/generators/impl/KruskalMazeGenerator.java:95-98 | merging two different sets leaves exactly one set fewer |
| Kruskal.UnionStep | src/main/java/backend/academy/generators/impl/KruskalMazeGenerator.java:88-99 | an edge whose ends lie in different sets: carving its midpoint and merging keeps the invariant. The invariant: a partition; carved edges plus sets equal the vertex count; each set is connected through passages; every edge seen so far has its ends together. The converse, that connected vertices share a set, follows from the invariant (Kruskal.SetsAreComponents) |
| Kruskal.UnionSkip | src/main/java/backend/academy/generators/impl/KruskalMazeGenerator.java:89 | an edge whose ends already share a set changes nothing, keeps the invariant, and its ends are already connected through carved passages |
| Kruskal.BlockStep | src/main/java/backend/academy/generators/impl/KruskalMazeGenerator.java:61-62 | a step between two passage cells stays in one set's block: pillars are walls, and a carved edge position has both ends in one set |
| Kruskal.WalkInBlock | src/main/java/backend/academy/generators/impl/KruskalMazeGenerator.java:81-100 | every cell a passage walk from a vertex reaches is that vertex, or a carved edge, of the vertex's set |
| Kruskal.ConnectedSameSet | src/main/java/backend/academy/generators/impl/KruskalMazeGenerator.java:85-89 | under the union invariant, vertices that carved passages connect share a set |
| Kruskal.SetsAreComponents | src/main/java/backend/academy/generators/impl/KruskalMazeGenerator.java:81-100 | under the union invariant, two vertices share a set if and only if carved passages connect them: the sets are the connected components |
| Kruskal.EdgeEndsApart | src/main/java/backend/academy/generators/impl/KruskalMazeGenerator.java:89-93 | an edge whose ends lie in different sets joins two vertices no carved passage connects, so carving it closes no cycle |
| Kruskal.JoinComponents | src/main/java/backend/academy/generators/impl/KruskalMazeGenerator.java:81-100 | the union loop leaves the grid and the sets as the fold of one edge's step over the whole shuffled list |
| Kruskal.JoinPrefixInv | src/main/java/backend/academy/generators/impl/KruskalMazeGenerator.java:81-100 | after any prefix of the shuffled edges the loop invariant holds |
| Kruskal.OneClass | src/main/java/backend/academy/generators/impl/KruskalMazeGenerator.java:81-100 | once every candidate edge has its ends in one set, all vertices share a single set |
| Kruskal.UnionDone | src/main/java/backend/academy/generators/impl/KruskalMazeGenerator.java:81-100 | the invariant with a single set makes the carved cells a spanning tree |
| Kruskal.JoinDone | src/main/java/backend/academy/generators/impl/KruskalMazeGenerator.java:79-100 | whatever the shuffle and the surfaces drawn, the union loop ends with a well-formed grid whose carved cells form a spanning tree |
| Kruskal.Generate | src/main/java/backend/academy/generators/impl/KruskalMazeGenerator.java:42-103 | the maze has the odd dimensions and every even/even cell is a wall. Every odd/odd cell is carved, and the carved cells form a spanning tree, for every shuffle and every surface draw |
| Prim.RandomOdd | src/main/java/backend/academy/generators/impl/PrimMazeGenerator.java:118-121 | randomOdd gives an odd number in [1, bound); for an odd bound it is at most bound - 2 |
| Prim.RandomOddCovers | src/main/java/backend/academy/generators/impl/PrimMazeGenerator.java:118-121 | for an odd bound every odd number in [1, bound - 2] is the result of some pick |
| Prim.TwoStepNeighborsMember | src/main/java/backend/academy/generators/impl/PrimMazeGenerator.java:133-151 | a coordinate is listed iff it lies two cells away in one of the four directions, inside the grid, with the requested type |
| Prim.TwoStepNeighborsDistinct | src/main/java/backend/academy/generators/impl/PrimMazeGenerator.java:133-151 | the list has at most four entries and no repeats |
| Prim.GetNeighbors | src/main/java/backend/academy/generators/impl/PrimMazeGenerator.java:133-151 | the loop over the four steps returns exactly the two-step neighbours of the requested type, in the order up, down, left, right |
| Prim.AddWalls | src/main/java/backend/academy/generators/impl/PrimMazeGenerator.java:76-78 | the wall set grows by exactly the grid cells at the listed coordinates |
| Prim.InitialWalls | src/main/java/backend/academy/generators/impl/PrimMazeGenerator.java:59-67 | the first loop makes every cell a wall with its own position and the Normal surface |
| Prim.StartTree | src/main/java/backend/academy/generators/impl/PrimMazeGenerator.java:69-72 | after carving the start cell the grid has one vertex, no edges, and is a spanning tree holding start |
| Prim.NewFrontier | src/main/java/backend/academy/generators/impl/PrimMazeGenerator.java:74-78 | the walls two cells from a carved vertex form a valid wall set: each entry is the current grid cell at its own position, an in-bounds odd/odd WALL two cells from the tree |
| Prim.PrimStepEffect | src/main/java/backend/academy/generators/impl/PrimMazeGenerator.java:89-105 | a wall with exactly one passage p two cells away changes exactly two cells, itself and the cell between it and p (adjacent to both), into passages with the two sampled surfaces, leaves every other cell as it was, adds its wall neighbours to the set and uses two samples; any other wall leaves grid and sample count unchanged and is only removed from the set |
| Prim.CarveInv | src/main/java/backend/academy/generators/impl/PrimMazeGenerator.java:91-104 | carving the picked wall and the cell between keeps the spanning tree and the wall-set invariant and adds one vertex |
| Prim.PrimStepInv | src/main/java/backend/academy/generators/impl/PrimMazeGenerator.java:81-106 | one iteration keeps the invariant, and either adds a vertex or leaves the grid and shrinks the wall set, so the loop ends |
| Prim.Visit | src/main/java/backend/academy/generators/impl/PrimMazeGenerator.java:86-105 | the body of the main loop for the picked wall updates the grid array, the wall set and the sample counter as the step function says |
| Prim.Generate | src/main/java/backend/academy/generators/impl/PrimMazeGenerator.java:48-109 | the maze has the odd dimensions, every even/even cell is a wall, and the carved cells form a spanning tree holding the randomOdd start cell, for every pick of walls and surfaces |
| Bfs.InitialInv | src/main/java/backend/academy/solvers/impl/BFSSolverImpl.java:45-47 | with only start visited, at distance 0, and queued, the search invariant holds |
| Bfs.PopInv | src/main/java/backend/academy/solvers/impl/BFSSolverImpl.java:53-57 | polling a cell other than end starts its scan: the queue spans the polled cell's layer and the next, and holds neither a repeated cell, nor the polled one, nor an expanded one |
| Bfs.PopFresh | src/main/java/backend/academy/solvers/impl/BFSSolverImpl.java:54 | after a poll the rest of the queue repeats no cell and holds neither the polled cell nor an expanded one |
| Bfs.QueueCount | src/main/java/backend/academy/solvers/impl/BFSSolverImpl.java:76-79 | under the search invariant no cell is queued twice or after its expansion: the expanded and the queued cells number exactly the visited cells, at most height × width |
| Mazes.AllCoordsCount | src/main/java/backend/academy/solvers/impl/BFSSolverImpl.java:42 | a height by width grid has exactly height × width coordinates |
| Bfs.ScanStepInv | src/main/java/backend/academy/solvers/impl/BFSSolverImpl.java:70-82 | each move of the scan keeps the scan invariant: links back to start, queue order, every visited cell expanded or queued |
| Bfs.ScanUpToInv | src/main/java/backend/academy/solvers/impl/BFSSolverImpl.java:70-82 | the scan of all four moves keeps the scan invariant |
| Bfs.ScanMoves | src/main/java/backend/academy/solvers/impl/BFSSolverImpl.java:70-82 | the loop over the four moves updates the arrays and the queue as the fold of one move's step; the arrays keep mirroring the visited set and the predecessors |
| Bfs.MarkVisited | src/main/java/backend/academy/solvers/impl/BFSSolverImpl.java:77-78 | marking a neighbour visited and recording its predecessor adds exactly that cell to the mirrored state |
| Bfs.ScanDone | src/main/java/backend/academy/solvers/impl/BFSSolverImpl.java:53-83 | after the scan the polled cell is expanded and the loop invariant is back, with no cell queued twice or after its expansion |
| Bfs.ScanUpToMeasure | src/main/java/backend/academy/solvers/impl/BFSSolverImpl.java:70-82 | a scan either visits a new cell or changes nothing, so the loop ends |
| Bfs.EndIsNearest | src/main/java/backend/academy/solvers/impl/BFSSolverImpl.java:57 | when end is polled no path to it is shorter than its recorded distance |
| Bfs.EndUnreachable | src/main/java/backend/academy/solvers/impl/BFSSolverImpl.java:85-86 | when the queue runs empty without polling end, end cannot be reached |
| Bfs.ChainIsPath | src/main/java/backend/academy/solvers/impl/BFSSolverImpl.java:57-67 | the predecessor chain of a visited cell is a path from start with one cell more than the cell's distance |
| Bfs.TracePath | src/main/java/backend/academy/solvers/impl/BFSSolverImpl.java:58-66 | walking the predecessor slots back until an empty one and reversing gives the predecessor chain from start to end |
| Bfs.ShortestSelf | src/main/java/backend/academy/solvers/impl/BFSSolverImpl.java:37-87 | a shortest path is non-empty and proves end reachable; from start to itself it is [start] |
| Bfs.Solve | src/main/java/backend/academy/solvers/impl/BFSSolverImpl.java:37-87 | the result is empty iff end is unreachable and otherwise a path from start to end with the fewest cells; [start] when start == end. Its loop keeps the number of polled cells at most height × width |
| Dijkstra.IsValid | src/main/java/backend/academy/solvers/impl/DijkstraSolverImpl.java:155-159 | true iff the coordinate is inside the grid and a PASSAGE |
| Dijkstra.PassageNeighborsMember | src/main/java/backend/academy/solvers/impl/DijkstraSolverImpl.java:131-144 | a coordinate is listed iff it is one move away and an in-bounds PASSAGE |
| Dijkstra.GetNeighbors | src/main/java/backend/academy/solvers/impl/DijkstraSolverImpl.java:131-144 | the loop over the four moves returns exactly those neighbours, in the order up, down, left, right |
| Dijkstra.InitDistances | src/main/java/backend/academy/solvers/impl/DijkstraSolverImpl.java:56-61 | the nested loops give a table with a slot for every in-bounds coordinate and no other, each at infinity |
| Dijkstra.InitialInv | src/main/java/backend/academy/solvers/impl/DijkstraSolverImpl.java:62-63 | with start at 0 and queued, the main invariant holds |
| Dijkstra.MinExists | src/main/java/backend/academy/solvers/impl/DijkstraSolverImpl.java:67 | a non-empty queue has an entry of least distance to poll |
| Dijkstra.PopStale | src/main/java/backend/academy/solvers/impl/DijkstraSolverImpl.java:70-73 | dropping a polled entry of a visited cell keeps the invariant |
| Dijkstra.Cheapest | src/main/java/backend/academy/solvers/impl/DijkstraSolverImpl.java:67-77 | a polled least entry of an unvisited cell holds that cell's table distance, and no path to the cell costs less |
| Dijkstra.Settle | src/main/java/backend/academy/solvers/impl/DijkstraSolverImpl.java:80 | marking the polled cell visited keeps the invariant with the cell's own relaxation pending |
| Dijkstra.RelaxRestMonotone | src/main/java/backend/academy/solvers/impl/DijkstraSolverImpl.java:87-91 | relaxation never makes a distance worse, since a slot is only replaced on strict improvement |
| Dijkstra.RelaxInv | src/main/java/backend/academy/solvers/impl/DijkstraSolverImpl.java:83-93 | relaxing one neighbour keeps the invariant, either skipped or improved with its predecessor and a new queue entry |
| Dijkstra.RelaxRestInv | src/main/java/backend/academy/solvers/impl/DijkstraSolverImpl.java:83-93 | relaxing the remaining neighbours keeps the invariant |
| Dijkstra.RelaxNeighbors | src/main/java/backend/academy/solvers/impl/DijkstraSolverImpl.java:83-93 | the neighbour loop updates the tables and the queue as the fold of one relaxation over the neighbour list |
| Dijkstra.RelaxDone | src/main/java/backend/academy/solvers/impl/DijkstraSolverImpl.java:83-93 | once every passage neighbour of the visited cell is relaxed, the main invariant is back |
| Dijkstra.UnsettledShrinks | src/main/java/backend/academy/solvers/impl/DijkstraSolverImpl.java:80 | visiting a new cell leaves fewer cells that can still be visited, so the loop ends |
| Dijkstra.EmptyUnreachable | src/main/java/backend/academy/solvers/impl/DijkstraSolverImpl.java:97 | an empty queue without end polled means end cannot be reached |
| Dijkstra.ChainCost | src/main/java/backend/academy/solvers/impl/DijkstraSolverImpl.java:108-122 | the predecessor chain of a reached cell is a path from start whose entry cost is the cell's table distance |
| Dijkstra.ReconstructPath | src/main/java/backend/academy/solvers/impl/DijkstraSolverImpl.java:108-122 | walking the predecessors back until start, adding start and reversing gives the predecessor chain from start to end |
| Dijkstra.Solve | src/main/java/backend/academy/solvers/impl/DijkstraSolverImpl.java:40-98 | the result is empty iff end is unreachable, and otherwise a path from start to end that costs no more than any other; [start] when start == end |
| Dijkstra.CheapestIsShortest | src/main/java/backend/academy/solvers/impl/DijkstraSolverImpl.java:40-98 | when every passage has the Normal surface, a cheapest path has the fewest cells, so the two solvers agree on its length |
| Scenarios.CorridorPath | src/test/java/BFSSolverImplTest.java:12-33 | in the 3 by 3 corridor the only shortest path from (1, 0) to (1, 2) is (1, 0), (1, 1), (1, 2) |
| Scenarios.SolveCorridor | src/test/java/BFSSolverImplTest.java:12-33 | the solver returns exactly the path testSimpleMaze expects |
| Scenarios.BlockedUnreachable | src/test/java/BFSSolverImplTest.java:64-79 | with (1, 1) walled, no path leads from (1, 0) to (1, 2) |
| Scenarios.SolveBlocked | src/test/java/BFSSolverImplTest.java:64-79 | the solver returns the empty list, as testNoPathAvailable expects |
| Scenarios.ObstaclesPath | src/test/java/BFSSolverImplTest.java:35-62 | in the 5 by 5 obstacle grid the only shortest path from (1, 0) to (3, 4) is the seven cells the test lists |
| Scenarios.SolveObstacles | src/test/java/BFSSolverImplTest.java:35-62 | the solver returns exactly the path testMazeWithObstacles expects |
| Scenarios.TwoWaysPath | src/test/java/BFSSolverImplTest.java:81-104 | in the 5 by 5 grid with two ways from (2, 0) to (4, 2) the only shortest path is the five cells the test lists |
| Scenarios.SolveTwoWays | src/test/java/BFSSolverImplTest.java:81-104 | the solver returns exactly the path testFindingMinimumPath expects, not the longer way round |

## Left out

- Rendering, the console user interface, the controller and the application entry point are not modelled. They only print mazes and read parameters. `Maze.getCell` is not used by the core and is not modelled either.
- `java.util.Random` is not modelled. Its draws become parameters:
  - `Collections.shuffle` is a permutation of the edge list's indices;
  - `nextInt` in `randomOdd` is a natural below `bound / 2`;
  - the wall Prim picks from its set is any member of the set;
  - `nextDouble` is a stream `draw: nat -> real` of samples.
- Floating point is not modelled. The surface probabilities and the samples are exact reals, so the thresholds 0.02, 0.05, 0.07 and 0.09 are exact sums rather than IEEE doubles.
- Java's 32-bit `int` overflow of the path costs is not modelled: distances are unbounded naturals. The `Integer.MAX_VALUE` sentinel of the distance table is an explicit `Infinity`, which is larger than every finite distance.
- The binary heap of `java.util.PriorityQueue` is not modelled. The queue is a multiset and a poll takes any entry of least distance, so ties may break differently from the heap.
- Hash-set and hash-map iteration order is not modelled.
  - Kruskal's sets are a map from each vertex to its set. `set1.addAll(set2)` and the re-pointing loop become one merge.
  - Prim's wall set is a set of cell values.
- Exceptions the Java code throws are not modelled. Those inputs are excluded by preconditions:
  - a negative requested size;
  - a Prim dimension of 1, where `nextInt(0)` throws;
  - a BFS `start` outside the grid, where the `visited` array is indexed out of bounds.
- Prim.Generate: does not state that every odd/odd cell ends up carved. The code can leave one walled: a wall whose two neighbours are both carved by the time it is polled is dropped, because it has two passage neighbours, and it is never carved later. So, unlike for Kruskal, the model proves the spanning tree only over the cells that are carved.
- Cells.RandomSurfaceBands: states the bands for exact reals, not for the double sums in the source.
- A 1 by 1 Kruskal maze has no odd/odd cell. The generator returns a single WALL cell: an empty tree with no vertex, not a one-vertex maze.
- Bfs.Solve, Dijkstra.Solve: state which paths may be returned (a fewest-cells path, a cheapest path), not which one of several equal paths the move order up, down, left, right picks.
