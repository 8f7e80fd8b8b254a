/**
 * The grids of BFSSolverImplTest.java, solved with the breadth-first solver.
 * In each grid with a path there is only one path with the fewest cells, so
 * the solver's contract alone fixes its answer; in the blocked grid it is
 * empty.
 */
module Scenarios {
  import opened Cells
  import opened Mazes
  import opened Bfs

  /** m is the grid drawn by rows: '.' marks a PASSAGE, anything else a WALL. */
  ghost predicate Drawn(m: Maze, rows: seq<string>) {
    |rows| >= 1 && (forall r :: 0 <= r < |rows| ==> |rows[r]| == |rows[0]|) &&
    m.Valid() && m.height == |rows| && m.width == |rows[0]| &&
    forall c :: m.Enterable(c) <==> m.InBounds(c) && rows[c.row][c.col] == '.'
  }

  /** The grid drawn by rows; each cell sits at its own position with the Normal surface. */
  function Picture(rows: seq<string>): (m: Maze)
    requires |rows| >= 1 && forall r :: 0 <= r < |rows| ==> |rows[r]| == |rows[0]|
    ensures Drawn(m, rows)
  {
    Maze(|rows|, |rows[0]|, seq(|rows|, r requires 0 <= r < |rows| =>
      seq(|rows[0]|, c requires 0 <= c < |rows[0]| => MakeCell(r, c, if rows[r][c] == '.' then Passage else Wall))))
  }

  // ---------------------------------------------------------------------
  // Why the answer is forced: a path needs at least as many steps as the
  // Manhattan distance it covers.

  function Abs(x: int): nat {
    if x < 0 then -x else x
  }

  /** The number of single steps between two coordinates when nothing is in the way. */
  function Manhattan(a: Coord, b: Coord): nat {
    Abs(a.row - b.row) + Abs(a.col - b.col)
  }

  /** From index k, a path still needs at least the Manhattan distance from p[k] to its end. */
  lemma {:induction false} StepsToEnd(m: Maze, p: seq<Coord>, s: Coord, e: Coord, k: nat)
    requires IsPath(m, p, s, e) && k < |p|
    ensures Manhattan(p[k], e) <= |p| - 1 - k
    decreases |p| - k
  {
    if k < |p| - 1 {
      StepsToEnd(m, p, s, e, k + 1);
      assert Adjacent(p[k], p[k + 1]);
    }
  }

  /** Moving to c instead of b is no way to reach e within `budget` steps: c is b, not a passage, or too far. */
  ghost predicate RuledOut(m: Maze, c: Coord, b: Coord, e: Coord, budget: int) {
    m.Enterable(c) && Manhattan(c, e) <= budget ==> c == b
  }

  /** Among the moves out of a, only the one to b enters a passage from which e is within `budget` steps. */
  ghost predicate NoDetour(m: Maze, a: Coord, b: Coord, e: Coord, budget: int) {
    forall i :: 0 <= i < 4 ==> RuledOut(m, Neighbor(a, i), b, e, budget)
  }

  /** NoDetour, checked move by move: up, down, left, right. */
  lemma NoDetourByMoves(m: Maze, a: Coord, b: Coord, e: Coord, budget: int)
    requires RuledOut(m, Coord(a.row - 1, a.col), b, e, budget) && RuledOut(m, Coord(a.row + 1, a.col), b, e, budget)
    requires RuledOut(m, Coord(a.row, a.col - 1), b, e, budget) && RuledOut(m, Coord(a.row, a.col + 1), b, e, budget)
    ensures NoDetour(m, a, b, e, budget)
  {
    forall i | 0 <= i < 4 ensures RuledOut(m, Neighbor(a, i), b, e, budget) {
      if i == 0 {} else if i == 1 {} else if i == 2 {} else {}
    }
  }

  /** At every step of x, the move x makes is the only one that can still reach e in the steps x has left. */
  ghost predicate OnlyWay(m: Maze, x: seq<Coord>, e: Coord) {
    forall k :: 1 <= k < |x| ==> NoDetour(m, x[k - 1], x[k], e, |x| - 1 - k)
  }

  /** A path as short as x that starts where x starts follows x cell by cell. */
  lemma {:induction false} FollowsOnlyWay(m: Maze, p: seq<Coord>, x: seq<Coord>, s: Coord, e: Coord, k: nat)
    requires IsPath(m, p, s, e) && |x| == |p| && x[0] == s && OnlyWay(m, x, e) && k < |p|
    ensures forall j :: 0 <= j <= k ==> p[j] == x[j]
    decreases k
  {
    if k > 0 {
      FollowsOnlyWay(m, p, x, s, e, k - 1);
      var i := AdjacentIsNeighbor(p[k - 1], p[k]);
      StepsToEnd(m, p, s, e, k);
      assert RuledOut(m, Neighbor(x[k - 1], i), x[k], e, |x| - 1 - k);
    }
  }

  /**
   * If x is a path from s to e whose length is the Manhattan distance and no
   * step of it has an alternative, then x is the only shortest path.
   */
  lemma OnlyShortestPath(m: Maze, p: seq<Coord>, x: seq<Coord>, s: Coord, e: Coord)
    requires IsPath(m, x, s, e) && Manhattan(s, e) == |x| - 1 && OnlyWay(m, x, e)
    requires ShortestPath(m, p, s, e)
    ensures p == x
  {
    StepsToEnd(m, p, s, e, 0);
    assert |p| == |x|;
    FollowsOnlyWay(m, p, x, s, e, |p| - 1);
  }

  // ---------------------------------------------------------------------
  // testSimpleMaze: a 3 by 3 corridor along the middle row.

  function CorridorRows(): seq<string> {
    ["###",
     "...",
     "###"]
  }

  function Corridor(): Maze {
    Picture(CorridorRows())
  }

  /** The three cells the test expects. */
  function CorridorRoute(): seq<Coord> {
    [Coord(1, 0), Coord(1, 1), Coord(1, 2)]
  }

  /** The expected route is a path, covers the Manhattan distance, and no step of it has an alternative. */
  lemma CorridorWay(m: Maze)
    requires Drawn(m, CorridorRows())
    ensures IsPath(m, CorridorRoute(), Coord(1, 0), Coord(1, 2))
    ensures Manhattan(Coord(1, 0), Coord(1, 2)) == |CorridorRoute()| - 1
    ensures OnlyWay(m, CorridorRoute(), Coord(1, 2))
  {
    var x := CorridorRoute();
    var e := Coord(1, 2);
    assert IsPath(m, x, Coord(1, 0), e);
    forall k | 1 <= k < |x| ensures NoDetour(m, x[k - 1], x[k], e, |x| - 1 - k) {
      if k == 1 {
        NoDetourByMoves(m, Coord(1, 0), Coord(1, 1), e, 1);
      } else {
        NoDetourByMoves(m, Coord(1, 1), Coord(1, 2), e, 0);
      }
    }
  }

  /** The only shortest path along the corridor from (1, 0) to (1, 2). */
  lemma CorridorPath(p: seq<Coord>)
    requires ShortestPath(Corridor(), p, Coord(1, 0), Coord(1, 2))
    ensures p == CorridorRoute()
  {
    CorridorWay(Corridor());
    OnlyShortestPath(Corridor(), p, CorridorRoute(), Coord(1, 0), Coord(1, 2));
  }

  /** The solver's answer for testSimpleMaze is the three cells of the corridor. */
  method SolveCorridor() returns (path: seq<Coord>)
    ensures path == CorridorRoute()
  {
    path := Solve(Corridor(), Coord(1, 0), Coord(1, 2));
    CorridorWay(Corridor());
    CorridorPath(path);
  }

  // ---------------------------------------------------------------------
  // testNoPathAvailable: the corridor with its middle cell walled.

  function BlockedRows(): seq<string> {
    ["###",
     ".#.",
     "###"]
  }

  function Blocked(): Maze {
    Picture(BlockedRows())
  }

  /** No path leaves (1, 0): every cell next to it is a wall or outside the grid. */
  lemma BlockedUnreachable(m: Maze)
    requires Drawn(m, BlockedRows())
    ensures !Reachable(m, Coord(1, 0), Coord(1, 2))
  {
    forall p | IsPath(m, p, Coord(1, 0), Coord(1, 2)) ensures false {
      var i := AdjacentIsNeighbor(p[0], p[1]);
    }
  }

  /** The solver's answer for testNoPathAvailable is empty. */
  method SolveBlocked() returns (path: seq<Coord>)
    ensures path == []
  {
    path := Solve(Blocked(), Coord(1, 0), Coord(1, 2));
    BlockedUnreachable(Blocked());
  }

  // ---------------------------------------------------------------------
  // testMazeWithObstacles: a 5 by 5 grid whose passages wind from (1, 0) to (3, 4).

  function ObstaclesRows(): seq<string> {
    ["#####",
     ".#..#",
     "..#.#",
     "#....",
     "#####"]
  }

  function Obstacles(): Maze {
    Picture(ObstaclesRows())
  }

  /** The seven cells the test expects. */
  function ObstaclesRoute(): seq<Coord> {
    [Coord(1, 0), Coord(2, 0), Coord(2, 1), Coord(3, 1), Coord(3, 2), Coord(3, 3), Coord(3, 4)]
  }

  /** The expected route is a path, covers the Manhattan distance, and no step of it has an alternative. */
  lemma ObstaclesWay(m: Maze)
    requires Drawn(m, ObstaclesRows())
    ensures IsPath(m, ObstaclesRoute(), Coord(1, 0), Coord(3, 4))
    ensures Manhattan(Coord(1, 0), Coord(3, 4)) == |ObstaclesRoute()| - 1
    ensures OnlyWay(m, ObstaclesRoute(), Coord(3, 4))
  {
    var x := ObstaclesRoute();
    var e := Coord(3, 4);
    assert IsPath(m, x, Coord(1, 0), e);
    forall k | 1 <= k < |x| ensures NoDetour(m, x[k - 1], x[k], e, |x| - 1 - k) {
      if k == 1 {
        NoDetourByMoves(m, Coord(1, 0), Coord(2, 0), e, 5);
      } else if k == 2 {
        NoDetourByMoves(m, Coord(2, 0), Coord(2, 1), e, 4);
      } else if k == 3 {
        NoDetourByMoves(m, Coord(2, 1), Coord(3, 1), e, 3);
      } else if k == 4 {
        NoDetourByMoves(m, Coord(3, 1), Coord(3, 2), e, 2);
      } else if k == 5 {
        NoDetourByMoves(m, Coord(3, 2), Coord(3, 3), e, 1);
      } else {
        NoDetourByMoves(m, Coord(3, 3), Coord(3, 4), e, 0);
      }
    }
  }

  /** The expected route is the only shortest path from (1, 0) to (3, 4). */
  lemma ObstaclesPath(p: seq<Coord>)
    requires ShortestPath(Obstacles(), p, Coord(1, 0), Coord(3, 4))
    ensures p == ObstaclesRoute()
  {
    ObstaclesWay(Obstacles());
    OnlyShortestPath(Obstacles(), p, ObstaclesRoute(), Coord(1, 0), Coord(3, 4));
  }

  /** The solver's answer for testMazeWithObstacles is the expected seven cells. */
  method SolveObstacles() returns (path: seq<Coord>)
    ensures path == ObstaclesRoute()
  {
    path := Solve(Obstacles(), Coord(1, 0), Coord(3, 4));
    ObstaclesWay(Obstacles());
    ObstaclesPath(path);
  }

  // ---------------------------------------------------------------------
  // testFindingMinimumPath: a 5 by 5 grid with a long and a short way from (2, 0) to (4, 2).

  function TwoWaysRows(): seq<string> {
    ["#####",
     "#...#",
     "..#.#",
     "#...#",
     "##.##"]
  }

  function TwoWays(): Maze {
    Picture(TwoWaysRows())
  }

  /** The five cells the test expects. */
  function TwoWaysRoute(): seq<Coord> {
    [Coord(2, 0), Coord(2, 1), Coord(3, 1), Coord(3, 2), Coord(4, 2)]
  }

  /** The expected route is a path, covers the Manhattan distance, and no step of it has an alternative. */
  lemma TwoWaysWay(m: Maze)
    requires Drawn(m, TwoWaysRows())
    ensures IsPath(m, TwoWaysRoute(), Coord(2, 0), Coord(4, 2))
    ensures Manhattan(Coord(2, 0), Coord(4, 2)) == |TwoWaysRoute()| - 1
    ensures OnlyWay(m, TwoWaysRoute(), Coord(4, 2))
  {
    var x := TwoWaysRoute();
    var e := Coord(4, 2);
    assert IsPath(m, x, Coord(2, 0), e);
    forall k | 1 <= k < |x| ensures NoDetour(m, x[k - 1], x[k], e, |x| - 1 - k) {
      if k == 1 {
        NoDetourByMoves(m, Coord(2, 0), Coord(2, 1), e, 3);
      } else if k == 2 {
        NoDetourByMoves(m, Coord(2, 1), Coord(3, 1), e, 2);
      } else if k == 3 {
        NoDetourByMoves(m, Coord(3, 1), Coord(3, 2), e, 1);
      } else {
        NoDetourByMoves(m, Coord(3, 2), Coord(4, 2), e, 0);
      }
    }
  }

  /** The expected route is the only shortest path from (2, 0) to (4, 2). */
  lemma TwoWaysPath(p: seq<Coord>)
    requires ShortestPath(TwoWays(), p, Coord(2, 0), Coord(4, 2))
    ensures p == TwoWaysRoute()
  {
    TwoWaysWay(TwoWays());
    OnlyShortestPath(TwoWays(), p, TwoWaysRoute(), Coord(2, 0), Coord(4, 2));
  }

  /** The solver's answer for testFindingMinimumPath is the expected five cells. */
  method SolveTwoWays() returns (path: seq<Coord>)
    ensures path == TwoWaysRoute()
  {
    path := Solve(TwoWays(), Coord(2, 0), Coord(4, 2));
    TwoWaysWay(TwoWays());
    TwoWaysPath(path);
  }
}
