/**
 * Coordinates, the maze value, and the notions shared by the generators and
 * the solvers: adjacency, solver paths and their entry cost, passage walks,
 * connectivity, and the lattice structure of a generated maze.
 */
module Mazes {
  import opened Cells

  /** A (row, col) position. */
  datatype Coord = Coord(row: int, col: int)

  /** A value that may be missing: a predecessor slot that is null until set, or no cell at all. */
  datatype Option<T> = None | Some(value: T)

  /** A height by width grid of cells, handed to the solvers as a value. */
  datatype Maze = Maze(height: int, width: int, grid: seq<seq<Cell>>) {

    /** The grid has exactly height rows of width cells each. */
    predicate Valid() {
      height >= 0 && width >= 0 && |grid| == height &&
      forall r :: 0 <= r < height ==> |grid[r]| == width
    }

    predicate InBounds(c: Coord) {
      0 <= c.row < height && 0 <= c.col < width
    }

    /** An in-bounds PASSAGE cell: one a solver may step into. */
    predicate Enterable(c: Coord) {
      InBounds(c) && c.row < |grid| && c.col < |grid[c.row]| &&
      grid[c.row][c.col].cellType == Passage
    }
  }

  /** An even requested dimension is incremented, an odd one is kept. */
  function OddDimension(n: int): (d: int)
    ensures n % 2 == 0 ==> d == n + 1
    ensures n % 2 != 0 ==> d == n
    ensures n >= 0 ==> d >= 1 && d % 2 == 1
  {
    if n % 2 == 0 then n + 1 else n
  }

  // The four moves, as the solvers list them: up, down, left, right.
  const DRows: seq<int> := [-1, 1, 0, 0]
  const DCols: seq<int> := [0, 0, -1, 1]

  function Neighbor(c: Coord, i: int): Coord
    requires 0 <= i < 4
  {
    Coord(c.row + DRows[i], c.col + DCols[i])
  }

  /** Two coordinates one step apart in exactly one direction. */
  predicate Adjacent(a: Coord, b: Coord) {
    (a.row == b.row && (a.col - b.col == 1 || b.col - a.col == 1)) ||
    (a.col == b.col && (a.row - b.row == 1 || b.row - a.row == 1))
  }

  lemma NeighborAdjacent(c: Coord, i: int)
    requires 0 <= i < 4
    ensures Adjacent(c, Neighbor(c, i))
  {
  }

  /** Every adjacent coordinate is one of the four moves. */
  lemma AdjacentIsNeighbor(a: Coord, b: Coord) returns (i: int)
    requires Adjacent(a, b)
    ensures 0 <= i < 4 && b == Neighbor(a, i)
  {
    if b.row == a.row - 1 { i := 0; }
    else if b.row == a.row + 1 { i := 1; }
    else if b.col == a.col - 1 { i := 2; }
    else { i := 3; }
  }

  /**
   * A solver path from s to e: it starts at s, ends at e, each step moves to
   * an adjacent coordinate, and every cell after s is in bounds and PASSAGE.
   */
  ghost predicate IsPath(m: Maze, p: seq<Coord>, s: Coord, e: Coord) {
    |p| >= 1 && p[0] == s && p[|p| - 1] == e &&
    forall i :: 1 <= i < |p| ==> Adjacent(p[i - 1], p[i]) && m.Enterable(p[i])
  }

  ghost predicate Reachable(m: Maze, s: Coord, e: Coord) {
    exists p :: IsPath(m, p, s, e)
  }

  /** The cost of entering coordinate c. */
  function EntryCost(m: Maze, c: Coord): (cost: int)
    ensures cost >= 0
  {
    if m.InBounds(c) && c.row < |m.grid| && c.col < |m.grid[c.row]|
    then SurfaceCost(m.grid[c.row][c.col].surface)
    else 0
  }

  /** The total entry cost of a path: the sum over every cell after the first. */
  function PathCost(m: Maze, p: seq<Coord>): (cost: int)
    decreases |p|
  {
    if |p| <= 1 then 0 else PathCost(m, p[..|p| - 1]) + EntryCost(m, p[|p| - 1])
  }

  /** When every enterable cell has Normal surface, a path costs one per step. */
  lemma {:induction false} UniformCostIsLength(m: Maze, p: seq<Coord>, s: Coord, e: Coord)
    requires IsPath(m, p, s, e)
    requires forall c :: m.Enterable(c) ==> m.grid[c.row][c.col].surface == Normal
    ensures PathCost(m, p) == |p| - 1
    decreases |p|
  {
    if |p| > 1 {
      var q := p[..|p| - 1];
      assert IsPath(m, q, s, q[|q| - 1]);
      UniformCostIsLength(m, q, s, q[|q| - 1]);
      assert m.Enterable(p[|p| - 1]);
    }
  }

  /** A prefix of a path is a path to its own last cell. */
  lemma PathPrefix(m: Maze, p: seq<Coord>, s: Coord, e: Coord, k: nat)
    requires IsPath(m, p, s, e) && 1 <= k <= |p|
    ensures IsPath(m, p[..k], s, p[k - 1])
  {
  }

  // ---------------------------------------------------------------------
  // Walks through passage cells, and connectivity in a generated maze.

  /** A walk from x to y: adjacent steps, every cell (x included) in bounds and PASSAGE. */
  ghost predicate IsWalk(m: Maze, p: seq<Coord>, x: Coord, y: Coord) {
    |p| >= 1 && p[0] == x && p[|p| - 1] == y &&
    (forall i :: 0 <= i < |p| ==> m.Enterable(p[i])) &&
    (forall i :: 1 <= i < |p| ==> Adjacent(p[i - 1], p[i]))
  }

  ghost predicate Connected(m: Maze, x: Coord, y: Coord) {
    exists p :: IsWalk(m, p, x, y)
  }

  lemma ConnectedRefl(m: Maze, x: Coord)
    requires m.Enterable(x)
    ensures Connected(m, x, x)
  {
    assert IsWalk(m, [x], x, x);
  }

  /** A walk extended by one adjacent passage cell. */
  lemma ConnectedStep(m: Maze, x: Coord, y: Coord, z: Coord)
    requires Connected(m, x, y) && Adjacent(y, z) && m.Enterable(z)
    ensures Connected(m, x, z)
  {
    var p :| IsWalk(m, p, x, y);
    assert IsWalk(m, p + [z], x, z);
  }

  function Reverse(p: seq<Coord>): (r: seq<Coord>)
    ensures |r| == |p|
    ensures forall i :: 0 <= i < |p| ==> r[i] == p[|p| - 1 - i]
  {
    if p == [] then [] else Reverse(p[1..]) + [p[0]]
  }

  /** Reversing a path with one more cell at its end puts that cell first. */
  lemma ReverseSnoc(p: seq<Coord>, c: Coord)
    ensures Reverse(p + [c]) == [c] + Reverse(p)
  {
    var r := Reverse(p + [c]);
    assert forall i :: 1 <= i < |r| ==> r[i] == p[|p| - i];
  }

  lemma ConnectedSym(m: Maze, x: Coord, y: Coord)
    requires Connected(m, x, y)
    ensures Connected(m, y, x)
  {
    var p :| IsWalk(m, p, x, y);
    var r := Reverse(p);
    forall i | 1 <= i < |r| ensures Adjacent(r[i - 1], r[i]) {
      assert r[i - 1] == p[|p| - i] && r[i] == p[|p| - 1 - i];
    }
    assert IsWalk(m, r, y, x);
  }

  lemma ConnectedTrans(m: Maze, x: Coord, y: Coord, z: Coord)
    requires Connected(m, x, y) && Connected(m, y, z)
    ensures Connected(m, x, z)
  {
    var p :| IsWalk(m, p, x, y);
    var q :| IsWalk(m, q, y, z);
    var w := p + q[1..];
    forall i | 1 <= i < |w| ensures Adjacent(w[i - 1], w[i]) {
      if i >= |p| {
        assert w[i - 1] == q[i - |p|] && w[i] == q[i - |p| + 1];
      }
    }
    assert IsWalk(m, w, x, z);
  }

  /** m2 has the same shape as m1 and keeps all its passages. */
  ghost predicate PassagesGrow(m1: Maze, m2: Maze) {
    m1.height == m2.height && m1.width == m2.width &&
    forall c :: m1.Enterable(c) ==> m2.Enterable(c)
  }

  lemma ConnectedMono(m1: Maze, m2: Maze, x: Coord, y: Coord)
    requires PassagesGrow(m1, m2) && Connected(m1, x, y)
    ensures Connected(m2, x, y)
  {
    var p :| IsWalk(m1, p, x, y);
    assert IsWalk(m2, p, x, y);
  }

  // ---------------------------------------------------------------------
  // The lattice of a generated maze.

  /** Both indices odd: a vertex of the maze graph. */
  predicate IsVertexPos(c: Coord) {
    c.row % 2 == 1 && c.col % 2 == 1
  }

  /** Both indices even: a structural pillar. */
  predicate IsPillarPos(c: Coord) {
    c.row % 2 == 0 && c.col % 2 == 0
  }

  /** Exactly one index odd: a wall that may be carved into an edge. */
  predicate IsEdgePos(c: Coord) {
    (c.row % 2 == 1) != (c.col % 2 == 1)
  }

  /** The two vertices an edge position sits between. */
  function EndA(c: Coord): Coord {
    if c.row % 2 == 1 then Coord(c.row, c.col - 1) else Coord(c.row - 1, c.col)
  }

  function EndB(c: Coord): Coord {
    if c.row % 2 == 1 then Coord(c.row, c.col + 1) else Coord(c.row + 1, c.col)
  }

  /** All odd/odd coordinates in a height by width grid. */
  ghost function AllVertices(height: int, width: int): set<Coord> {
    set r, c | 0 <= r < height && 0 <= c < width && r % 2 == 1 && c % 2 == 1 :: Coord(r, c)
  }

  /** The carved vertices: odd/odd PASSAGE cells. */
  ghost function TreeVertices(m: Maze): set<Coord> {
    set r, c | 0 <= r < m.height && 0 <= c < m.width && r % 2 == 1 && c % 2 == 1 &&
      m.Enterable(Coord(r, c)) :: Coord(r, c)
  }

  /** The carved edges: PASSAGE cells with exactly one odd index. */
  ghost function CarvedEdges(m: Maze): set<Coord> {
    set r, c | 0 <= r < m.height && 0 <= c < m.width && ((r % 2 == 1) != (c % 2 == 1)) &&
      m.Enterable(Coord(r, c)) :: Coord(r, c)
  }

  lemma TreeVerticesMember(m: Maze, c: Coord)
    ensures c in TreeVertices(m) <==> m.Enterable(c) && IsVertexPos(c)
  {
    if m.Enterable(c) && IsVertexPos(c) {
      assert c == Coord(c.row, c.col);
    }
  }

  lemma CarvedEdgesMember(m: Maze, c: Coord)
    ensures c in CarvedEdges(m) <==> m.Enterable(c) && IsEdgePos(c)
  {
    if m.Enterable(c) && IsEdgePos(c) {
      assert c == Coord(c.row, c.col);
    }
  }

  /** Every in-bounds coordinate of a height by width grid. */
  ghost function AllCoords(height: int, width: int): set<Coord> {
    set r, c | 0 <= r < height && 0 <= c < width :: Coord(r, c)
  }

  lemma AllCoordsMember(height: int, width: int, c: Coord)
    ensures c in AllCoords(height, width) <==> 0 <= c.row < height && 0 <= c.col < width
  {
    if 0 <= c.row < height && 0 <= c.col < width {
      assert c == Coord(c.row, c.col);
    }
  }

  /** The first `width` coordinates of row `row`. */
  ghost function RowCoords(row: int, width: int): set<Coord> {
    set c | 0 <= c < width :: Coord(row, c)
  }

  lemma {:induction false} RowCoordsCount(row: int, width: int)
    requires width >= 0
    ensures |RowCoords(row, width)| == width
    decreases width
  {
    if width > 0 {
      RowCoordsCount(row, width - 1);
      assert RowCoords(row, width) == RowCoords(row, width - 1) + {Coord(row, width - 1)};
    } else {
      assert RowCoords(row, width) == {};
    }
  }

  /** The coordinates of height rows are those of the rows above the last, and the last row's. */
  lemma AllCoordsSplit(height: int, width: int)
    requires height > 0
    ensures AllCoords(height, width) == AllCoords(height - 1, width) + RowCoords(height - 1, width)
    ensures AllCoords(height - 1, width) !! RowCoords(height - 1, width)
  {
    forall c ensures c in AllCoords(height, width) <==> c in AllCoords(height - 1, width) + RowCoords(height - 1, width) {
      AllCoordsMember(height, width, c);
      AllCoordsMember(height - 1, width, c);
      if c.row == height - 1 && 0 <= c.col < width {
        assert c == Coord(height - 1, c.col);
      }
    }
    var last := RowCoords(height - 1, width);
    forall c | c in last ensures c !in AllCoords(height - 1, width) {
      AllCoordsMember(height - 1, width, c);
    }
  }

  /** A height by width grid has height * width coordinates. */
  lemma {:induction false} AllCoordsCount(height: int, width: int)
    requires height >= 0 && width >= 0
    ensures |AllCoords(height, width)| == height * width
    decreases height
  {
    if height > 0 {
      AllCoordsCount(height - 1, width);
      RowCoordsCount(height - 1, width);
      AllCoordsSplit(height, width);
      assert height * width == (height - 1) * width + width;
    } else {
      assert AllCoords(height, width) == {};
    }
  }

  /** Taking in one more element of A strictly shrinks what remains of A. */
  lemma RemainderShrinks(A: set<Coord>, T: set<Coord>, T': set<Coord>, v: Coord)
    requires v in A && v !in T && T' == T + {v}
    ensures |A - T'| < |A - T|
  {
    assert A - T' == (A - T) - {v};
  }

  lemma AllVerticesMember(height: int, width: int, c: Coord)
    ensures c in AllVertices(height, width) <==>
      0 <= c.row < height && 0 <= c.col < width && IsVertexPos(c)
  {
    if 0 <= c.row < height && 0 <= c.col < width && IsVertexPos(c) {
      assert c == Coord(c.row, c.col);
    }
  }

  /** Every cell knows its own position, and every wall has the default surface. */
  ghost predicate CellsWellFormed(m: Maze)
    requires m.Valid()
  {
    forall r, c :: 0 <= r < m.height && 0 <= c < m.width ==>
      m.grid[r][c].row == r && m.grid[r][c].col == c &&
      (m.grid[r][c].cellType == Wall ==> m.grid[r][c].surface == Normal)
  }

  /** The pillar invariant: every even/even cell is WALL. */
  ghost predicate PillarsStand(m: Maze)
    requires m.Valid()
  {
    forall r, c :: 0 <= r < m.height && 0 <= c < m.width && r % 2 == 0 && c % 2 == 0 ==>
      m.grid[r][c].cellType == Wall
  }

  /** Every carved edge joins two carved vertices. */
  ghost predicate EdgesJoinVertices(m: Maze) {
    forall e :: e in CarvedEdges(m) ==> EndA(e) in TreeVertices(m) && EndB(e) in TreeVertices(m)
  }

  /**
   * The spanning-tree invariant over the carved vertices: every carved edge
   * joins two of them, any two of them are connected through passages, and
   * there is one edge fewer than vertices; a connected graph with V-1 edges
   * has no cycle.
   */
  ghost predicate SpanningTree(m: Maze) {
    EdgesJoinVertices(m) &&
    (forall x, y :: x in TreeVertices(m) && y in TreeVertices(m) ==> Connected(m, x, y)) &&
    (TreeVertices(m) != {} ==> |CarvedEdges(m)| + 1 == |TreeVertices(m)|)
  }

  // ---------------------------------------------------------------------
  // Replacing one cell, as the generators do.

  function SetCell(m: Maze, p: Coord, cell: Cell): (m': Maze)
    requires m.Valid() && m.InBounds(p)
    ensures m'.Valid() && m'.height == m.height && m'.width == m.width
    ensures m'.grid[p.row][p.col] == cell
    ensures forall r, c :: 0 <= r < m.height && 0 <= c < m.width && (r != p.row || c != p.col) ==>
      m'.grid[r][c] == m.grid[r][c]
  {
    Maze(m.height, m.width, m.grid[p.row := m.grid[p.row][p.col := cell]])
  }

  /** Carving a WALL cell adds exactly that cell to the vertices or to the edges. */
  lemma CarveOne(m: Maze, p: Coord, cell: Cell)
    requires m.Valid() && m.InBounds(p) && !m.Enterable(p) && cell.cellType == Passage
    ensures PassagesGrow(m, SetCell(m, p, cell))
    ensures IsVertexPos(p) ==> TreeVertices(SetCell(m, p, cell)) == TreeVertices(m) + {p}
    ensures !IsVertexPos(p) ==> TreeVertices(SetCell(m, p, cell)) == TreeVertices(m)
    ensures IsEdgePos(p) ==> CarvedEdges(SetCell(m, p, cell)) == CarvedEdges(m) + {p}
    ensures !IsEdgePos(p) ==> CarvedEdges(SetCell(m, p, cell)) == CarvedEdges(m)
    ensures p !in TreeVertices(m) && p !in CarvedEdges(m)
  {
    var m' := SetCell(m, p, cell);
    forall c ensures m'.Enterable(c) <==> m.Enterable(c) || c == p {
    }
    forall c ensures c in TreeVertices(m') <==> c in TreeVertices(m) || (IsVertexPos(p) && c == p) {
      TreeVerticesMember(m, c);
      TreeVerticesMember(m', c);
    }
    forall c ensures c in CarvedEdges(m') <==> c in CarvedEdges(m) || (IsEdgePos(p) && c == p) {
      CarvedEdgesMember(m, c);
      CarvedEdgesMember(m', c);
    }
    TreeVerticesMember(m, p);
    CarvedEdgesMember(m, p);
  }

  // ---------------------------------------------------------------------
  // A fixed-size grid array and the maze value it holds.

  /** The value of a grid array, row by row. */
  function Freeze(a: array2<Cell>): (g: seq<seq<Cell>>)
    reads a
    ensures |g| == a.Length0
    ensures forall r :: 0 <= r < |g| ==> |g[r]| == a.Length1
    ensures forall r, c :: 0 <= r < a.Length0 && 0 <= c < a.Length1 ==> g[r][c] == a[r, c]
  {
    seq(a.Length0, (r: int) requires 0 <= r < a.Length0 reads a =>
      seq(a.Length1, (c: int) requires 0 <= c < a.Length1 reads a => a[r, c]))
  }

  /** The array holds exactly the maze value m. */
  ghost predicate Mirrors(a: array2<Cell>, m: Maze)
    reads a
  {
    m.Valid() && a.Length0 == m.height && a.Length1 == m.width &&
    forall r, c :: 0 <= r < m.height && 0 <= c < m.width ==> a[r, c] == m.grid[r][c]
  }

  lemma FreezeMirror(a: array2<Cell>, m: Maze)
    requires Mirrors(a, m)
    ensures Freeze(a) == m.grid
  {
    var g := Freeze(a);
    assert |g| == |m.grid|;
    forall r | 0 <= r < |g| ensures g[r] == m.grid[r] {
      assert |g[r]| == |m.grid[r]|;
    }
  }

  /** Writes one cell of the grid array; the maze value it holds changes by SetCell. */
  method Store(a: array2<Cell>, ghost m: Maze, p: Coord, cell: Cell) returns (ghost m': Maze)
    requires Mirrors(a, m) && m.InBounds(p)
    modifies a
    ensures m' == SetCell(m, p, cell) && Mirrors(a, m')
  {
    a[p.row, p.col] := cell;
    m' := SetCell(m, p, cell);
  }
}
