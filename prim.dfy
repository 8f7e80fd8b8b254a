/**
 * The Prim-style generator (PrimMazeGenerator.java): every cell starts as a
 * wall, one random odd/odd cell is carved, and a frontier of wall vertices
 * two cells away from the carved region is drained in random order. A
 * frontier vertex is carved, together with the wall between, exactly when
 * it has one carved vertex two cells away; otherwise it is dropped.
 */
module Prim {
  import opened Cells
  import opened Mazes

  /** The distance between neighbouring vertices; the midpoint arithmetic needs 2. */
  const Step: int := 2

  /**
   * An odd number below `bound`, from a uniform draw `pick` in [0, bound / 2).
   * The draw requires bound / 2 > 0, so a bound of 1 has no valid draw.
   */
  function RandomOdd(bound: int, pick: int): (r: int)
    requires 0 <= pick < bound / 2
    ensures r % 2 == 1 && 1 <= r < bound
    ensures bound % 2 == 1 ==> r <= bound - 2
  {
    var r := pick * 2 + 1;
    if r < bound then r else r - 1
  }

  /** Every odd number in [1, bound - 2] is drawn by some pick, so every vertex row can start. */
  lemma RandomOddCovers(bound: int, r: int)
    requires bound % 2 == 1 && r % 2 == 1 && 1 <= r <= bound - 2
    ensures 0 <= (r - 1) / 2 < bound / 2 && RandomOdd(bound, (r - 1) / 2) == r
  {
  }

  // ---------------------------------------------------------------------
  // The two-step neighbours.

  /** The coordinate `Step` cells away in direction i: up, down, left, right. */
  function Jump(c: Coord, i: int): Coord
    requires 0 <= i < 4
  {
    Coord(c.row + Step * DRows[i], c.col + Step * DCols[i])
  }

  /** Two coordinates `Step` cells apart in one direction. */
  predicate TwoStepApart(c: Coord, d: Coord) {
    (d.row == c.row && (d.col == c.col - 2 || d.col == c.col + 2)) ||
    (d.col == c.col && (d.row == c.row - 2 || d.row == c.row + 2))
  }

  /** The cell at d exists and has type t. */
  predicate HasType(m: Maze, d: Coord, t: CellType)
    requires m.Valid()
  {
    m.InBounds(d) && m.grid[d.row][d.col].cellType == t
  }

  /** What the neighbour scan has collected after the first i directions. */
  function NeighborsUpTo(m: Maze, c: Coord, t: CellType, i: int): seq<Coord>
    requires m.Valid() && 0 <= i <= 4
    decreases i
  {
    if i == 0 then []
    else NeighborsUpTo(m, c, t, i - 1) + (if HasType(m, Jump(c, i - 1), t) then [Jump(c, i - 1)] else [])
  }

  /** The coordinates two cells from c whose cell has type t, in the scan's order. */
  function TwoStepNeighbors(m: Maze, c: Coord, t: CellType): seq<Coord>
    requires m.Valid()
  {
    NeighborsUpTo(m, c, t, 4)
  }

  lemma {:induction false} NeighborsUpToMember(m: Maze, c: Coord, t: CellType, i: int, d: Coord)
    requires m.Valid() && 0 <= i <= 4
    ensures d in NeighborsUpTo(m, c, t, i) <==> exists j :: 0 <= j < i && d == Jump(c, j) && HasType(m, d, t)
    decreases i
  {
    if i > 0 {
      var p := i - 1;
      NeighborsUpToMember(m, c, t, p, d);
      assert NeighborsUpTo(m, c, t, i) ==
        NeighborsUpTo(m, c, t, p) + (if HasType(m, Jump(c, p), t) then [Jump(c, p)] else []);
    }
  }

  /** The scan finds exactly the cells of type t two cells away. */
  lemma TwoStepNeighborsMember(m: Maze, c: Coord, t: CellType, d: Coord)
    requires m.Valid()
    ensures d in TwoStepNeighbors(m, c, t) <==> TwoStepApart(c, d) && HasType(m, d, t)
  {
    NeighborsUpToMember(m, c, t, 4, d);
    if TwoStepApart(c, d) && HasType(m, d, t) {
      if d.row == c.row - 2 { assert d == Jump(c, 0); }
      else if d.row == c.row + 2 { assert d == Jump(c, 1); }
      else if d.col == c.col - 2 { assert d == Jump(c, 2); }
      else { assert d == Jump(c, 3); }
    }
  }

  /** The scan lists each neighbour once, so it has at most four entries. */
  lemma TwoStepNeighborsDistinct(m: Maze, c: Coord, t: CellType)
    requires m.Valid()
    ensures |TwoStepNeighbors(m, c, t)| <= 4
    ensures forall a, b :: 0 <= a < b < |TwoStepNeighbors(m, c, t)| ==>
      TwoStepNeighbors(m, c, t)[a] != TwoStepNeighbors(m, c, t)[b]
  {
    var s0 := NeighborsUpTo(m, c, t, 0);
    var s1 := NeighborsUpTo(m, c, t, 1);
    var s2 := NeighborsUpTo(m, c, t, 2);
    var s3 := NeighborsUpTo(m, c, t, 3);
    assert s1 == s0 + (if HasType(m, Jump(c, 0), t) then [Jump(c, 0)] else []);
    assert s2 == s1 + (if HasType(m, Jump(c, 1), t) then [Jump(c, 1)] else []);
    assert s3 == s2 + (if HasType(m, Jump(c, 2), t) then [Jump(c, 2)] else []);
  }

  /**
   * getNeighbors: scans up, down, left and right, `Step` cells away, and
   * collects the in-bounds coordinates whose cell has type t.
   */
  method GetNeighbors(grid: array2<Cell>, ghost m: Maze, row: int, col: int, t: CellType)
    returns (neighbors: seq<Coord>)
    requires Mirrors(grid, m) && grid.Length0 >= 1
    ensures neighbors == TwoStepNeighbors(m, Coord(row, col), t)
  {
    neighbors := [];
    var height := grid.Length0;
    var width := grid.Length1;
    var dRows := [-Step, Step, 0, 0];
    var dCols := [0, 0, -Step, Step];
    for i := 0 to 4
      invariant neighbors == NeighborsUpTo(m, Coord(row, col), t, i)
    {
      var newRow := row + dRows[i];
      var newCol := col + dCols[i];
      assert Jump(Coord(row, col), i) == Coord(newRow, newCol);
      if 0 <= newRow && newRow < height && 0 <= newCol && newCol < width {
        if grid[newRow, newCol].cellType == t {
          neighbors := neighbors + [Coord(newRow, newCol)];
        }
      }
    }
  }

  // ---------------------------------------------------------------------
  // The frontier.

  /** The cells of the grid at the given in-bounds coordinates. */
  ghost function CellsAt(m: Maze, cs: seq<Coord>): set<Cell>
    requires m.Valid()
  {
    set j | 0 <= j < |cs| && m.InBounds(cs[j]) :: m.grid[cs[j].row][cs[j].col]
  }

  /** Adds the current cell at each coordinate to the frontier set. */
  method AddWalls(grid: array2<Cell>, ghost m: Maze, frontier: set<Cell>, coords: seq<Coord>)
    returns (f: set<Cell>)
    requires Mirrors(grid, m) && forall j :: 0 <= j < |coords| ==> m.InBounds(coords[j])
    ensures f == frontier + CellsAt(m, coords)
  {
    f := frontier;
    for j := 0 to |coords|
      invariant f == frontier + CellsAt(m, coords[..j])
    {
      var c := coords[j];
      assert CellsAt(m, coords[..j + 1]) == CellsAt(m, coords[..j]) + {m.grid[c.row][c.col]} by {
        assert forall q :: 0 <= q < j ==> coords[..j + 1][q] == coords[..j][q];
      }
      f := f + {grid[c.row, c.col]};
    }
    assert coords[..|coords|] == coords;
  }

  /** Some vertex two cells from c is carved. */
  ghost predicate NextToTree(m: Maze, c: Coord) {
    exists i :: 0 <= i < 4 && Jump(c, i) in TreeVertices(m)
  }

  /**
   * Every frontier entry is the current cell at its own position: an
   * in-bounds odd/odd WALL two cells from a carved vertex.
   */
  ghost predicate FrontierOk(m: Maze, frontier: set<Cell>)
    requires m.Valid()
  {
    forall f :: f in frontier ==>
      HasType(m, Coord(f.row, f.col), Wall) && IsVertexPos(Coord(f.row, f.col)) &&
      m.grid[f.row][f.col] == f && NextToTree(m, Coord(f.row, f.col))
  }

  /** What the main loop keeps true of the grid: its shape, its pillars, and a tree through `start`. */
  ghost predicate TreeInv(m: Maze, height: int, width: int, start: Coord) {
    m.Valid() && m.height == height && m.width == width &&
    CellsWellFormed(m) && PillarsStand(m) &&
    start in TreeVertices(m) && SpanningTree(m)
  }

  ghost predicate PrimInv(m: Maze, frontier: set<Cell>, height: int, width: int, start: Coord) {
    TreeInv(m, height, width, start) && FrontierOk(m, frontier)
  }

  /** The neighbours of a carved vertex that are still walls make a valid frontier. */
  lemma NewFrontier(m: Maze, v: Coord)
    requires m.Valid() && CellsWellFormed(m) && v in TreeVertices(m)
    ensures FrontierOk(m, CellsAt(m, TwoStepNeighbors(m, v, Wall)))
  {
    var ns := TwoStepNeighbors(m, v, Wall);
    forall f | f in CellsAt(m, ns)
      ensures HasType(m, Coord(f.row, f.col), Wall) && IsVertexPos(Coord(f.row, f.col)) &&
        m.grid[f.row][f.col] == f && NextToTree(m, Coord(f.row, f.col))
    {
      var j :| 0 <= j < |ns| && m.InBounds(ns[j]) && f == m.grid[ns[j].row][ns[j].col];
      FrontierEntry(m, v, ns[j]);
    }
  }

  /** The wall cell at a two-step neighbour d of a carved vertex v is a valid frontier entry. */
  lemma FrontierEntry(m: Maze, v: Coord, d: Coord)
    requires m.Valid() && CellsWellFormed(m) && v in TreeVertices(m)
    requires d in TwoStepNeighbors(m, v, Wall)
    ensures m.InBounds(d) && m.grid[d.row][d.col].row == d.row && m.grid[d.row][d.col].col == d.col
    ensures HasType(m, d, Wall) && IsVertexPos(d) && NextToTree(m, d)
  {
    TreeVerticesMember(m, v);
    TwoStepNeighborsMember(m, v, Wall, d);
    BetweenEdge(v, d);
    var i := JumpBack(v, d);
  }

  /** The direction that leads from d back to v, two cells away. */
  lemma JumpBack(v: Coord, d: Coord) returns (i: int)
    requires TwoStepApart(v, d)
    ensures 0 <= i < 4 && Jump(d, i) == v
  {
    if d.row == v.row + 2 { i := 0; }
    else if d.row == v.row - 2 { i := 1; }
    else if d.col == v.col + 2 { i := 2; }
    else { i := 3; }
  }

  // ---------------------------------------------------------------------
  // The initial grid.

  /** The grid after the first loop: a WALL with surface NORMAL everywhere. */
  function AllWalls(height: int, width: int): (m: Maze)
    requires height >= 0 && width >= 0
    ensures m.Valid() && m.height == height && m.width == width
  {
    Maze(height, width, seq(height, r => seq(width, c => MakeCell(r, c, Wall))))
  }

  /** The first loop: every cell becomes a wall. */
  method InitialWalls(height: int, width: int) returns (grid: array2<Cell>, ghost m: Maze)
    requires height >= 0 && width >= 0
    ensures fresh(grid) && Mirrors(grid, m) && m == AllWalls(height, width)
  {
    grid := new Cell[height, width];
    for row := 0 to height
      invariant forall r, c :: 0 <= r < row && 0 <= c < width ==> grid[r, c] == MakeCell(r, c, Wall)
    {
      for col := 0 to width
        invariant forall r, c :: 0 <= r < row && 0 <= c < width ==> grid[r, c] == MakeCell(r, c, Wall)
        invariant forall c :: 0 <= c < col ==> grid[row, c] == MakeCell(row, c, Wall)
      {
        grid[row, col] := MakeCell(row, col, Wall);
      }
    }
    m := AllWalls(height, width);
  }

  /**
   * Carving the start vertex into the all-wall grid: every other cell is a
   * wall, the start is the only carved vertex and no edge is carved, so the
   * grid is a one-vertex tree; its wall neighbours make a valid frontier.
   */
  lemma StartTree(height: int, width: int, start: Coord, cell: Cell)
    requires height >= 0 && width >= 0
    requires 0 <= start.row < height && 0 <= start.col < width && IsVertexPos(start)
    requires cell.row == start.row && cell.col == start.col && cell.cellType == Passage
    ensures forall r, c :: 0 <= r < height && 0 <= c < width && Coord(r, c) != start ==>
      SetCell(AllWalls(height, width), start, cell).grid[r][c] == MakeCell(r, c, Wall)
    ensures TreeVertices(SetCell(AllWalls(height, width), start, cell)) == {start}
    ensures CarvedEdges(SetCell(AllWalls(height, width), start, cell)) == {}
    ensures TreeInv(SetCell(AllWalls(height, width), start, cell), height, width, start)
  {
    var m0 := AllWalls(height, width);
    var m := SetCell(m0, start, cell);
    forall c ensures c !in TreeVertices(m0) && c !in CarvedEdges(m0) {
      TreeVerticesMember(m0, c);
      CarvedEdgesMember(m0, c);
    }
    assert TreeVertices(m0) == {} && CarvedEdges(m0) == {};
    CarveOne(m0, start, cell);
    assert forall r, c :: 0 <= r < height && 0 <= c < width && Coord(r, c) != start ==>
      m.grid[r][c] == m0.grid[r][c];
    ConnectedRefl(m, start);
  }

  // ---------------------------------------------------------------------
  // One iteration of the main loop.

  /** The wall between a vertex and one two cells away. */
  function Between(v: Coord, p: Coord): Coord {
    Coord((v.row + p.row) / 2, (v.col + p.col) / 2)
  }

  /** The wall between two vertices two cells apart is an edge position adjacent to both. */
  lemma BetweenEdge(v: Coord, p: Coord)
    requires IsVertexPos(v) && TwoStepApart(v, p)
    ensures IsVertexPos(p) && IsEdgePos(Between(v, p))
    ensures Adjacent(v, Between(v, p)) && Adjacent(Between(v, p), p)
    ensures {EndA(Between(v, p)), EndB(Between(v, p))} == {v, p}
  {
  }

  /** The scan only returns in-bounds coordinates. */
  lemma TwoStepNeighborsInBounds(m: Maze, v: Coord, t: CellType)
    requires m.Valid()
    ensures forall j :: 0 <= j < |TwoStepNeighbors(m, v, t)| ==> m.InBounds(TwoStepNeighbors(m, v, t)[j])
  {
    forall j | 0 <= j < |TwoStepNeighbors(m, v, t)| ensures m.InBounds(TwoStepNeighbors(m, v, t)[j]) {
      TwoStepNeighborsMember(m, v, t, TwoStepNeighbors(m, v, t)[j]);
    }
  }

  /** A passage two cells from a vertex is a carved vertex, and the wall between is in bounds. */
  lemma CarveTarget(m: Maze, v: Coord, p: Coord)
    requires m.Valid() && m.InBounds(v) && IsVertexPos(v)
    requires p in TwoStepNeighbors(m, v, Passage)
    ensures p in TreeVertices(m) && TwoStepApart(v, p) && m.InBounds(Between(v, p))
  {
    TwoStepNeighborsMember(m, v, Passage, p);
    BetweenEdge(v, p);
    TreeVerticesMember(m, p);
  }

  /**
   * Carving vertex v, which is a wall, and the wall between it and the carved
   * vertex p adds one vertex and one edge to the tree.
   */
  lemma CarveTree(m: Maze, height: int, width: int, start: Coord, v: Coord, p: Coord, cv: Cell, cm: Cell)
    requires TreeInv(m, height, width, start)
    requires m.InBounds(v) && IsVertexPos(v) && !m.Enterable(v)
    requires p in TreeVertices(m) && TwoStepApart(v, p) && m.InBounds(Between(v, p))
    requires cv.row == v.row && cv.col == v.col && cv.cellType == Passage
    requires cm.row == Between(v, p).row && cm.col == Between(v, p).col && cm.cellType == Passage
    ensures TreeInv(SetCell(SetCell(m, v, cv), Between(v, p), cm), height, width, start)
    ensures TreeVertices(SetCell(SetCell(m, v, cv), Between(v, p), cm)) == TreeVertices(m) + {v}
    ensures v !in TreeVertices(m) && v in AllVertices(height, width)
  {
    var mid := Between(v, p);
    var m1 := SetCell(m, v, cv);
    var m2 := SetCell(m1, mid, cm);
    BetweenEdge(v, p);
    AllVerticesMember(height, width, v);
    TreeVerticesMember(m, v);
    assert mid !in CarvedEdges(m) by {
      assert v !in TreeVertices(m);
    }
    CarvedEdgesMember(m, mid);
    CarveOne(m, v, cv);
    assert m1.grid[mid.row][mid.col] == m.grid[mid.row][mid.col];
    CarveOne(m1, mid, cm);
    CarveKeepsShape(m, m1, m2, v, mid, cv, cm);
    CarveKeepsTree(m, m2, start, v, p, mid);
  }

  /** The two carved cells are a vertex and an edge position, so the shape of the grid is kept. */
  lemma CarveKeepsShape(m: Maze, m1: Maze, m2: Maze, v: Coord, mid: Coord, cv: Cell, cm: Cell)
    requires m.Valid() && CellsWellFormed(m) && PillarsStand(m)
    requires m.InBounds(v) && m.InBounds(mid) && IsVertexPos(v) && IsEdgePos(mid)
    requires m1 == SetCell(m, v, cv) && m2 == SetCell(m1, mid, cm)
    requires cv.row == v.row && cv.col == v.col && cv.cellType == Passage
    requires cm.row == mid.row && cm.col == mid.col && cm.cellType == Passage
    ensures m2.Valid() && CellsWellFormed(m2) && PillarsStand(m2)
  {
    assert CellsWellFormed(m1);
    assert PillarsStand(m1);
  }

  /** The new vertex hangs off p through the new edge, so the carved region stays a tree. */
  lemma CarveKeepsTree(m: Maze, m2: Maze, start: Coord, v: Coord, p: Coord, mid: Coord)
    requires start in TreeVertices(m) && SpanningTree(m) && PassagesGrow(m, m2)
    requires v !in TreeVertices(m) && p in TreeVertices(m)
    requires TreeVertices(m2) == TreeVertices(m) + {v}
    requires CarvedEdges(m2) == CarvedEdges(m) + {mid} && mid !in CarvedEdges(m)
    requires {EndA(mid), EndB(mid)} == {v, p} && Adjacent(v, mid) && Adjacent(mid, p)
    requires m2.Enterable(v) && m2.Enterable(mid)
    ensures start in TreeVertices(m2) && SpanningTree(m2)
  {
    forall x | x in TreeVertices(m2) ensures Connected(m2, p, x) {
      if x == v {
        ConnectedRefl(m, p);
        ConnectedMono(m, m2, p, p);
        ConnectedStep(m2, p, p, mid);
        ConnectedStep(m2, p, mid, v);
      } else {
        ConnectedMono(m, m2, p, x);
      }
    }
    forall x, y | x in TreeVertices(m2) && y in TreeVertices(m2) ensures Connected(m2, x, y) {
      ConnectedSym(m2, p, x);
      ConnectedTrans(m2, x, p, y);
    }
    assert v !in TreeVertices(m);
  }

  /** The frontier without the visited entry stays valid in the grid with v and mid carved. */
  lemma FrontierKeep(m: Maze, m2: Maze, frontier: set<Cell>, wall: Cell, mid: Coord)
    requires m.Valid() && FrontierOk(m, frontier) && wall in frontier
    requires m2.Valid() && m2.height == m.height && m2.width == m.width
    requires IsEdgePos(mid) && TreeVertices(m) <= TreeVertices(m2)
    requires forall r, c ::
      (0 <= r < m.height && 0 <= c < m.width && Coord(r, c) != Coord(wall.row, wall.col) && Coord(r, c) != mid) ==>
      m2.grid[r][c] == m.grid[r][c]
    ensures FrontierOk(m2, frontier - {wall})
  {
    forall f | f in frontier - {wall}
      ensures HasType(m2, Coord(f.row, f.col), Wall) && IsVertexPos(Coord(f.row, f.col)) &&
        m2.grid[f.row][f.col] == f && NextToTree(m2, Coord(f.row, f.col))
    {
      var c := Coord(f.row, f.col);
      assert c != Coord(wall.row, wall.col) by {
        assert m.grid[wall.row][wall.col] == wall;
      }
      var i :| 0 <= i < 4 && Jump(c, i) in TreeVertices(m);
      assert Jump(c, i) in TreeVertices(m2);
    }
  }

  /** The state of the main loop: the grid's value, the frontier and the number of samples drawn. */
  datatype PrimState = PrimState(m: Maze, frontier: set<Cell>, k: nat)

  /**
   * One iteration of the main loop on `wall`: it leaves the frontier and,
   * when exactly one carved vertex p lies two cells away, `wall` and the
   * wall between it and p become passages with the surfaces that the samples
   * c1 and c2 select, and the walls two cells from it join the frontier. No
   * other cell changes.
   */
  ghost function PrimStep(st: PrimState, wall: Cell, c1: real, c2: real): (r: PrimState)
    requires st.m.Valid()
    ensures r.m.Valid() && r.m.height == st.m.height && r.m.width == st.m.width
  {
    var v := Coord(wall.row, wall.col);
    var ps := TwoStepNeighbors(st.m, v, Passage);
    if |ps| == 1 && st.m.InBounds(v) && st.m.InBounds(Between(v, ps[0])) then
      CarveStep(st, wall, ps[0], RandomSurface(c1), RandomSurface(c2))
    else
      PrimState(st.m, st.frontier - {wall}, st.k)
  }

  /**
   * The carving branch of an iteration, towards the carved vertex p: `wall`
   * gets surface s1 and the wall between gets s2.
   */
  ghost function CarveStep(st: PrimState, wall: Cell, p: Coord, s1: Surface, s2: Surface): (r: PrimState)
    requires st.m.Valid() && st.m.InBounds(Coord(wall.row, wall.col))
    requires st.m.InBounds(Between(Coord(wall.row, wall.col), p))
    ensures r.m.Valid() && r.m.height == st.m.height && r.m.width == st.m.width
  {
    var v := Coord(wall.row, wall.col);
    var mid := Between(v, p);
    var m1 := SetCell(st.m, v, Cell(v.row, v.col, Passage, s1));
    var m2 := SetCell(m1, mid, Cell(mid.row, mid.col, Passage, s2));
    PrimState(m2, (st.frontier - {wall}) + CellsAt(m2, TwoStepNeighbors(m2, v, Wall)), st.k + 2)
  }

  /** Which branch an iteration takes: it carves exactly when one carved vertex lies two cells away. */
  lemma PrimStepCases(st: PrimState, wall: Cell, c1: real, c2: real)
    requires st.m.Valid()
    ensures var v := Coord(wall.row, wall.col);
      var ps := TwoStepNeighbors(st.m, v, Passage);
      if |ps| == 1 && st.m.InBounds(v) && st.m.InBounds(Between(v, ps[0])) then
        PrimStep(st, wall, c1, c2) == CarveStep(st, wall, ps[0], RandomSurface(c1), RandomSurface(c2))
      else
        PrimStep(st, wall, c1, c2) == PrimState(st.m, st.frontier - {wall}, st.k)
  {
  }

  /** The carving branch yields the grid with the two cells carved and the frontier grown by the new walls. */
  lemma CarveStepIs(st: PrimState, wall: Cell, p: Coord, s1: Surface, s2: Surface, m2: Maze, f2: set<Cell>)
    requires st.m.Valid() && st.m.InBounds(Coord(wall.row, wall.col))
    requires st.m.InBounds(Between(Coord(wall.row, wall.col), p))
    requires m2 == SetCell(SetCell(st.m, Coord(wall.row, wall.col), Cell(wall.row, wall.col, Passage, s1)),
      Between(Coord(wall.row, wall.col), p),
      Cell(Between(Coord(wall.row, wall.col), p).row, Between(Coord(wall.row, wall.col), p).col, Passage, s2))
    requires f2 == (st.frontier - {wall}) + CellsAt(m2, TwoStepNeighbors(m2, Coord(wall.row, wall.col), Wall))
    ensures CarveStep(st, wall, p, s1, s2) == PrimState(m2, f2, st.k + 2)
  {
  }

  /**
   * What one iteration does to the grid: with exactly one carved vertex p two
   * cells away, exactly two cells change, `wall` and the cell between it and
   * p, both to passages with the sampled surfaces; the new walls two cells
   * from `wall` join the set and two samples are used. Otherwise the grid
   * and the sample counter stay and `wall` only leaves the set.
   */
  lemma PrimStepEffect(st: PrimState, wall: Cell, c1: real, c2: real)
    requires st.m.Valid()
    ensures var v := Coord(wall.row, wall.col);
      var ps := TwoStepNeighbors(st.m, v, Passage);
      var r := PrimStep(st, wall, c1, c2);
      if |ps| == 1 && st.m.InBounds(v) && st.m.InBounds(Between(v, ps[0])) then
        Between(v, ps[0]) != v && Adjacent(v, Between(v, ps[0])) && Adjacent(Between(v, ps[0]), ps[0]) &&
        r.m.grid[v.row][v.col] == Cell(v.row, v.col, Passage, RandomSurface(c1)) &&
        r.m.grid[Between(v, ps[0]).row][Between(v, ps[0]).col] ==
          Cell(Between(v, ps[0]).row, Between(v, ps[0]).col, Passage, RandomSurface(c2)) &&
        (forall i, j ::
          (0 <= i < st.m.height && 0 <= j < st.m.width && Coord(i, j) != v && Coord(i, j) != Between(v, ps[0])) ==>
          r.m.grid[i][j] == st.m.grid[i][j]) &&
        r.frontier == (st.frontier - {wall}) + CellsAt(r.m, TwoStepNeighbors(r.m, v, Wall)) &&
        r.k == st.k + 2
      else
        r.m == st.m && r.frontier == st.frontier - {wall} && r.k == st.k
  {
    var v := Coord(wall.row, wall.col);
    var ps := TwoStepNeighbors(st.m, v, Passage);
    PrimStepCases(st, wall, c1, c2);
    if |ps| == 1 && st.m.InBounds(v) && st.m.InBounds(Between(v, ps[0])) {
      var p := ps[0];
      var mid := Between(v, p);
      TwoStepNeighborsMember(st.m, v, Passage, p);
      var m1 := SetCell(st.m, v, Cell(v.row, v.col, Passage, RandomSurface(c1)));
      var m2 := SetCell(m1, mid, Cell(mid.row, mid.col, Passage, RandomSurface(c2)));
      var f2 := (st.frontier - {wall}) + CellsAt(m2, TwoStepNeighbors(m2, v, Wall));
      CarveStepIs(st, wall, p, RandomSurface(c1), RandomSurface(c2), m2, f2);
      assert m2.grid[v.row][v.col] == m1.grid[v.row][v.col];
    }
  }

  /** Carving `wall` next to the carved vertex p keeps the invariant and carves one more vertex. */
  lemma CarveStepInv(st: PrimState, height: int, width: int, start: Coord, wall: Cell, p: Coord, s1: Surface, s2: Surface)
    requires PrimInv(st.m, st.frontier, height, width, start) && wall in st.frontier
    requires p in TwoStepNeighbors(st.m, Coord(wall.row, wall.col), Passage)
    requires st.m.InBounds(Coord(wall.row, wall.col)) && st.m.InBounds(Between(Coord(wall.row, wall.col), p))
    ensures PrimInv(CarveStep(st, wall, p, s1, s2).m, CarveStep(st, wall, p, s1, s2).frontier, height, width, start)
    ensures |AllVertices(height, width) - TreeVertices(CarveStep(st, wall, p, s1, s2).m)| <
            |AllVertices(height, width) - TreeVertices(st.m)|
  {
    var v := Coord(wall.row, wall.col);
    var mid := Between(v, p);
    var cv := Cell(v.row, v.col, Passage, s1);
    var cm := Cell(mid.row, mid.col, Passage, s2);
    var m2 := SetCell(SetCell(st.m, v, cv), mid, cm);
    var f2 := (st.frontier - {wall}) + CellsAt(m2, TwoStepNeighbors(m2, v, Wall));
    CarveStepIs(st, wall, p, s1, s2, m2, f2);
    CarveInv(st.m, st.frontier, height, width, start, wall, p, cv, cm, m2, f2);
  }

  /** The carving branch on explicit values: the invariant is kept and one more vertex is carved. */
  lemma CarveInv(m: Maze, frontier: set<Cell>, height: int, width: int, start: Coord, wall: Cell,
                 p: Coord, cv: Cell, cm: Cell, m2: Maze, frontier2: set<Cell>)
    requires PrimInv(m, frontier, height, width, start) && wall in frontier
    requires p in TwoStepNeighbors(m, Coord(wall.row, wall.col), Passage)
    requires cv.row == wall.row && cv.col == wall.col && cv.cellType == Passage
    requires cm.row == Between(Coord(wall.row, wall.col), p).row
    requires cm.col == Between(Coord(wall.row, wall.col), p).col && cm.cellType == Passage
    requires m.InBounds(Between(Coord(wall.row, wall.col), p))
    requires m2 == SetCell(SetCell(m, Coord(wall.row, wall.col), cv), Between(Coord(wall.row, wall.col), p), cm)
    requires frontier2 == (frontier - {wall}) + CellsAt(m2, TwoStepNeighbors(m2, Coord(wall.row, wall.col), Wall))
    ensures PrimInv(m2, frontier2, height, width, start)
    ensures |AllVertices(height, width) - TreeVertices(m2)| < |AllVertices(height, width) - TreeVertices(m)|
  {
    var v := Coord(wall.row, wall.col);
    assert HasType(m, v, Wall) && IsVertexPos(v) && m.grid[wall.row][wall.col] == wall;
    CarveTarget(m, v, p);
    BetweenEdge(v, p);
    CarveTree(m, height, width, start, v, p, cv, cm);
    RemainderShrinks(AllVertices(height, width), TreeVertices(m), TreeVertices(m2), v);
    CarveFrontier(m, frontier, wall, Between(v, p), cv, cm, m2);
  }

  /** After v and mid are carved, the rest of the frontier and v's wall neighbours form a valid frontier. */
  lemma CarveFrontier(m: Maze, frontier: set<Cell>, wall: Cell, mid: Coord, cv: Cell, cm: Cell, m2: Maze)
    requires m.Valid() && FrontierOk(m, frontier) && wall in frontier
    requires m.InBounds(Coord(wall.row, wall.col)) && m.InBounds(mid) && IsEdgePos(mid)
    requires m2 == SetCell(SetCell(m, Coord(wall.row, wall.col), cv), mid, cm)
    requires CellsWellFormed(m2) && TreeVertices(m2) == TreeVertices(m) + {Coord(wall.row, wall.col)}
    ensures FrontierOk(m2, (frontier - {wall}) + CellsAt(m2, TwoStepNeighbors(m2, Coord(wall.row, wall.col), Wall)))
  {
    var v := Coord(wall.row, wall.col);
    var m1 := SetCell(m, v, cv);
    assert forall r, c :: (0 <= r < m.height && 0 <= c < m.width && Coord(r, c) != v && Coord(r, c) != mid) ==>
      m2.grid[r][c] == m1.grid[r][c] == m.grid[r][c];
    FrontierKeep(m, m2, frontier, wall, mid);
    NewFrontier(m2, v);
    FrontierUnion(m2, frontier - {wall}, CellsAt(m2, TwoStepNeighbors(m2, v, Wall)));
  }

  /** Two valid frontiers make a valid frontier together. */
  lemma FrontierUnion(m: Maze, a: set<Cell>, b: set<Cell>)
    requires m.Valid() && FrontierOk(m, a) && FrontierOk(m, b)
    ensures FrontierOk(m, a + b)
  {
  }

  /**
   * An iteration keeps the invariant, and either carves one more vertex or
   * leaves the grid alone and shrinks the frontier: the loop terminates.
   */
  lemma PrimStepInv(st: PrimState, height: int, width: int, start: Coord, wall: Cell, c1: real, c2: real)
    requires PrimInv(st.m, st.frontier, height, width, start) && wall in st.frontier
    ensures PrimInv(PrimStep(st, wall, c1, c2).m, PrimStep(st, wall, c1, c2).frontier, height, width, start)
    ensures |AllVertices(height, width) - TreeVertices(PrimStep(st, wall, c1, c2).m)| <
              |AllVertices(height, width) - TreeVertices(st.m)| ||
            (PrimStep(st, wall, c1, c2).m == st.m && |PrimStep(st, wall, c1, c2).frontier| < |st.frontier|)
  {
    var v := Coord(wall.row, wall.col);
    var ps := TwoStepNeighbors(st.m, v, Passage);
    PrimStepCases(st, wall, c1, c2);
    if |ps| == 1 && st.m.InBounds(v) && st.m.InBounds(Between(v, ps[0])) {
      CarveStepInv(st, height, width, start, wall, ps[0], RandomSurface(c1), RandomSurface(c2));
    }
  }

  /**
   * One iteration of the main loop: takes `wall` out of the frontier and,
   * when exactly one carved vertex lies two cells away, carves `wall` and the
   * wall between, then adds the walls two cells from it to the frontier.
   * `k` counts the surface samples drawn.
   */
  method Visit(grid: array2<Cell>, ghost m: Maze, frontier: set<Cell>, wall: Cell, draw: nat -> real, k: nat)
    returns (ghost m': Maze, frontier': set<Cell>, k': nat)
    requires Mirrors(grid, m) && grid.Length0 >= 1
    requires m.InBounds(Coord(wall.row, wall.col)) && IsVertexPos(Coord(wall.row, wall.col))
    modifies grid
    ensures Mirrors(grid, m')
    ensures PrimState(m', frontier', k') == PrimStep(PrimState(m, frontier, k), wall, draw(k), draw(k + 1))
  {
    ghost var st := PrimState(m, frontier, k);
    PrimStepCases(st, wall, draw(k), draw(k + 1));
    m', frontier', k' := m, frontier - {wall}, k;
    var row := wall.row;
    var col := wall.col;
    var passageNeighbors := GetNeighbors(grid, m, row, col, Passage);
    if |passageNeighbors| == 1 {
      var passageNeighbor := passageNeighbors[0];
      CarveTarget(m, Coord(row, col), passageNeighbor);
      var cv := Cell(row, col, Passage, RandomSurface(draw(k')));
      k' := k' + 1;
      m' := Store(grid, m', Coord(row, col), cv);
      var between := Between(Coord(row, col), passageNeighbor);
      var cm := Cell(between.row, between.col, Passage, RandomSurface(draw(k')));
      k' := k' + 1;
      m' := Store(grid, m', between, cm);
      var walls := GetNeighbors(grid, m', row, col, Wall);
      TwoStepNeighborsInBounds(m', Coord(row, col), Wall);
      frontier' := AddWalls(grid, m', frontier', walls);
      CarveStepIs(st, wall, passageNeighbor, cv.surface, cm.surface, m', frontier');
    }
  }

  /**
   * Generates a maze of the requested size. `rowPick` and `colPick` are the
   * draws that place the start vertex, `draw` the stream of samples that
   * choose the surfaces, and the frontier entry visited next is any entry.
   */
  method Generate(heightP: int, widthP: int, rowPick: int, colPick: int, draw: nat -> real)
    returns (maze: Maze)
    requires OddDimension(heightP) >= 3 && OddDimension(widthP) >= 3
    requires 0 <= rowPick < OddDimension(heightP) / 2 && 0 <= colPick < OddDimension(widthP) / 2
    ensures maze.Valid() && maze.height == OddDimension(heightP) && maze.width == OddDimension(widthP)
    ensures CellsWellFormed(maze) && PillarsStand(maze) && SpanningTree(maze)
    ensures Coord(RandomOdd(OddDimension(heightP), rowPick), RandomOdd(OddDimension(widthP), colPick))
      in TreeVertices(maze)
  {
    var height := heightP;
    var width := widthP;
    if height % 2 == 0 {
      height := height + 1;
    }
    if width % 2 == 0 {
      width := width + 1;
    }

    var grid, m := InitialWalls(height, width);
    var startRow := RandomOdd(height, rowPick);
    var startCol := RandomOdd(width, colPick);
    var k: nat := 0;
    var start := Coord(startRow, startCol);
    var startCell := Cell(startRow, startCol, Passage, RandomSurface(draw(k)));
    k := k + 1;
    StartTree(height, width, start, startCell);
    m := Store(grid, m, start, startCell);

    var coords := GetNeighbors(grid, m, startRow, startCol, Wall);
    TwoStepNeighborsInBounds(m, start, Wall);
    NewFrontier(m, start);
    var wallList := AddWalls(grid, m, {}, coords);

    while wallList != {}
      invariant Mirrors(grid, m) && PrimInv(m, wallList, height, width, start)
      decreases |AllVertices(height, width) - TreeVertices(m)|, |wallList|
    {
      var wall :| wall in wallList;
      assert m.InBounds(Coord(wall.row, wall.col)) && IsVertexPos(Coord(wall.row, wall.col));
      PrimStepInv(PrimState(m, wallList, k), height, width, start, wall, draw(k), draw(k + 1));
      m, wallList, k := Visit(grid, m, wallList, wall, draw, k);
    }
    FreezeMirror(grid, m);
    maze := Maze(height, width, Freeze(grid));
  }
}
