/**
 * The Kruskal-style generator (KruskalMazeGenerator.java): every odd/odd cell
 * is a vertex in a disjoint set of its own, the candidate edges between
 * vertices two cells apart are processed in shuffled order, and an edge's
 * midpoint wall is carved exactly when its endpoints lie in different sets,
 * which are then merged.
 */
module Kruskal {
  import opened Cells
  import opened Mazes

  /** A candidate edge, given by the two vertices it joins. */
  datatype Edge = Edge(cell1: Coord, cell2: Coord)

  /**
   * A candidate edge of a height by width grid: from an in-bounds odd/odd
   * vertex either down to the vertex two rows below or right to the vertex
   * two columns further, that vertex being in bounds too.
   */
  ghost predicate IsCandidate(height: int, width: int, e: Edge) {
    0 <= e.cell1.row < height && 0 <= e.cell1.col < width && IsVertexPos(e.cell1) &&
    ((e.cell2 == Coord(e.cell1.row + 2, e.cell1.col) && e.cell1.row + 2 < height) ||
     (e.cell2 == Coord(e.cell1.row, e.cell1.col + 2) && e.cell1.col + 2 < width))
  }

  /** The edges registered while visiting (row, col): down first, then right. */
  function EdgesAt(height: int, width: int, row: int, col: int): seq<Edge> {
    if row % 2 == 0 || col % 2 == 0 then []
    else
      (if row + 2 < height then [Edge(Coord(row, col), Coord(row + 2, col))] else []) +
      (if col + 2 < width then [Edge(Coord(row, col), Coord(row, col + 2))] else [])
  }

  /** The edges registered in row `row` before column `col`. */
  function RowEdges(height: int, width: int, row: int, col: int): seq<Edge>
    decreases col
  {
    if col <= 0 then [] else RowEdges(height, width, row, col - 1) + EdgesAt(height, width, row, col - 1)
  }

  /** The edges registered in the rows before `row`. */
  function EdgesBefore(height: int, width: int, row: int): seq<Edge>
    decreases row
  {
    if row <= 0 then [] else EdgesBefore(height, width, row - 1) + RowEdges(height, width, row - 1, width)
  }

  /** The edge list of a height by width grid, in the row-major order of its construction. */
  function CandidateEdges(height: int, width: int): seq<Edge> {
    EdgesBefore(height, width, height)
  }

  lemma EdgesAtMember(height: int, width: int, row: int, col: int, e: Edge)
    requires 0 <= row < height && 0 <= col < width
    ensures e in EdgesAt(height, width, row, col) <==> IsCandidate(height, width, e) && e.cell1 == Coord(row, col)
  {
  }

  lemma {:induction false} RowEdgesMember(height: int, width: int, row: int, col: int, e: Edge)
    requires 0 <= row < height && col <= width
    ensures e in RowEdges(height, width, row, col) <==>
      IsCandidate(height, width, e) && e.cell1.row == row && e.cell1.col < col
    decreases col
  {
    if col > 0 {
      var p := col - 1;
      var before, here := RowEdges(height, width, row, p), EdgesAt(height, width, row, p);
      assert RowEdges(height, width, row, col) == before + here;
      assert e in before + here <==> e in before || e in here;
      RowEdgesMember(height, width, row, p, e);
      EdgesAtMember(height, width, row, p, e);
    }
  }

  lemma {:induction false} EdgesBeforeMember(height: int, width: int, row: int, e: Edge)
    requires row <= height
    ensures e in EdgesBefore(height, width, row) <==> IsCandidate(height, width, e) && e.cell1.row < row
    decreases row
  {
    if row > 0 {
      var p := row - 1;
      var before, here := EdgesBefore(height, width, p), RowEdges(height, width, p, width);
      assert EdgesBefore(height, width, row) == before + here;
      assert e in before + here <==> e in before || e in here;
      EdgesBeforeMember(height, width, p, e);
      if 0 <= p {
        RowEdgesMember(height, width, p, width, e);
      }
    }
  }

  /** The edge list holds exactly the candidate edges: the right-hand side is the full set. */
  lemma CandidateEdgesMember(height: int, width: int, e: Edge)
    ensures e in CandidateEdges(height, width) <==> IsCandidate(height, width, e)
  {
    EdgesBeforeMember(height, width, height, e);
  }

  /** `order` lists every index below n exactly once. */
  predicate IsPermutation(order: seq<nat>, n: int) {
    |order| == n && (forall j :: 0 <= j < |order| ==> order[j] < n) &&
    (forall v :: 0 <= v < n ==> v in order)
  }

  /** The edge list reordered by a permutation of its indices; models the shuffle. */
  function Shuffle(edges: seq<Edge>, order: seq<nat>): (r: seq<Edge>)
    requires IsPermutation(order, |edges|)
    ensures |r| == |edges| && forall j :: 0 <= j < |r| ==> r[j] == edges[order[j]]
    ensures forall e :: e in edges ==> e in r
  {
    var r := seq(|order|, (j: int) requires 0 <= j < |order| => edges[order[j]]);
    ShuffleCovers(edges, order, r);
    r
  }

  lemma ShuffleCovers(edges: seq<Edge>, order: seq<nat>, r: seq<Edge>)
    requires IsPermutation(order, |edges|)
    requires |r| == |edges| && forall j :: 0 <= j < |r| ==> r[j] == edges[order[j]]
    ensures forall e :: e in edges ==> e in r
  {
    forall e | e in edges ensures e in r {
      var v :| 0 <= v < |edges| && edges[v] == e;
      assert v in order;
      var j :| 0 <= j < |order| && order[j] == v;
      assert r[j] == e;
    }
  }

  // ---------------------------------------------------------------------
  // The disjoint sets.

  /** `sets` maps every vertex of V to its block, and the blocks partition V. */
  ghost predicate Partition(sets: map<Coord, set<Coord>>, V: set<Coord>) {
    sets.Keys == V &&
    (forall x :: x in sets ==> x in sets[x] && sets[x] <= V) &&
    (forall x, y :: x in sets && y in sets[x] ==> y in sets && sets[y] == sets[x])
  }

  /** The distinct blocks. */
  ghost function Classes(sets: map<Coord, set<Coord>>): set<set<Coord>> {
    set x | x in sets :: sets[x]
  }

  /** Every member of `merged` now shares the one merged block. */
  function MergeSets(sets: map<Coord, set<Coord>>, merged: set<Coord>): (r: map<Coord, set<Coord>>)
    ensures r.Keys == sets.Keys
    ensures forall x :: x in r ==> r[x] == if x in merged then merged else sets[x]
  {
    map x | x in sets :: if x in merged then merged else sets[x]
  }

  /** What the union loop keeps true of the grid: every vertex carved, every carved edge between two. */
  ghost predicate GridInv(m: Maze, height: int, width: int) {
    m.Valid() && m.height == height && m.width == width &&
    CellsWellFormed(m) && PillarsStand(m) &&
    TreeVertices(m) == AllVertices(height, width) &&
    EdgesJoinVertices(m)
  }

  /** What the union loop keeps true of the sets, relative to the grid. */
  ghost predicate SetsInv(m: Maze, sets: map<Coord, set<Coord>>, height: int, width: int) {
    Partition(sets, AllVertices(height, width)) &&
    (forall e :: e in CarvedEdges(m) ==>
      EndA(e) in sets && EndB(e) in sets && sets[EndA(e)] == sets[EndB(e)]) &&
    |CarvedEdges(m)| + |Classes(sets)| == |AllVertices(height, width)| &&
    (forall x, y :: x in sets && y in sets[x] ==> Connected(m, x, y))
  }

  ghost predicate UnionInv(m: Maze, sets: map<Coord, set<Coord>>, height: int, width: int) {
    GridInv(m, height, width) && SetsInv(m, sets, height, width)
  }

  /** What the first loop leaves in each cell. */
  ghost predicate InitialCell(cell: Cell, r: int, c: int) {
    cell.row == r && cell.col == c &&
    (cell.cellType == Wall <==> (r % 2 == 0 || c % 2 == 0)) &&
    (cell.cellType == Wall ==> cell.surface == Normal)
  }

  lemma {:induction false} SingletonClasses(sets: map<Coord, set<Coord>>)
    requires forall x :: x in sets ==> sets[x] == {x}
    ensures |Classes(sets)| == |sets.Keys|
    decreases |sets.Keys|
  {
    if sets.Keys != {} {
      var x :| x in sets.Keys;
      var rest := map y | y in sets && y != x :: sets[y];
      assert rest.Keys == sets.Keys - {x};
      SingletonClasses(rest);
      assert Classes(sets) == Classes(rest) + {{x}} by {
        forall s | s in Classes(sets) ensures s in Classes(rest) + {{x}} {
          var y :| y in sets && sets[y] == s;
          if y != x { assert rest[y] == s; }
        }
        forall s | s in Classes(rest) ensures s in Classes(sets) {
          var y :| y in rest && rest[y] == s;
          assert sets[y] == s;
        }
        assert sets[x] == {x};
      }
      assert {x} !in Classes(rest) by {
        forall y | y in rest ensures rest[y] != {x} {
          assert y in rest[y] && x !in rest[y];
        }
      }
    } else {
      assert Classes(sets) == {};
    }
  }

  /** The state after the first loop satisfies the union invariant. */
  lemma InitialUnionInv(m: Maze, sets: map<Coord, set<Coord>>, height: int, width: int)
    requires InitialState(m, sets, height, width)
    ensures UnionInv(m, sets, height, width)
    ensures CarvedEdges(m) == {}
  {
    var V := AllVertices(height, width);
    forall x ensures x in TreeVertices(m) <==> x in V {
      TreeVerticesMember(m, x);
      AllVerticesMember(height, width, x);
    }
    forall x ensures x !in CarvedEdges(m) {
      CarvedEdgesMember(m, x);
    }
    forall x ensures x in sets <==> x in V {
      AllVerticesMember(height, width, x);
    }
    assert sets.Keys == V;
    SingletonClasses(sets);
    forall x, y | x in sets && y in sets[x] ensures Connected(m, x, y) {
      assert y == x;
      ConnectedRefl(m, x);
    }
  }

  /** A block that does not meet u's or v's block lies outside their union. */
  lemma OutsideMerged(sets: map<Coord, set<Coord>>, V: set<Coord>, u: Coord, v: Coord, x: Coord)
    requires Partition(sets, V) && u in sets && v in sets && x in sets && x !in sets[u] + sets[v]
    ensures forall y :: y in sets[x] ==> y !in sets[u] + sets[v]
  {
    forall y | y in sets[x] ensures y !in sets[u] + sets[v] {
      assert sets[y] == sets[x] && x in sets[x];
    }
  }

  /** Merging two blocks keeps a partition. */
  lemma MergePartition(sets: map<Coord, set<Coord>>, V: set<Coord>, u: Coord, v: Coord)
    requires Partition(sets, V) && u in sets && v in sets
    ensures Partition(MergeSets(sets, sets[u] + sets[v]), V)
  {
    var S := sets[u] + sets[v];
    var s' := MergeSets(sets, S);
    forall x, y | x in s' && y in s'[x] ensures y in s' && s'[y] == s'[x] {
      if x !in S {
        OutsideMerged(sets, V, u, v, x);
      } else {
        assert y in S;
      }
    }
  }

  /** Merging two blocks keeps every joined pair joined, and joins u and v. */
  lemma MergeKeepsJoined(sets: map<Coord, set<Coord>>, V: set<Coord>, u: Coord, v: Coord)
    requires Partition(sets, V) && u in sets && v in sets
    ensures forall a, b :: a in sets && b in sets && sets[a] == sets[b] ==>
      MergeSets(sets, sets[u] + sets[v])[a] == MergeSets(sets, sets[u] + sets[v])[b]
    ensures MergeSets(sets, sets[u] + sets[v])[u] == sets[u] + sets[v]
    ensures MergeSets(sets, sets[u] + sets[v])[v] == sets[u] + sets[v]
  {
    var s' := MergeSets(sets, sets[u] + sets[v]);
    assert u in sets[u] && v in sets[v];
    forall a, b | a in sets && b in sets && sets[a] == sets[b] ensures s'[a] == s'[b] {
      if a in sets[u] { assert sets[a] == sets[u]; assert b in sets[b]; }
      if a in sets[v] { assert sets[a] == sets[v]; assert b in sets[b]; }
      if b in sets[u] { assert sets[b] == sets[u]; assert a in sets[a]; }
      if b in sets[v] { assert sets[b] == sets[v]; assert a in sets[a]; }
    }
  }

  /** Merging the blocks of u and v replaces those two blocks by their union. */
  lemma MergedClasses(sets: map<Coord, set<Coord>>, V: set<Coord>, u: Coord, v: Coord)
    requires Partition(sets, V) && u in sets && v in sets && sets[u] != sets[v]
    ensures Classes(MergeSets(sets, sets[u] + sets[v])) == (Classes(sets) - {sets[u], sets[v]}) + {sets[u] + sets[v]}
  {
    var s1, s2 := sets[u], sets[v];
    var S := s1 + s2;
    var s' := MergeSets(sets, S);
    var rest := Classes(sets) - {s1, s2};
    forall t | t in Classes(s') ensures t in rest + {S} {
      var x :| x in s' && s'[x] == t;
      if x !in S {
        assert t == sets[x];
        assert t != s1 && t != s2 by { assert x in sets[x]; }
      }
    }
    forall t | t in rest + {S} ensures t in Classes(s') {
      if t == S {
        assert s'[u] == S;
      } else {
        var x :| x in sets && sets[x] == t;
        assert x !in S by {
          assert x in sets[x];
        }
        assert s'[x] == t;
      }
    }
  }

  /** The union of the blocks of u and v is none of the other blocks. */
  lemma MergedIsNew(sets: map<Coord, set<Coord>>, V: set<Coord>, u: Coord, v: Coord)
    requires Partition(sets, V) && u in sets && v in sets && sets[u] != sets[v]
    ensures sets[u] + sets[v] !in Classes(sets) - {sets[u], sets[v]}
  {
    forall x | x in sets && sets[x] != sets[u] && sets[x] != sets[v] ensures sets[x] != sets[u] + sets[v] {
      assert u in sets[u] && u in sets[u];
    }
  }

  /** Merging two different blocks leaves one block fewer. */
  lemma MergeClasses(sets: map<Coord, set<Coord>>, V: set<Coord>, u: Coord, v: Coord)
    requires Partition(sets, V) && u in sets && v in sets && sets[u] != sets[v]
    ensures |Classes(MergeSets(sets, sets[u] + sets[v]))| == |Classes(sets)| - 1
  {
    var s1, s2 := sets[u], sets[v];
    MergedClasses(sets, V, u, v);
    MergedIsNew(sets, V, u, v);
    assert s1 in Classes(sets) && s2 in Classes(sets);
    assert |Classes(sets) - {s1}| == |Classes(sets)| - 1;
    assert Classes(sets) - {s1, s2} == (Classes(sets) - {s1}) - {s2};
  }

  /** Every pair in the merged block is connected once the wall at `mid` between u and v is carved. */
  lemma MergeConnected(m: Maze, m': Maze, sets: map<Coord, set<Coord>>, u: Coord, v: Coord, mid: Coord)
    requires forall x, y :: x in sets && y in sets[x] ==> Connected(m, x, y)
    requires u in sets && v in sets && PassagesGrow(m, m')
    requires m.Enterable(u) && m.Enterable(v) && m'.Enterable(mid) && Adjacent(u, mid) && Adjacent(mid, v)
    ensures forall x, y :: x in sets[u] + sets[v] && y in sets[u] + sets[v] ==> Connected(m', x, y)
  {
    var S := sets[u] + sets[v];
    assert m'.Enterable(u) && m'.Enterable(v);
    forall a | a in S ensures Connected(m', a, u) {
      if a in sets[u] {
        ConnectedMono(m, m', u, a);
        ConnectedSym(m', u, a);
      } else {
        ConnectedMono(m, m', v, a);
        ConnectedSym(m', v, a);
        ConnectedStep(m', a, v, mid);
        ConnectedStep(m', a, mid, u);
      }
    }
    forall x, y | x in S && y in S ensures Connected(m', x, y) {
      ConnectedSym(m', y, u);
      ConnectedTrans(m', x, u, y);
    }
  }

  /** Carving the wall between two carved vertices keeps the grid invariant and adds one edge. */
  lemma CarveEdge(m: Maze, height: int, width: int, mid: Coord, cell: Cell)
    requires GridInv(m, height, width) && m.InBounds(mid) && IsEdgePos(mid)
    requires EndA(mid) in AllVertices(height, width) && EndB(mid) in AllVertices(height, width)
    requires !m.Enterable(mid)
    requires cell.row == mid.row && cell.col == mid.col && cell.cellType == Passage
    ensures GridInv(SetCell(m, mid, cell), height, width)
    ensures CarvedEdges(SetCell(m, mid, cell)) == CarvedEdges(m) + {mid}
    ensures |CarvedEdges(SetCell(m, mid, cell))| == |CarvedEdges(m)| + 1
    ensures PassagesGrow(m, SetCell(m, mid, cell))
  {
    var m' := SetCell(m, mid, cell);
    CarveOne(m, mid, cell);
    assert CellsWellFormed(m');
    assert PillarsStand(m');
  }

  /** Merging the blocks of u and v, once the edge `mid` between them is carved, keeps the sets invariant. */
  lemma MergeStep(m: Maze, m': Maze, sets: map<Coord, set<Coord>>, height: int, width: int, mid: Coord)
    requires SetsInv(m, sets, height, width) && PassagesGrow(m, m')
    requires EndA(mid) in sets && EndB(mid) in sets && sets[EndA(mid)] != sets[EndB(mid)]
    requires m.Enterable(EndA(mid)) && m.Enterable(EndB(mid)) && m'.Enterable(mid)
    requires Adjacent(EndA(mid), mid) && Adjacent(mid, EndB(mid))
    requires CarvedEdges(m') == CarvedEdges(m) + {mid}
    requires |CarvedEdges(m')| == |CarvedEdges(m)| + 1
    ensures SetsInv(m', MergeSets(sets, sets[EndA(mid)] + sets[EndB(mid)]), height, width)
  {
    var V := AllVertices(height, width);
    var u, v := EndA(mid), EndB(mid);
    MergePartition(sets, V, u, v);
    MergeClasses(sets, V, u, v);
    MergeKeepsJoined(sets, V, u, v);
    MergedConnected(m, m', sets, V, u, v, mid);
    MergedCarvedTogether(m, m', sets, V, u, v, mid);
  }

  /** After the merge, every block is connected in the carved grid. */
  lemma MergedConnected(m: Maze, m': Maze, sets: map<Coord, set<Coord>>, V: set<Coord>, u: Coord, v: Coord, mid: Coord)
    requires Partition(sets, V) && (forall x, y :: x in sets && y in sets[x] ==> Connected(m, x, y))
    requires u in sets && v in sets && PassagesGrow(m, m')
    requires m.Enterable(u) && m.Enterable(v) && m'.Enterable(mid) && Adjacent(u, mid) && Adjacent(mid, v)
    ensures forall x, y :: x in MergeSets(sets, sets[u] + sets[v]) && y in MergeSets(sets, sets[u] + sets[v])[x] ==>
      Connected(m', x, y)
  {
    var S := sets[u] + sets[v];
    var s' := MergeSets(sets, S);
    MergeConnected(m, m', sets, u, v, mid);
    forall x, y | x in s' && y in s'[x] ensures Connected(m', x, y) {
      if x !in S {
        ConnectedMono(m, m', x, y);
      }
    }
  }

  /** After the merge, every carved edge, old or new, joins two vertices of one block. */
  lemma MergedCarvedTogether(m: Maze, m': Maze, sets: map<Coord, set<Coord>>, V: set<Coord>, u: Coord, v: Coord, mid: Coord)
    requires u == EndA(mid) && v == EndB(mid) && u in sets && v in sets
    requires forall e :: e in CarvedEdges(m) ==> EndA(e) in sets && EndB(e) in sets && sets[EndA(e)] == sets[EndB(e)]
    requires forall a, b :: a in sets && b in sets && sets[a] == sets[b] ==>
      MergeSets(sets, sets[u] + sets[v])[a] == MergeSets(sets, sets[u] + sets[v])[b]
    requires MergeSets(sets, sets[u] + sets[v])[u] == MergeSets(sets, sets[u] + sets[v])[v]
    requires CarvedEdges(m') == CarvedEdges(m) + {mid}
    ensures forall e :: e in CarvedEdges(m') ==>
      EndA(e) in MergeSets(sets, sets[u] + sets[v]) && EndB(e) in MergeSets(sets, sets[u] + sets[v]) &&
      MergeSets(sets, sets[u] + sets[v])[EndA(e)] == MergeSets(sets, sets[u] + sets[v])[EndB(e)]
  {
    forall c | c in CarvedEdges(m') ensures EndA(c) in MergeSets(sets, sets[u] + sets[v]) &&
      EndB(c) in MergeSets(sets, sets[u] + sets[v]) &&
      MergeSets(sets, sets[u] + sets[v])[EndA(c)] == MergeSets(sets, sets[u] + sets[v])[EndB(c)] {
      if c != mid {
        assert c in CarvedEdges(m);
      }
    }
  }

  /** The midpoint of a candidate edge: an in-bounds edge position lying between its two vertices. */
  lemma CandidateMidpoint(height: int, width: int, e: Edge)
    requires IsCandidate(height, width, e)
    ensures var mid := Coord((e.cell1.row + e.cell2.row) / 2, (e.cell1.col + e.cell2.col) / 2);
      0 <= mid.row < height && 0 <= mid.col < width && IsEdgePos(mid) &&
      EndA(mid) == e.cell1 && EndB(mid) == e.cell2 &&
      Adjacent(e.cell1, mid) && Adjacent(mid, e.cell2)
  {
    var r, c := e.cell1.row, e.cell1.col;
    if e.cell2 == Coord(r + 2, c) {
      assert (r + r + 2) / 2 == r + 1 && (c + c) / 2 == c;
    } else {
      assert (r + r) / 2 == r && (c + c + 2) / 2 == c + 1;
    }
  }

  /** One carving step of the union loop keeps its invariant. */
  lemma CarveAndMerge(m: Maze, sets: map<Coord, set<Coord>>, height: int, width: int, e: Edge, cell: Cell)
    requires UnionInv(m, sets, height, width) && IsCandidate(height, width, e)
    requires e.cell1 in sets && e.cell2 in sets && sets[e.cell1] != sets[e.cell2]
    requires cell.row == (e.cell1.row + e.cell2.row) / 2 && cell.col == (e.cell1.col + e.cell2.col) / 2
    requires cell.cellType == Passage
    ensures UnionInv(SetCell(m, Coord(cell.row, cell.col), cell),
                     MergeSets(sets, sets[e.cell1] + sets[e.cell2]), height, width)
  {
    var V := AllVertices(height, width);
    var u, v := e.cell1, e.cell2;
    var mid := Coord(cell.row, cell.col);
    AllVerticesMember(height, width, u);
    AllVerticesMember(height, width, v);
    CandidateMidpoint(height, width, e);
    assert !m.Enterable(mid) by {
      CarvedEdgesMember(m, mid);
    }
    CarveEdge(m, height, width, mid, cell);
    TreeVerticesMember(m, u);
    TreeVerticesMember(m, v);
    MergeStep(m, SetCell(m, mid, cell), sets, height, width, mid);
  }

  /** The endpoints of a candidate edge are vertices, so both have a set. */
  lemma CandidateEnds(sets: map<Coord, set<Coord>>, height: int, width: int, e: Edge)
    requires Partition(sets, AllVertices(height, width)) && IsCandidate(height, width, e)
    ensures e.cell1 in sets && e.cell2 in sets
  {
    AllVerticesMember(height, width, e.cell1);
    AllVerticesMember(height, width, e.cell2);
  }

  /** Every edge before index i has its two endpoints in one set. */
  ghost predicate Together(sets: map<Coord, set<Coord>>, edges: seq<Edge>, i: int)
    requires 0 <= i <= |edges|
  {
    forall j :: 0 <= j < i ==>
      edges[j].cell1 in sets && edges[j].cell2 in sets && sets[edges[j].cell1] == sets[edges[j].cell2]
  }

  lemma TogetherExtend(sets: map<Coord, set<Coord>>, edges: seq<Edge>, i: int)
    requires 0 <= i < |edges| && Together(sets, edges, i)
    requires edges[i].cell1 in sets && edges[i].cell2 in sets && sets[edges[i].cell1] == sets[edges[i].cell2]
    ensures Together(sets, edges, i + 1)
  {
  }

  /** A merge that keeps joined pairs joined keeps the earlier edges together. */
  lemma TogetherMerge(sets: map<Coord, set<Coord>>, s': map<Coord, set<Coord>>, edges: seq<Edge>, i: int)
    requires 0 <= i < |edges| && Together(sets, edges, i) && s'.Keys == sets.Keys
    requires forall a, b :: a in sets && b in sets && sets[a] == sets[b] ==> s'[a] == s'[b]
    requires edges[i].cell1 in s' && edges[i].cell2 in s' && s'[edges[i].cell1] == s'[edges[i].cell2]
    ensures Together(s', edges, i + 1)
  {
    forall j | 0 <= j < i + 1
      ensures edges[j].cell1 in s' && edges[j].cell2 in s' && s'[edges[j].cell1] == s'[edges[j].cell2]
    {
      if j < i {
        assert sets[edges[j].cell1] == sets[edges[j].cell2];
      }
    }
  }

  /** After the loop every candidate edge has its endpoints together, whatever the shuffle. */
  lemma EveryCandidateTogether(sets: map<Coord, set<Coord>>, height: int, width: int,
                               order: seq<nat>, unshuffled: seq<Edge>, edges: seq<Edge>)
    requires unshuffled == CandidateEdges(height, width)
    requires IsPermutation(order, |unshuffled|) && edges == Shuffle(unshuffled, order)
    requires Together(sets, edges, |edges|)
    ensures forall e :: IsCandidate(height, width, e) ==>
      e.cell1 in sets && e.cell2 in sets && sets[e.cell1] == sets[e.cell2]
  {
    forall e | IsCandidate(height, width, e)
      ensures e.cell1 in sets && e.cell2 in sets && sets[e.cell1] == sets[e.cell2]
    {
      CandidateEdgesMember(height, width, e);
      assert e in unshuffled;
      var j :| 0 <= j < |edges| && edges[j] == e;
    }
  }

  /** The invariant of the union loop after the first i edges. */
  ghost predicate JoinInv(m: Maze, sets: map<Coord, set<Coord>>, height: int, width: int, edges: seq<Edge>, i: int) {
    0 <= i <= |edges| && UnionInv(m, sets, height, width) && Together(sets, edges, i)
  }

  /**
   * One iteration of the union loop over edges[i]: when the endpoints are
   * apart, carving `carved` and merging their sets keeps the invariant, and
   * every edge up to and including edges[i] then has its endpoints together.
   */
  lemma UnionStep(m: Maze, sets: map<Coord, set<Coord>>, height: int, width: int,
                  edges: seq<Edge>, i: nat, carved: Cell)
    requires JoinInv(m, sets, height, width, edges, i)
    requires i < |edges| && IsCandidate(height, width, edges[i])
    requires edges[i].cell1 in sets && edges[i].cell2 in sets && sets[edges[i].cell1] != sets[edges[i].cell2]
    requires carved.row == (edges[i].cell1.row + edges[i].cell2.row) / 2
    requires carved.col == (edges[i].cell1.col + edges[i].cell2.col) / 2
    requires carved.cellType == Passage
    ensures m.Valid() && m.InBounds(Coord(carved.row, carved.col))
    ensures JoinInv(SetCell(m, Coord(carved.row, carved.col), carved),
                    MergeSets(sets, sets[edges[i].cell1] + sets[edges[i].cell2]), height, width, edges, i + 1)
  {
    CandidateMidpoint(height, width, edges[i]);
    CarveAndMerge(m, sets, height, width, edges[i], carved);
    TogetherStep(sets, AllVertices(height, width), edges, i);
  }

  /** Merging the blocks of the endpoints of edge i keeps the earlier edges together and adds edge i. */
  lemma TogetherStep(sets: map<Coord, set<Coord>>, V: set<Coord>, edges: seq<Edge>, i: nat)
    requires Partition(sets, V) && i < |edges| && Together(sets, edges, i)
    requires edges[i].cell1 in sets && edges[i].cell2 in sets && sets[edges[i].cell1] != sets[edges[i].cell2]
    ensures Together(MergeSets(sets, sets[edges[i].cell1] + sets[edges[i].cell2]), edges, i + 1)
  {
    MergeKeepsJoined(sets, V, edges[i].cell1, edges[i].cell2);
    TogetherMerge(sets, MergeSets(sets, sets[edges[i].cell1] + sets[edges[i].cell2]), edges, i);
  }

  /** An edge whose endpoints are already together changes nothing. */
  lemma UnionSkip(m: Maze, sets: map<Coord, set<Coord>>, height: int, width: int, edges: seq<Edge>, i: nat)
    requires JoinInv(m, sets, height, width, edges, i) && i < |edges|
    requires edges[i].cell1 in sets && edges[i].cell2 in sets && sets[edges[i].cell1] == sets[edges[i].cell2]
    ensures Connected(m, edges[i].cell1, edges[i].cell2)
    ensures JoinInv(m, sets, height, width, edges, i + 1)
  {
    SetsAreComponents(m, sets, height, width, edges[i].cell1, edges[i].cell2);
    TogetherExtend(sets, edges, i);
  }

  // ---------------------------------------------------------------------
  // The sets are exactly the connected components of the carved cells.

  /** Cell c lies in block B: a vertex of B, or an edge position whose two ends are in B. */
  ghost predicate InBlock(sets: map<Coord, set<Coord>>, c: Coord, B: set<Coord>) {
    (IsVertexPos(c) && c in sets && sets[c] == B) ||
    (IsEdgePos(c) && EndA(c) in sets && EndB(c) in sets && sets[EndA(c)] == B && sets[EndB(c)] == B)
  }

  /** Next to a vertex lie only edge positions it ends; next to an edge position, its two ends or pillars. */
  lemma AdjacentParity(a: Coord, b: Coord)
    requires Adjacent(a, b)
    ensures IsVertexPos(a) ==> IsEdgePos(b) && (a == EndA(b) || a == EndB(b))
    ensures IsEdgePos(a) ==> IsPillarPos(b) || (IsVertexPos(b) && (b == EndA(a) || b == EndB(a)))
  {
  }

  /**
   * A step between two passage cells stays in one block: a carved edge
   * position has both ends in one set, and pillars are walls.
   */
  lemma BlockStep(m: Maze, sets: map<Coord, set<Coord>>, a: Coord, b: Coord, B: set<Coord>)
    requires m.Valid() && PillarsStand(m)
    requires forall e :: e in CarvedEdges(m) ==> EndA(e) in sets && EndB(e) in sets && sets[EndA(e)] == sets[EndB(e)]
    requires m.Enterable(a) && m.Enterable(b) && Adjacent(a, b) && InBlock(sets, a, B)
    ensures InBlock(sets, b, B)
  {
    AdjacentParity(a, b);
    if IsVertexPos(a) {
      CarvedEdgesMember(m, b);
    } else {
      assert !IsPillarPos(b);
    }
  }

  /** Every cell a walk from a vertex reaches lies in that vertex's block. */
  lemma {:induction false} WalkInBlock(m: Maze, sets: map<Coord, set<Coord>>, height: int, width: int,
                                       p: seq<Coord>, x: Coord, y: Coord)
    requires UnionInv(m, sets, height, width) && x in sets && IsWalk(m, p, x, y)
    ensures InBlock(sets, y, sets[x])
    decreases |p|
  {
    if |p| == 1 {
      AllVerticesMember(height, width, x);
    } else {
      var q := p[..|p| - 1];
      var z := q[|q| - 1];
      assert IsWalk(m, q, x, z);
      WalkInBlock(m, sets, height, width, q, x, z);
      BlockStep(m, sets, z, y, sets[x]);
    }
  }

  /** Vertices joined by carved passages share a set. */
  lemma ConnectedSameSet(m: Maze, sets: map<Coord, set<Coord>>, height: int, width: int, x: Coord, y: Coord)
    requires UnionInv(m, sets, height, width) && x in sets && y in sets
    ensures Connected(m, x, y) ==> sets[x] == sets[y]
  {
    if Connected(m, x, y) {
      var p :| IsWalk(m, p, x, y);
      WalkInBlock(m, sets, height, width, p, x, y);
      AllVerticesMember(height, width, y);
    }
  }

  /** An edge whose ends lie in different sets joins two vertices no carved passage connects. */
  lemma EdgeEndsApart(m: Maze, sets: map<Coord, set<Coord>>, height: int, width: int, e: Edge)
    requires UnionInv(m, sets, height, width)
    requires e.cell1 in sets && e.cell2 in sets && sets[e.cell1] != sets[e.cell2]
    ensures !Connected(m, e.cell1, e.cell2)
  {
    ConnectedSameSet(m, sets, height, width, e.cell1, e.cell2);
  }

  /** Under the union invariant two vertices share a set exactly when carved passages connect them. */
  lemma SetsAreComponents(m: Maze, sets: map<Coord, set<Coord>>, height: int, width: int, x: Coord, y: Coord)
    requires UnionInv(m, sets, height, width) && x in sets && y in sets
    ensures sets[x] == sets[y] <==> Connected(m, x, y)
  {
    ConnectedSameSet(m, sets, height, width, x, y);
    assert y in sets[y];
  }

  // ---------------------------------------------------------------------
  // The union loop as a function of the shuffled edges.

  /** What the union loop carries: the grid's value, the sets and the number of samples drawn. */
  datatype JoinState = JoinState(m: Maze, sets: map<Coord, set<Coord>>, k: nat)

  /** The wall cell between the two vertices of an edge. */
  function Midpoint(e: Edge): Coord {
    Coord((e.cell1.row + e.cell2.row) / 2, (e.cell1.col + e.cell2.col) / 2)
  }

  /**
   * One iteration over edge e: when its endpoints have different sets, the
   * midpoint becomes a passage with the next drawn surface and the two sets
   * are merged; otherwise nothing changes. The loop only meets edges whose
   * endpoints have sets and whose midpoint lies in the grid.
   */
  function JoinStep(st: JoinState, e: Edge, draw: nat -> real): (r: JoinState)
    ensures r.sets.Keys == st.sets.Keys
    ensures r.m.height == st.m.height && r.m.width == st.m.width
    ensures st.m.Valid() ==> r.m.Valid()
    ensures r.k == st.k || r.k == st.k + 1
  {
    if e.cell1 in st.sets && e.cell2 in st.sets && st.sets[e.cell1] != st.sets[e.cell2] &&
       st.m.Valid() && st.m.InBounds(Midpoint(e))
    then
      var mid := Midpoint(e);
      JoinState(SetCell(st.m, mid, Cell(mid.row, mid.col, Passage, RandomSurface(draw(st.k)))),
                MergeSets(st.sets, st.sets[e.cell1] + st.sets[e.cell2]), st.k + 1)
    else st
  }

  /** The state after the first i edges. */
  function JoinPrefix(st: JoinState, edges: seq<Edge>, i: nat, draw: nat -> real): (r: JoinState)
    requires i <= |edges|
    ensures r.sets.Keys == st.sets.Keys
    ensures r.m.height == st.m.height && r.m.width == st.m.width
    ensures st.m.Valid() ==> r.m.Valid()
    ensures r.k >= st.k
    decreases i
  {
    if i == 0 then st else JoinStep(JoinPrefix(st, edges, i - 1, draw), edges[i - 1], draw)
  }

  /** One iteration of the union loop keeps its invariant. */
  lemma JoinStepInv(prev: JoinState, height: int, width: int, edges: seq<Edge>, i: nat, draw: nat -> real)
    requires JoinInv(prev.m, prev.sets, height, width, edges, i) && i < |edges|
    requires IsCandidate(height, width, edges[i])
    ensures JoinInv(JoinStep(prev, edges[i], draw).m, JoinStep(prev, edges[i], draw).sets, height, width, edges, i + 1)
  {
    var e := edges[i];
    CandidateEnds(prev.sets, height, width, e);
    CandidateMidpoint(height, width, e);
    var mid := Midpoint(e);
    if prev.sets[e.cell1] != prev.sets[e.cell2] {
      var carved := Cell(mid.row, mid.col, Passage, RandomSurface(draw(prev.k)));
      UnionStep(prev.m, prev.sets, height, width, edges, i, carved);
    } else {
      UnionSkip(prev.m, prev.sets, height, width, edges, i);
    }
  }

  /** The union loop keeps its invariant over every prefix of the edges, whatever the shuffle and the draws. */
  lemma {:induction false} JoinPrefixInv(st: JoinState, height: int, width: int, edges: seq<Edge>,
                                         i: nat, draw: nat -> real)
    requires Prepared(st.m, st.sets, height, width, edges) && i <= |edges|
    ensures JoinInv(JoinPrefix(st, edges, i, draw).m, JoinPrefix(st, edges, i, draw).sets, height, width, edges, i)
    decreases i
  {
    if i > 0 {
      var p: nat := i - 1;
      JoinPrefixInv(st, height, width, edges, p, draw);
      JoinStepInv(JoinPrefix(st, edges, p, draw), height, width, edges, p, draw);
    }
  }

  /** Once every candidate edge joins two vertices of one block, the grid is a spanning tree. */
  lemma {:induction false} LatticeTogether(sets: map<Coord, set<Coord>>, height: int, width: int, x: Coord)
    requires sets.Keys == AllVertices(height, width)
    requires forall e :: IsCandidate(height, width, e) ==>
      e.cell1 in sets && e.cell2 in sets && sets[e.cell1] == sets[e.cell2]
    requires x in AllVertices(height, width)
    ensures Coord(1, 1) in sets && sets[x] == sets[Coord(1, 1)]
    decreases x.row + x.col
  {
    AllVerticesMember(height, width, x);
    AllVerticesMember(height, width, Coord(1, 1));
    if x.row > 1 {
      var y := Coord(x.row - 2, x.col);
      AllVerticesMember(height, width, y);
      assert IsCandidate(height, width, Edge(y, x));
      LatticeTogether(sets, height, width, y);
    } else if x.col > 1 {
      var y := Coord(x.row, x.col - 2);
      AllVerticesMember(height, width, y);
      assert IsCandidate(height, width, Edge(y, x));
      LatticeTogether(sets, height, width, y);
    } else {
      assert x == Coord(1, 1);
    }
  }

  /** Once every candidate edge joins two vertices of one block, there is a single block. */
  lemma OneClass(sets: map<Coord, set<Coord>>, height: int, width: int)
    requires sets.Keys == AllVertices(height, width) && AllVertices(height, width) != {}
    requires forall e :: IsCandidate(height, width, e) ==>
      e.cell1 in sets && e.cell2 in sets && sets[e.cell1] == sets[e.cell2]
    ensures Coord(1, 1) in sets
    ensures forall x :: x in sets ==> sets[x] == sets[Coord(1, 1)]
    ensures Classes(sets) == {sets[Coord(1, 1)]}
  {
    var x0 :| x0 in AllVertices(height, width);
    LatticeTogether(sets, height, width, x0);
    forall x | x in sets ensures sets[x] == sets[Coord(1, 1)] {
      LatticeTogether(sets, height, width, x);
    }
  }

  /** The union invariant with a single block is a spanning tree. */
  lemma UnionDone(m: Maze, sets: map<Coord, set<Coord>>, height: int, width: int)
    requires UnionInv(m, sets, height, width)
    requires forall e :: IsCandidate(height, width, e) ==>
      e.cell1 in sets && e.cell2 in sets && sets[e.cell1] == sets[e.cell2]
    ensures SpanningTree(m)
  {
    if AllVertices(height, width) != {} {
      OneClass(sets, height, width);
      forall x, y | x in TreeVertices(m) && y in TreeVertices(m) ensures Connected(m, x, y) {
        assert y in sets[y] && sets[y] == sets[x];
      }
    }
  }

  /** What the first loop leaves: every cell as InitialCell says, a singleton set per vertex. */
  ghost predicate InitialState(m: Maze, sets: map<Coord, set<Coord>>, height: int, width: int) {
    m.Valid() && m.height == height && m.width == width &&
    (forall r, c :: 0 <= r < height && 0 <= c < width ==> InitialCell(m.grid[r][c], r, c)) &&
    (forall x :: x in sets <==> 0 <= x.row < height && 0 <= x.col < width && IsVertexPos(x)) &&
    (forall x :: x in sets ==> sets[x] == {x})
  }

  /** The union loop may start on `edges`: its invariant holds, and every edge is a candidate. */
  ghost predicate Prepared(m: Maze, sets: map<Coord, set<Coord>>, height: int, width: int, edges: seq<Edge>) {
    JoinInv(m, sets, height, width, edges, 0) &&
    (forall j :: 0 <= j < |edges| ==> IsCandidate(height, width, edges[j])) &&
    (forall j :: 0 <= j < |edges| ==>
      edges[j].cell1 in sets && edges[j].cell2 in sets && m.InBounds(Midpoint(edges[j])))
  }

  /** The state after the first loop, given the shuffle, is ready for the union loop. */
  lemma JoinReady(m: Maze, sets: map<Coord, set<Coord>>, height: int, width: int,
                  unshuffled: seq<Edge>, order: seq<nat>)
    requires InitialState(m, sets, height, width)
    requires unshuffled == CandidateEdges(height, width) && IsPermutation(order, |unshuffled|)
    ensures Prepared(m, sets, height, width, Shuffle(unshuffled, order))
  {
    var edges := Shuffle(unshuffled, order);
    InitialUnionInv(m, sets, height, width);
    forall j | 0 <= j < |edges|
      ensures IsCandidate(height, width, edges[j])
      ensures edges[j].cell1 in sets && edges[j].cell2 in sets && m.InBounds(Midpoint(edges[j]))
    {
      CandidateEdgesMember(height, width, edges[j]);
      CandidateEnds(sets, height, width, edges[j]);
      CandidateMidpoint(height, width, edges[j]);
    }
  }

  /**
   * From the state after the first loop, the union loop over the shuffled
   * edges finds every edge's endpoints in a set and its midpoint in bounds,
   * and ends with a spanning tree over all vertices.
   */
  lemma JoinDone(st: JoinState, height: int, width: int, unshuffled: seq<Edge>, order: seq<nat>,
                 n: nat, draw: nat -> real)
    requires InitialState(st.m, st.sets, height, width)
    requires unshuffled == CandidateEdges(height, width) && IsPermutation(order, |unshuffled|)
    requires n == |Shuffle(unshuffled, order)|
    ensures forall j :: 0 <= j < |Shuffle(unshuffled, order)| ==>
      Shuffle(unshuffled, order)[j].cell1 in st.sets && Shuffle(unshuffled, order)[j].cell2 in st.sets &&
      st.m.InBounds(Midpoint(Shuffle(unshuffled, order)[j]))
    ensures GridInv(JoinPrefix(st, Shuffle(unshuffled, order), n, draw).m, height, width)
    ensures SpanningTree(JoinPrefix(st, Shuffle(unshuffled, order), n, draw).m)
  {
    var edges := Shuffle(unshuffled, order);
    JoinReady(st.m, st.sets, height, width, unshuffled, order);
    JoinPrefixInv(st, height, width, edges, n, draw);
    var fin := JoinPrefix(st, edges, n, draw);
    EveryCandidateTogether(fin.sets, height, width, order, unshuffled, edges);
    UnionDone(fin.m, fin.sets, height, width);
  }

  // ---------------------------------------------------------------------
  // The generator.

  /** (r, c) comes before (row, col) in row-major order, within `width` columns. */
  predicate Before(r: int, c: int, row: int, col: int, width: int) {
    0 <= c < width && (0 <= r < row || (r == row && c < col))
  }

  /** `sets` holds a singleton set for exactly the vertices before (row, col). */
  ghost predicate SinglesBefore(sets: map<Coord, set<Coord>>, row: int, col: int, width: int) {
    (forall x :: x in sets <==> Before(x.row, x.col, row, col, width) && IsVertexPos(x)) &&
    (forall x :: x in sets ==> sets[x] == {x})
  }

  lemma SinglesAdd(sets: map<Coord, set<Coord>>, row: int, col: int, width: int)
    requires SinglesBefore(sets, row, col, width) && 0 <= col < width && IsVertexPos(Coord(row, col))
    ensures SinglesBefore(sets[Coord(row, col) := {Coord(row, col)}], row, col + 1, width)
  {
  }

  lemma SinglesSkip(sets: map<Coord, set<Coord>>, row: int, col: int, width: int)
    requires SinglesBefore(sets, row, col, width) && 0 <= col < width && !IsVertexPos(Coord(row, col))
    ensures SinglesBefore(sets, row, col + 1, width)
  {
    forall x ensures x in sets <==> Before(x.row, x.col, row, col + 1, width) && IsVertexPos(x) {
      if x.row == row && x.col == col {
        assert x == Coord(row, col);
      }
    }
  }

  lemma SinglesNextRow(sets: map<Coord, set<Coord>>, row: int, width: int)
    requires row >= 0 && SinglesBefore(sets, row, width, width)
    ensures SinglesBefore(sets, row + 1, 0, width)
  {
  }

  /** One more column of a row's edge list. */
  lemma RowEdgesStep(height: int, width: int, row: int, col: int,
                     edges0: seq<Edge>, before: seq<Edge>, edges: seq<Edge>)
    requires col >= 0 && before == edges0 + RowEdges(height, width, row, col)
    requires if row % 2 == 0 || col % 2 == 0 then edges == before
      else edges == before + (if row + 2 < height then [Edge(Coord(row, col), Coord(row + 2, col))] else [])
                          + (if col + 2 < width then [Edge(Coord(row, col), Coord(row, col + 2))] else [])
    ensures edges == edges0 + RowEdges(height, width, row, col + 1)
  {
    var re, ea := RowEdges(height, width, row, col), EdgesAt(height, width, row, col);
    assert RowEdges(height, width, row, col + 1) == re + ea;
    assert (edges0 + re) + ea == edges0 + (re + ea);
    if row % 2 != 0 && col % 2 != 0 {
      var down := if row + 2 < height then [Edge(Coord(row, col), Coord(row + 2, col))] else [];
      var right := if col + 2 < width then [Edge(Coord(row, col), Coord(row, col + 2))] else [];
      assert ea == down + right;
      assert (before + down) + right == before + (down + right);
    }
  }

  /** A row of the first loop: cells, sets and edges of row `row`, column by column. */
  method InitialRow(grid: array2<Cell>, row: int, draw: nat -> real,
                    edges0: seq<Edge>, sets0: map<Coord, set<Coord>>, k0: nat)
    returns (edges: seq<Edge>, sets: map<Coord, set<Coord>>, k: nat)
    requires 0 <= row < grid.Length0
    requires SinglesBefore(sets0, row, 0, grid.Length1)
    modifies grid
    ensures edges == edges0 + RowEdges(grid.Length0, grid.Length1, row, grid.Length1)
    ensures SinglesBefore(sets, row + 1, 0, grid.Length1)
    ensures forall c :: 0 <= c < grid.Length1 ==> InitialCell(grid[row, c], row, c)
    ensures forall r, c :: 0 <= r < grid.Length0 && r != row && 0 <= c < grid.Length1 ==>
      grid[r, c] == old(grid[r, c])
  {
    var height, width := grid.Length0, grid.Length1;
    edges, sets, k := edges0, sets0, k0;
    for col := 0 to width
      invariant edges == edges0 + RowEdges(height, width, row, col)
      invariant SinglesBefore(sets, row, col, width)
      invariant forall c :: 0 <= c < col ==> InitialCell(grid[row, c], row, c)
      invariant forall r, c :: 0 <= r < height && r != row && 0 <= c < width ==> grid[r, c] == old(grid[r, c])
    {
      ghost var before := edges;
      if row % 2 == 0 || col % 2 == 0 {
        grid[row, col] := MakeCell(row, col, Wall);
        SinglesSkip(sets, row, col, width);
      } else {
        grid[row, col] := Cell(row, col, Passage, RandomSurface(draw(k)));
        k := k + 1;
        var coord := Coord(row, col);
        SinglesAdd(sets, row, col, width);
        sets := sets[coord := {coord}];
        if row + 2 < height {
          edges := edges + [Edge(coord, Coord(row + 2, col))];
        }
        if col + 2 < width {
          edges := edges + [Edge(coord, Coord(row, col + 2))];
        }
      }
      RowEdgesStep(height, width, row, col, edges0, before, edges);
    }
    SinglesNextRow(sets, row, width);
  }

  /**
   * The first loop of the generator: walls on every even row or column,
   * passages with a drawn surface elsewhere, a singleton set per vertex and
   * the candidate edges in row-major order. `k` counts the samples drawn.
   */
  method InitialGrid(height: int, width: int, draw: nat -> real)
    returns (grid: array2<Cell>, ghost m: Maze, edges: seq<Edge>, sets: map<Coord, set<Coord>>, k: nat)
    requires height >= 0 && width >= 0
    ensures fresh(grid) && Mirrors(grid, m)
    ensures edges == CandidateEdges(height, width)
    ensures InitialState(m, sets, height, width)
  {
    grid := new Cell[height, width];
    edges := [];
    sets := map[];
    k := 0;
    for row := 0 to height
      invariant edges == EdgesBefore(height, width, row)
      invariant SinglesBefore(sets, row, 0, width)
      invariant forall r, c :: 0 <= r < row && 0 <= c < width ==> InitialCell(grid[r, c], r, c)
    {
      edges, sets, k := InitialRow(grid, row, draw, edges, sets, k);
    }
    m := Maze(height, width, Freeze(grid));
  }

  /**
   * The second loop of the generator: walks the shuffled edges, carving the
   * midpoint of each edge whose endpoints lie in different sets and merging
   * those sets. `k` counts the samples drawn.
   */
  method JoinComponents(grid: array2<Cell>, ghost m0: Maze, sets0: map<Coord, set<Coord>>,
                        edges: seq<Edge>, draw: nat -> real, k0: nat)
    returns (ghost m: Maze, sets: map<Coord, set<Coord>>, k: nat)
    requires Mirrors(grid, m0)
    requires forall j :: 0 <= j < |edges| ==>
      edges[j].cell1 in sets0 && edges[j].cell2 in sets0 && m0.InBounds(Midpoint(edges[j]))
    modifies grid
    ensures Mirrors(grid, m)
    ensures JoinState(m, sets, k) == JoinPrefix(JoinState(m0, sets0, k0), edges, |edges|, draw)
  {
    m, sets, k := m0, sets0, k0;
    for i := 0 to |edges|
      invariant Mirrors(grid, m) && m.height == m0.height && m.width == m0.width
      invariant JoinState(m, sets, k) == JoinPrefix(JoinState(m0, sets0, k0), edges, i, draw)
    {
      ghost var st := JoinState(m, sets, k);
      var cell1 := edges[i].cell1;
      var cell2 := edges[i].cell2;
      var set1 := sets[cell1];
      var set2 := sets[cell2];
      if set1 != set2 {
        var betweenRow := (cell1.row + cell2.row) / 2;
        var betweenCol := (cell1.col + cell2.col) / 2;
        var carved := Cell(betweenRow, betweenCol, Passage, RandomSurface(draw(k)));
        assert Midpoint(edges[i]) == Coord(betweenRow, betweenCol);
        k := k + 1;
        m := Store(grid, m, Coord(betweenRow, betweenCol), carved);
        set1 := set1 + set2;
        sets := MergeSets(sets, set1);
        assert JoinStep(st, edges[i], draw) == JoinState(m, sets, k);
      } else {
        assert JoinStep(st, edges[i], draw) == st;
      }
    }
  }

  /**
   * Generates a maze of the requested size. `order` is the shuffle (a
   * permutation of the indices of the edge list) and `draw` the stream of
   * uniform samples that choose the surfaces of carved cells.
   */
  method Generate(heightP: int, widthP: int, order: seq<nat>, draw: nat -> real) returns (maze: Maze)
    requires heightP >= 0 && widthP >= 0
    requires IsPermutation(order, |CandidateEdges(OddDimension(heightP), OddDimension(widthP))|)
    ensures maze.Valid() && maze.height == OddDimension(heightP) && maze.width == OddDimension(widthP)
    ensures CellsWellFormed(maze) && PillarsStand(maze)
    ensures TreeVertices(maze) == AllVertices(maze.height, maze.width)
    ensures SpanningTree(maze)
  {
    var height := heightP;
    var width := widthP;
    if height % 2 == 0 {
      height := height + 1;
    }
    if width % 2 == 0 {
      width := width + 1;
    }

    var grid, m, edges, sets, k := InitialGrid(height, width, draw);
    assert height == OddDimension(heightP) && width == OddDimension(widthP);
    ghost var unshuffled := edges;
    edges := Shuffle(edges, order);
    ghost var n: nat := |edges|;
    ghost var st0 := JoinState(m, sets, k);
    JoinDone(st0, height, width, unshuffled, order, n, draw);
    m, sets, k := JoinComponents(grid, m, sets, edges, draw, k);
    FreezeMirror(grid, m);
    maze := Maze(height, width, Freeze(grid));
  }
}
