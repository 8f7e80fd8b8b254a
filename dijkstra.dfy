/**
 * The cheapest-path solver (DijkstraSolverImpl.java): a path from start to
 * end whose total entry cost is least, moving up, down, left and right
 * through PASSAGE cells. The distance table starts at infinity, the queue
 * is lazy (a cell may be queued several times and stale entries are
 * skipped), a distance is replaced only on strict improvement, and the
 * search stops as soon as end is taken off the queue.
 */
module Dijkstra {
  import opened Cells
  import opened Mazes
  import Bfs

  /** A distance table value; the source's Integer.MAX_VALUE is Infinity. */
  datatype Dist = Infinity | Finite(value: nat)

  /** The strict test `newDist < distances.get(neighbor)`. */
  predicate Improves(newDist: int, known: Dist) {
    known.Infinity? || newDist < known.value
  }

  /** CoordinateDistancePair: a queue entry, ordered by its distance only. */
  datatype Entry = Entry(coordinate: Coord, distance: int)

  /** The search state the main loop updates: distances, predecessors and the priority queue. */
  datatype Tables = Tables(dist: map<Coord, Dist>, pred: map<Coord, Coord>, queue: multiset<Entry>)

  /** A path from s to e that costs no more than any other path from s to e. */
  ghost predicate CheapestPath(m: Maze, p: seq<Coord>, s: Coord, e: Coord) {
    IsPath(m, p, s, e) && forall q :: IsPath(m, q, s, e) ==> PathCost(m, p) <= PathCost(m, q)
  }

  // ---------------------------------------------------------------------
  // isValid and getNeighbors.

  /** isValid: inside the grid, by the grid's own lengths, and PASSAGE. */
  function IsValid(row: int, col: int, m: Maze): (b: bool)
    requires m.Valid()
    ensures b <==> m.Enterable(Coord(row, col))
  {
    row >= 0 && row < |m.grid| && col >= 0 && col < |m.grid[0]| && m.grid[row][col].cellType == Passage
  }

  /** What getNeighbors has collected after the first i directions. */
  function NeighborsUpTo(m: Maze, c: Coord, i: int): seq<Coord>
    requires m.Valid() && 0 <= i <= 4
    decreases i
  {
    if i == 0 then []
    else
      var n := Neighbor(c, i - 1);
      NeighborsUpTo(m, c, i - 1) + (if IsValid(n.row, n.col, m) then [n] else [])
  }

  /** The passage cells next to c, in the order up, down, left, right. */
  function PassageNeighbors(m: Maze, c: Coord): seq<Coord>
    requires m.Valid()
  {
    NeighborsUpTo(m, c, 4)
  }

  lemma {:induction false} NeighborsUpToMember(m: Maze, c: Coord, i: int, n: Coord)
    requires m.Valid() && 0 <= i <= 4
    ensures n in NeighborsUpTo(m, c, i) <==> exists j :: 0 <= j < i && n == Neighbor(c, j) && m.Enterable(n)
    decreases i
  {
    if i > 0 {
      var p := i - 1;
      NeighborsUpToMember(m, c, p, n);
      var d := Neighbor(c, p);
      assert NeighborsUpTo(m, c, i) == NeighborsUpTo(m, c, p) + (if IsValid(d.row, d.col, m) then [d] else []);
    }
  }

  /** getNeighbors finds exactly the adjacent passage cells. */
  lemma PassageNeighborsMember(m: Maze, c: Coord, n: Coord)
    requires m.Valid()
    ensures n in PassageNeighbors(m, c) <==> Adjacent(c, n) && m.Enterable(n)
  {
    NeighborsUpToMember(m, c, 4, n);
    if n in PassageNeighbors(m, c) {
      var j :| 0 <= j < 4 && n == Neighbor(c, j) && m.Enterable(n);
      NeighborAdjacent(c, j);
    }
    if Adjacent(c, n) && m.Enterable(n) {
      var j := AdjacentIsNeighbor(c, n);
    }
  }

  /** getNeighbors: the in-bounds PASSAGE cells one move away, in the order up, down, left, right. */
  method GetNeighbors(current: Coord, maze: Maze) returns (neighbors: seq<Coord>)
    requires maze.Valid()
    ensures neighbors == PassageNeighbors(maze, current)
  {
    neighbors := [];
    var dRows := DRows;
    var dCols := DCols;
    for i := 0 to |dCols|
      invariant neighbors == NeighborsUpTo(maze, current, i)
    {
      var newRow := current.row + dRows[i];
      var newCol := current.col + dCols[i];
      assert Neighbor(current, i) == Coord(newRow, newCol);
      if IsValid(newRow, newCol, maze) {
        neighbors := neighbors + [Coord(newRow, newCol)];
      }
    }
  }

  // ---------------------------------------------------------------------
  // The distance table's initialisation.

  /** The nested loops that put "infinity" for every in-bounds coordinate. */
  method InitDistances(height: int, width: int) returns (dist: map<Coord, Dist>)
    ensures forall c :: c in dist <==> 0 <= c.row < height && 0 <= c.col < width
    ensures forall c :: c in dist ==> dist[c] == Infinity
  {
    dist := map[];
    var row := 0;
    while row < height
      invariant forall c :: c in dist <==> 0 <= c.row < row && 0 <= c.row < height && 0 <= c.col < width
      invariant forall c :: c in dist ==> dist[c] == Infinity
    {
      var col := 0;
      while col < width
        invariant forall c :: c in dist <==>
          0 <= c.col < width && ((0 <= c.row < row && c.row < height) || (c.row == row && c.col < col))
        invariant forall c :: c in dist ==> dist[c] == Infinity
      {
        dist := dist[Coord(row, col) := Infinity];
        col := col + 1;
      }
      row := row + 1;
    }
  }

  // ---------------------------------------------------------------------
  // Relaxation.

  /**
   * The treatment of one neighbour n of the cell current just taken: an
   * unvisited n whose distance the detour through current strictly improves
   * gets that distance, current as its predecessor and a new queue entry.
   */
  ghost function Relax(m: Maze, s: Tables, visited: set<Coord>, current: Coord, n: Coord): (r: Tables)
    requires current in s.dist && s.dist[current].Finite? && current in visited && n in s.dist
    ensures r.dist.Keys == s.dist.Keys
    ensures r.dist[current] == s.dist[current]
  {
    var newDist := s.dist[current].value + EntryCost(m, n);
    if n !in visited && Improves(newDist, s.dist[n]) then
      Tables(s.dist[n := Finite(newDist)], s.pred[n := current], s.queue + multiset{Entry(n, newDist)})
    else
      s
  }

  /** The neighbours of the list from the i-th on, treated in order, starting from s. */
  ghost function RelaxRest(m: Maze, s: Tables, visited: set<Coord>, current: Coord, ns: seq<Coord>, i: nat): (r: Tables)
    requires current in s.dist && s.dist[current].Finite? && current in visited
    requires forall j :: 0 <= j < |ns| ==> ns[j] in s.dist
    ensures r.dist.Keys == s.dist.Keys
    ensures r.dist[current] == s.dist[current]
    decreases |ns| - i
  {
    if i >= |ns| then s else RelaxRest(m, Relax(m, s, visited, current, ns[i]), visited, current, ns, i + 1)
  }

  /** The two cases of a relaxation, spelled out. */
  lemma RelaxCases(m: Maze, s: Tables, visited: set<Coord>, current: Coord, n: Coord)
    requires current in s.dist && s.dist[current].Finite? && current in visited && n in s.dist
    ensures var newDist := s.dist[current].value + EntryCost(m, n);
      if n !in visited && Improves(newDist, s.dist[n]) then
        Relax(m, s, visited, current, n) ==
          Tables(s.dist[n := Finite(newDist)], s.pred[n := current], s.queue + multiset{Entry(n, newDist)})
      else
        Relax(m, s, visited, current, n) == s
  {
  }

  /** A is no larger than B, with Infinity the largest. */
  predicate NoWorse(a: Dist, b: Dist) {
    b.Infinity? || (a.Finite? && a.value <= b.value)
  }

  /**
   * A distance never grows: after any number of relaxations every cell's
   * distance is no worse than before.
   */
  lemma {:induction false} RelaxRestMonotone(m: Maze, s: Tables, visited: set<Coord>, current: Coord,
                                             ns: seq<Coord>, i: nat)
    requires current in s.dist && s.dist[current].Finite? && current in visited
    requires forall j :: 0 <= j < |ns| ==> ns[j] in s.dist
    ensures forall c :: c in s.dist ==> NoWorse(RelaxRest(m, s, visited, current, ns, i).dist[c], s.dist[c])
    decreases |ns| - i
  {
    if i < |ns| {
      var t := Relax(m, s, visited, current, ns[i]);
      RelaxCases(m, s, visited, current, ns[i]);
      RelaxRestMonotone(m, t, visited, current, ns, i + 1);
    }
  }

  // ---------------------------------------------------------------------
  // The invariant, piece by piece.

  /** c has a slot with a finite distance. */
  ghost predicate Reached(dist: map<Coord, Dist>, c: Coord) {
    c in dist && dist[c].Finite?
  }

  /** c has a finite distance no larger than bound. */
  ghost predicate AtMost(dist: map<Coord, Dist>, c: Coord, bound: int) {
    c in dist && dist[c].Finite? && dist[c].value <= bound
  }

  /** The table has a slot for every in-bounds coordinate and for start, and start is at 0. */
  ghost predicate Domain(m: Maze, start: Coord, dist: map<Coord, Dist>) {
    start in dist && dist[start] == Finite(0) &&
    forall c :: c in dist <==> m.InBounds(c) || c == start
  }

  /** `order` numbers the visited cells in the order they were finalised. */
  ghost predicate Ranked(visited: set<Coord>, order: map<Coord, nat>) {
    (forall c :: c in visited <==> c in order) &&
    (forall c :: c in order ==> order[c] < |visited|)
  }

  /** The link from c to its predecessor: one adjacent move into a passage, paid for by c's distance. */
  ghost predicate LinkOk(m: Maze, dist: map<Coord, Dist>, pred: map<Coord, Coord>, visited: set<Coord>,
                         order: map<Coord, nat>, c: Coord)
    requires c in pred
  {
    c in dist && dist[c].Finite? && pred[c] in visited && pred[c] in order &&
    pred[c] in dist && dist[pred[c]].Finite? &&
    dist[c].value == dist[pred[c]].value + EntryCost(m, c) &&
    Adjacent(pred[c], c) && m.Enterable(c) &&
    (c in order ==> order[pred[c]] < order[c])
  }

  /**
   * Every cell with a finite distance other than start has a predecessor,
   * and every predecessor was finalised earlier.
   */
  ghost predicate PredLinks(m: Maze, start: Coord, dist: map<Coord, Dist>, pred: map<Coord, Coord>,
                            visited: set<Coord>, order: map<Coord, nat>) {
    start !in pred &&
    (forall c {:trigger Reached(dist, c)} :: Reached(dist, c) && c != start ==> c in pred) &&
    (forall c :: c in pred ==> LinkOk(m, dist, pred, visited, order, c))
  }

  /** A finalised cell's distance is the least cost of any path from start to it. */
  ghost predicate SettledOptimal(m: Maze, start: Coord, dist: map<Coord, Dist>, visited: set<Coord>) {
    (forall u :: u in visited ==> u in dist && dist[u].Finite?) &&
    (forall u, p :: u in visited && IsPath(m, p, start, u) ==> dist[u].value <= PathCost(m, p))
  }

  /** Every passage next to u is finalised or no dearer than the detour through u. */
  ghost predicate RelaxedFrom(m: Maze, dist: map<Coord, Dist>, visited: set<Coord>, u: Coord) {
    u in dist && dist[u].Finite? &&
    forall n :: Adjacent(u, n) && m.Enterable(n) ==> n in visited || AtMost(dist, n, dist[u].value + EntryCost(m, n))
  }

  /** Every finalised cell other than except has been relaxed. */
  ghost predicate RelaxedExcept(m: Maze, dist: map<Coord, Dist>, visited: set<Coord>, except: Option<Coord>) {
    forall u :: u in visited && (except.None? || u != except.value) ==> RelaxedFrom(m, dist, visited, u)
  }


  /** The first i neighbours of current are finalised or no dearer than the detour through current. */
  ghost predicate RelaxedUpTo(m: Maze, dist: map<Coord, Dist>, visited: set<Coord>, current: Coord,
                              ns: seq<Coord>, i: int)
    requires current in dist && dist[current].Finite?
  {
    forall j :: 0 <= j < i && j < |ns| ==>
      ns[j] in visited || AtMost(dist, ns[j], dist[current].value + EntryCost(m, ns[j]))
  }

  /** Every queue entry is one of its cell's distances, past or present, so no less than the current one. */
  ghost predicate QueueSound(dist: map<Coord, Dist>, queue: multiset<Entry>) {
    forall e :: e in queue ==> AtMost(dist, e.coordinate, e.distance)
  }

  /** Every reached, unfinalised cell is in the queue at its current distance. */
  ghost predicate QueueComplete(dist: map<Coord, Dist>, visited: set<Coord>, queue: multiset<Entry>) {
    forall c :: c in dist && dist[c].Finite? && c !in visited ==> Entry(c, dist[c].value) in queue
  }

  /** What holds of the tables in every state but the relaxation: all but the relax parts. */
  ghost predicate Core(m: Maze, start: Coord, end: Coord, s: Tables, visited: set<Coord>, order: map<Coord, nat>) {
    Domain(m, start, s.dist) && Ranked(visited, order) && PredLinks(m, start, s.dist, s.pred, visited, order) &&
    SettledOptimal(m, start, s.dist, visited) && QueueSound(s.dist, s.queue) &&
    QueueComplete(s.dist, visited, s.queue) && end !in visited
  }

  /** The invariant at the head of the main loop. */
  ghost predicate DInv(m: Maze, start: Coord, end: Coord, s: Tables, visited: set<Coord>, order: map<Coord, nat>) {
    Core(m, start, end, s, visited, order) && RelaxedExcept(m, s.dist, visited, None)
  }

  /** The invariant of the relaxation of current's neighbours, after the first i. */
  ghost predicate RInv(m: Maze, start: Coord, end: Coord, s: Tables, visited: set<Coord>, order: map<Coord, nat>,
                       current: Coord, ns: seq<Coord>, i: int) {
    Core(m, start, end, s, visited, order) && current in visited &&
    current in s.dist && s.dist[current].Finite? &&
    RelaxedExcept(m, s.dist, visited, Some(current)) && RelaxedUpTo(m, s.dist, visited, current, ns, i)
  }

  // ---------------------------------------------------------------------
  // The main loop's steps.

  lemma InitialInv(m: Maze, start: Coord, end: Coord, dist: map<Coord, Dist>)
    requires forall c :: c in dist <==> m.InBounds(c)
    requires forall c :: c in dist ==> dist[c] == Infinity
    ensures DInv(m, start, end, Tables(dist[start := Finite(0)], map[], multiset{Entry(start, 0)}), {}, map[])
  {
    var d := dist[start := Finite(0)];
    assert forall c :: c in d && d[c].Finite? ==> c == start;
  }

  /** A nonempty queue has an entry of least distance. */
  lemma {:induction false} MinExists(q: multiset<Entry>)
    requires q != multiset{}
    ensures exists e :: e in q && forall x :: x in q ==> e.distance <= x.distance
    decreases |q|
  {
    var y :| y in q;
    var r := q - multiset{y};
    assert forall x :: x in q ==> x == y || x in r;
    if r == multiset{} {
      assert forall x :: x in q ==> y.distance <= x.distance;
    } else {
      MinExists(r);
      var e :| e in r && forall x :: x in r ==> e.distance <= x.distance;
      var w := if e.distance <= y.distance then e else y;
      assert w in q;
      assert forall x :: x in q ==> w.distance <= x.distance;
    }
  }

  /**
   * Some queue entry costs no more than any path from start to a cell not
   * yet finalised: follow the path to its first unfinalised cell.
   */
  lemma {:induction false} NearBound(m: Maze, start: Coord, s: Tables, visited: set<Coord>, p: seq<Coord>, x: Coord)
    requires Domain(m, start, s.dist) && SettledOptimal(m, start, s.dist, visited)
    requires RelaxedExcept(m, s.dist, visited, None) && QueueComplete(s.dist, visited, s.queue)
    requires IsPath(m, p, start, x) && x !in visited
    ensures exists e :: e in s.queue && e.distance <= PathCost(m, p)
    decreases |p|
  {
    if |p| == 1 {
      assert Entry(start, 0) in s.queue;
    } else {
      var q := p[..|p| - 1];
      var y := q[|q| - 1];
      PathPrefix(m, p, start, x, |p| - 1);
      assert PathCost(m, p) == PathCost(m, q) + EntryCost(m, x);
      if y in visited {
        assert RelaxedFrom(m, s.dist, visited, y);
        assert Adjacent(y, x) && m.Enterable(x);
        assert Entry(x, s.dist[x].value) in s.queue;
      } else {
        NearBound(m, start, s, visited, q, y);
      }
    }
  }

  /** An unfinalised cell taken with the least entry is at that distance, and no path to it is cheaper. */
  lemma Cheapest(m: Maze, start: Coord, end: Coord, s: Tables, visited: set<Coord>, order: map<Coord, nat>, e: Entry)
    requires DInv(m, start, end, s, visited, order)
    requires e in s.queue && (forall x :: x in s.queue ==> e.distance <= x.distance) && e.coordinate !in visited
    ensures e.coordinate in s.dist && s.dist[e.coordinate] == Finite(e.distance)
    ensures forall p :: IsPath(m, p, start, e.coordinate) ==> e.distance <= PathCost(m, p)
  {
    var c := e.coordinate;
    assert AtMost(s.dist, c, e.distance);
    assert Entry(c, s.dist[c].value) in s.queue;
    forall p | IsPath(m, p, start, c) ensures e.distance <= PathCost(m, p) {
      NearBound(m, start, s, visited, p, c);
    }
  }

  /** A stale entry, for a cell already finalised, is dropped. */
  lemma PopStale(m: Maze, start: Coord, end: Coord, s: Tables, visited: set<Coord>, order: map<Coord, nat>, e: Entry)
    requires DInv(m, start, end, s, visited, order) && e in s.queue && e.coordinate in visited
    ensures DInv(m, start, end, Tables(s.dist, s.pred, s.queue - multiset{e}), visited, order)
  {
    var q := s.queue - multiset{e};
    forall c | c in s.dist && s.dist[c].Finite? && c !in visited ensures Entry(c, s.dist[c].value) in q {
      assert Entry(c, s.dist[c].value) != e;
    }
  }

  /** Finalising c keeps the numbering: c is numbered after every finalised cell. */
  lemma RankedAdd(visited: set<Coord>, order: map<Coord, nat>, c: Coord)
    requires Ranked(visited, order) && c !in visited
    ensures Ranked(visited + {c}, order[c := |visited|])
  {
    assert |visited + {c}| == |visited| + 1;
  }

  /** Finalising c keeps every link. */
  lemma LinksSettle(m: Maze, start: Coord, dist: map<Coord, Dist>, pred: map<Coord, Coord>,
                    visited: set<Coord>, order: map<Coord, nat>, c: Coord)
    requires PredLinks(m, start, dist, pred, visited, order) && Ranked(visited, order) && c !in visited
    ensures PredLinks(m, start, dist, pred, visited + {c}, order[c := |visited|])
  {
    var order' := order[c := |visited|];
    forall x | x in pred ensures LinkOk(m, dist, pred, visited + {c}, order', x) {
      assert LinkOk(m, dist, pred, visited, order, x);
    }
  }

  /**
   * Taking the least entry of a cell not yet finalised, and not end,
   * finalises it and starts its relaxation.
   */
  lemma Settle(m: Maze, start: Coord, end: Coord, s: Tables, visited: set<Coord>, order: map<Coord, nat>,
               e: Entry, ns: seq<Coord>)
    requires DInv(m, start, end, s, visited, order)
    requires e in s.queue && (forall x :: x in s.queue ==> e.distance <= x.distance)
    requires e.coordinate !in visited && e.coordinate != end
    ensures RInv(m, start, end, Tables(s.dist, s.pred, s.queue - multiset{e}), visited + {e.coordinate},
      order[e.coordinate := |visited|], e.coordinate, ns, 0)
  {
    var c := e.coordinate;
    var v' := visited + {c};
    var q := s.queue - multiset{e};
    Cheapest(m, start, end, s, visited, order, e);
    RankedAdd(visited, order, c);
    LinksSettle(m, start, s.dist, s.pred, visited, order, c);
    forall u, p | u in v' && IsPath(m, p, start, u) ensures s.dist[u].value <= PathCost(m, p) {
      if u != c {
        assert u in visited;
      }
    }
    forall x | x in s.dist && s.dist[x].Finite? && x !in v' ensures Entry(x, s.dist[x].value) in q {
      assert Entry(x, s.dist[x].value) != e;
    }
    forall u | u in v' && u != c ensures RelaxedFrom(m, s.dist, v', u) {
      assert RelaxedFrom(m, s.dist, visited, u);
    }
  }

  /** The links after a strict improvement of n through current. */
  lemma LinksImprove(m: Maze, start: Coord, dist: map<Coord, Dist>, pred: map<Coord, Coord>,
                     visited: set<Coord>, order: map<Coord, nat>, current: Coord, n: Coord, d: nat)
    requires PredLinks(m, start, dist, pred, visited, order) && Ranked(visited, order)
    requires current in visited && current in dist && dist[current].Finite? && n !in visited && n != start
    requires d == dist[current].value + EntryCost(m, n) && Adjacent(current, n) && m.Enterable(n)
    ensures PredLinks(m, start, dist[n := Finite(d)], pred[n := current], visited, order)
  {
    var dist' := dist[n := Finite(d)];
    var pred' := pred[n := current];
    forall c | Reached(dist', c) && c != start ensures c in pred' {
      if c != n {
        assert Reached(dist, c);
      }
    }
    forall x | x in pred' ensures LinkOk(m, dist', pred', visited, order, x) {
      if x != n {
        assert LinkOk(m, dist, pred, visited, order, x);
      }
    }
  }

  /** The relaxed cells after a strict improvement of n. */
  lemma RelaxedImprove(m: Maze, s: Tables, visited: set<Coord>, current: Coord, ns: seq<Coord>, i: int, d: nat)
    requires current in visited && current in s.dist && s.dist[current].Finite? && 0 <= i < |ns|
    requires ns[i] in s.dist && ns[i] !in visited && Improves(d, s.dist[ns[i]])
    requires d == s.dist[current].value + EntryCost(m, ns[i])
    requires RelaxedExcept(m, s.dist, visited, Some(current)) && RelaxedUpTo(m, s.dist, visited, current, ns, i)
    ensures RelaxedExcept(m, s.dist[ns[i] := Finite(d)], visited, Some(current))
    ensures RelaxedUpTo(m, s.dist[ns[i] := Finite(d)], visited, current, ns, i + 1)
  {
    var n := ns[i];
    var dist' := s.dist[n := Finite(d)];
    forall u | u in visited && u != current ensures RelaxedFrom(m, dist', visited, u) {
      assert RelaxedFrom(m, s.dist, visited, u);
    }
  }

  /** The queue after a strict improvement of n. */
  lemma QueueImprove(dist: map<Coord, Dist>, visited: set<Coord>, queue: multiset<Entry>, n: Coord, d: nat)
    requires QueueSound(dist, queue) && QueueComplete(dist, visited, queue)
    requires n in dist && Improves(d, dist[n])
    ensures QueueSound(dist[n := Finite(d)], queue + multiset{Entry(n, d)})
    ensures QueueComplete(dist[n := Finite(d)], visited, queue + multiset{Entry(n, d)})
  {
  }

  /** A strict improvement of n = ns[i] through current, to d, keeps the relaxation invariant. */
  lemma RelaxImproveInv(m: Maze, start: Coord, end: Coord, s: Tables, visited: set<Coord>, order: map<Coord, nat>,
                        current: Coord, ns: seq<Coord>, i: int, n: Coord, d: nat)
    requires RInv(m, start, end, s, visited, order, current, ns, i) && 0 <= i < |ns| && n == ns[i]
    requires Adjacent(current, n) && m.Enterable(n) && n in s.dist && n !in visited
    requires d == s.dist[current].value + EntryCost(m, n) && Improves(d, s.dist[n])
    ensures RInv(m, start, end, Tables(s.dist[n := Finite(d)], s.pred[n := current], s.queue + multiset{Entry(n, d)}),
      visited, order, current, ns, i + 1)
  {
    assert n != start;
    LinksImprove(m, start, s.dist, s.pred, visited, order, current, n, d);
    RelaxedImprove(m, s, visited, current, ns, i, d);
    QueueImprove(s.dist, visited, s.queue, n, d);
    var dist' := s.dist[n := Finite(d)];
    assert SettledOptimal(m, start, dist', visited) by {
      forall u, p | u in visited && IsPath(m, p, start, u) ensures dist'[u].value <= PathCost(m, p) {
        assert s.dist[u].value <= PathCost(m, p);
      }
    }
  }

  /** A neighbour that is finalised or not improved changes nothing. */
  lemma RelaxSkipInv(m: Maze, start: Coord, end: Coord, s: Tables, visited: set<Coord>, order: map<Coord, nat>,
                     current: Coord, ns: seq<Coord>, i: int)
    requires RInv(m, start, end, s, visited, order, current, ns, i) && 0 <= i < |ns| && ns[i] in s.dist
    requires !(ns[i] !in visited && Improves(s.dist[current].value + EntryCost(m, ns[i]), s.dist[ns[i]]))
    ensures RInv(m, start, end, s, visited, order, current, ns, i + 1)
  {
  }

  /** The same invariant holds of equal states. */
  lemma RInvSame(m: Maze, start: Coord, end: Coord, a: Tables, b: Tables, visited: set<Coord>,
                 order: map<Coord, nat>, current: Coord, ns: seq<Coord>, i: int)
    requires RInv(m, start, end, a, visited, order, current, ns, i) && a == b
    ensures RInv(m, start, end, b, visited, order, current, ns, i)
  {
  }

  /** One relaxation keeps the relaxation invariant. */
  lemma RelaxInv(m: Maze, start: Coord, end: Coord, s: Tables, visited: set<Coord>, order: map<Coord, nat>,
                 current: Coord, ns: seq<Coord>, i: int)
    requires RInv(m, start, end, s, visited, order, current, ns, i) && 0 <= i < |ns|
    requires Adjacent(current, ns[i]) && m.Enterable(ns[i]) && ns[i] in s.dist
    ensures RInv(m, start, end, Relax(m, s, visited, current, ns[i]), visited, order, current, ns, i + 1)
  {
    var n := ns[i];
    var d := s.dist[current].value + EntryCost(m, n);
    RelaxCases(m, s, visited, current, n);
    if n !in visited && Improves(d, s.dist[n]) {
      var next := Tables(s.dist[n := Finite(d)], s.pred[n := current], s.queue + multiset{Entry(n, d)});
      RelaxImproveInv(m, start, end, s, visited, order, current, ns, i, n, d);
      RInvSame(m, start, end, next, Relax(m, s, visited, current, n), visited, order, current, ns, i + 1);
    } else {
      RelaxSkipInv(m, start, end, s, visited, order, current, ns, i);
      RInvSame(m, start, end, s, Relax(m, s, visited, current, n), visited, order, current, ns, i + 1);
    }
  }

  /** Relaxing the remaining neighbours keeps the relaxation invariant, up to the last one. */
  lemma {:induction false} RelaxRestInv(m: Maze, start: Coord, end: Coord, s: Tables, visited: set<Coord>,
                                        order: map<Coord, nat>, current: Coord, ns: seq<Coord>, i: nat)
    requires RInv(m, start, end, s, visited, order, current, ns, i) && i <= |ns|
    requires forall j :: 0 <= j < |ns| ==> Adjacent(current, ns[j]) && m.Enterable(ns[j]) && ns[j] in s.dist
    ensures RInv(m, start, end, RelaxRest(m, s, visited, current, ns, i), visited, order, current, ns, |ns|)
    decreases |ns| - i
  {
    var r := RelaxRest(m, s, visited, current, ns, i);
    if i < |ns| {
      var next := Relax(m, s, visited, current, ns[i]);
      RelaxInv(m, start, end, s, visited, order, current, ns, i);
      RelaxRestInv(m, start, end, next, visited, order, current, ns, i + 1);
      assert RelaxRest(m, next, visited, current, ns, i + 1) == r;
      RInvSame(m, start, end, RelaxRest(m, next, visited, current, ns, i + 1), r, visited, order, current, ns, |ns|);
    } else {
      assert s == r;
      RInvSame(m, start, end, s, r, visited, order, current, ns, |ns|);
    }
  }

  /** Once every passage neighbour is relaxed, the main invariant is back. */
  lemma RelaxDone(m: Maze, start: Coord, end: Coord, s: Tables, visited: set<Coord>, order: map<Coord, nat>,
                  current: Coord)
    requires m.Valid() && RInv(m, start, end, s, visited, order, current, PassageNeighbors(m, current),
      |PassageNeighbors(m, current)|)
    ensures DInv(m, start, end, s, visited, order)
  {
    var ns := PassageNeighbors(m, current);
    assert RelaxedFrom(m, s.dist, visited, current) by {
      forall n | Adjacent(current, n) && m.Enterable(n)
        ensures n in visited || AtMost(s.dist, n, s.dist[current].value + EntryCost(m, n))
      {
        PassageNeighborsMember(m, current, n);
        var j :| 0 <= j < |ns| && ns[j] == n;
      }
    }
  }

  /** With the queue empty, no cell outside the finalised ones can be reached; end is one of them. */
  lemma EmptyUnreachable(m: Maze, start: Coord, end: Coord, s: Tables, visited: set<Coord>, order: map<Coord, nat>)
    requires DInv(m, start, end, s, visited, order) && s.queue == multiset{}
    ensures !Reachable(m, start, end)
  {
    if Reachable(m, start, end) {
      var p :| IsPath(m, p, start, end);
      NearBound(m, start, s, visited, p, end);
    }
  }

  /** The number of table slots not yet finalised. */
  ghost function Unsettled(m: Maze, start: Coord, visited: set<Coord>): int {
    |(AllCoords(m.height, m.width) + {start}) - visited|
  }

  /** Finalising a table slot leaves fewer unfinalised. */
  lemma UnsettledShrinks(m: Maze, start: Coord, dist: map<Coord, Dist>, visited: set<Coord>, c: Coord)
    requires Domain(m, start, dist) && c in dist && c !in visited
    ensures Unsettled(m, start, visited + {c}) < Unsettled(m, start, visited)
  {
    AllCoordsMember(m.height, m.width, c);
    RemainderShrinks(AllCoords(m.height, m.width) + {start}, visited, visited + {c}, c);
  }

  // ---------------------------------------------------------------------
  // Reading the path back.

  /** How early a cell was finalised; cells not finalised come last. */
  ghost function Rank(visited: set<Coord>, order: map<Coord, nat>, c: Coord): nat {
    if c in order then order[c] else |visited|
  }

  /** The cells from start to c along the recorded predecessors. */
  ghost function Chain(m: Maze, start: Coord, dist: map<Coord, Dist>, pred: map<Coord, Coord>,
                       visited: set<Coord>, order: map<Coord, nat>, c: Coord): seq<Coord>
    requires PredLinks(m, start, dist, pred, visited, order) && Ranked(visited, order)
    requires c in dist && dist[c].Finite?
    decreases Rank(visited, order, c)
  {
    if c == start then [start]
    else
      assert Reached(dist, c);
      assert LinkOk(m, dist, pred, visited, order, c);
      Chain(m, start, dist, pred, visited, order, pred[c]) + [c]
  }

  /** The predecessor chain of c is a path from start to c costing exactly c's distance. */
  lemma {:induction false} ChainCost(m: Maze, start: Coord, dist: map<Coord, Dist>, pred: map<Coord, Coord>,
                                     visited: set<Coord>, order: map<Coord, nat>, c: Coord)
    requires PredLinks(m, start, dist, pred, visited, order) && Ranked(visited, order)
    requires Domain(m, start, dist) && c in dist && dist[c].Finite?
    ensures IsPath(m, Chain(m, start, dist, pred, visited, order, c), start, c)
    ensures PathCost(m, Chain(m, start, dist, pred, visited, order, c)) == dist[c].value
    decreases Rank(visited, order, c)
  {
    if c != start {
      assert Reached(dist, c);
      assert LinkOk(m, dist, pred, visited, order, c);
      var b := pred[c];
      ChainCost(m, start, dist, pred, visited, order, b);
      var p := Chain(m, start, dist, pred, visited, order, b);
      assert Chain(m, start, dist, pred, visited, order, c) == p + [c];
      assert (p + [c])[..|p|] == p;
    }
  }

  /**
   * reconstructPath: walks the predecessors back from end until it meets
   * start, collecting the cells, adds start and reverses the list.
   */
  method ReconstructPath(predecessors: map<Coord, Coord>, start: Coord, end: Coord, ghost m: Maze,
                         ghost dist: map<Coord, Dist>, ghost visited: set<Coord>, ghost order: map<Coord, nat>)
    returns (path: seq<Coord>)
    requires PredLinks(m, start, dist, predecessors, visited, order) && Ranked(visited, order)
    requires end in dist && dist[end].Finite?
    ensures path == Chain(m, start, dist, predecessors, visited, order, end)
  {
    path := [];
    var step := end;
    while step != start
      invariant step in dist && dist[step].Finite?
      invariant Chain(m, start, dist, predecessors, visited, order, step) + Reverse(path) ==
        Chain(m, start, dist, predecessors, visited, order, end)
      decreases Rank(visited, order, step)
    {
      assert Reached(dist, step);
      assert LinkOk(m, dist, predecessors, visited, order, step);
      ReverseSnoc(path, step);
      path := path + [step];
      step := predecessors[step];
    }
    ReverseSnoc(path, start);
    path := path + [start];
    path := Reverse(path);
  }

  // ---------------------------------------------------------------------
  // The solver.

  /**
   * The inner loop of solve: each listed neighbour in turn is relaxed
   * through current, with the same strict test and the same three updates.
   */
  method RelaxNeighbors(maze: Maze, current: Coord, neighbors: seq<Coord>, visited: set<Coord>,
                        distances: map<Coord, Dist>, predecessors: map<Coord, Coord>, priorityQueue: multiset<Entry>)
    returns (dist: map<Coord, Dist>, pred: map<Coord, Coord>, queue: multiset<Entry>)
    requires maze.Valid() && current in distances && distances[current].Finite? && current in visited
    requires forall j :: 0 <= j < |neighbors| ==> maze.Enterable(neighbors[j]) && neighbors[j] in distances
    ensures Tables(dist, pred, queue) ==
      RelaxRest(maze, Tables(distances, predecessors, priorityQueue), visited, current, neighbors, 0)
  {
    dist, pred, queue := distances, predecessors, priorityQueue;
    ghost var goal := RelaxRest(maze, Tables(distances, predecessors, priorityQueue), visited, current, neighbors, 0);
    for i := 0 to |neighbors|
      invariant dist.Keys == distances.Keys && dist[current] == distances[current]
      invariant RelaxRest(maze, Tables(dist, pred, queue), visited, current, neighbors, i) == goal
    {
      var neighbor := neighbors[i];
      ghost var s := Tables(dist, pred, queue);
      ghost var next := Relax(maze, s, visited, current, neighbor);
      assert RelaxRest(maze, s, visited, current, neighbors, i) ==
        RelaxRest(maze, next, visited, current, neighbors, i + 1);
      RelaxCases(maze, s, visited, current, neighbor);
      var changed := false;
      if neighbor !in visited {
        var newDist := dist[current].value + SurfaceCost(maze.grid[neighbor.row][neighbor.col].surface);
        assert newDist == dist[current].value + EntryCost(maze, neighbor);
        if Improves(newDist, dist[neighbor]) {
          dist := dist[neighbor := Finite(newDist)];
          pred := pred[neighbor := current];
          queue := queue + multiset{Entry(neighbor, newDist)};
          changed := true;
          assert next == Tables(dist, pred, queue);
        }
      }
      if !changed {
        assert next == s;
      }
    }
  }

  /**
   * The solver: the result is empty exactly when end cannot be reached,
   * and otherwise a path from start to end that costs no more than any
   * other; a start equal to end gives [start]. The maze is only read.
   */
  method Solve(maze: Maze, start: Coord, end: Coord) returns (path: seq<Coord>)
    requires maze.Valid()
    ensures path == [] <==> !Reachable(maze, start, end)
    ensures path != [] ==> CheapestPath(maze, path, start, end)
    ensures start == end ==> path == [start]
  {
    var height := maze.height;
    var width := maze.width;
    var distances := InitDistances(height, width);
    var predecessors: map<Coord, Coord> := map[];
    var visited: set<Coord> := {};
    var priorityQueue: multiset<Entry> := multiset{};
    InitialInv(maze, start, end, distances);
    distances := distances[start := Finite(0)];
    priorityQueue := priorityQueue + multiset{Entry(start, 0)};
    ghost var order: map<Coord, nat> := map[];
    while priorityQueue != multiset{}
      invariant DInv(maze, start, end, Tables(distances, predecessors, priorityQueue), visited, order)
      decreases Unsettled(maze, start, visited), |priorityQueue|
    {
      MinExists(priorityQueue);
      var currentPair :| currentPair in priorityQueue &&
        forall x :: x in priorityQueue ==> currentPair.distance <= x.distance;
      ghost var polled := Tables(distances, predecessors, priorityQueue);
      priorityQueue := priorityQueue - multiset{currentPair};
      var current := currentPair.coordinate;
      if current in visited {
        PopStale(maze, start, end, polled, visited, order, currentPair);
      } else if current == end {
        Cheapest(maze, start, end, polled, visited, order, currentPair);
        path := ReconstructPath(predecessors, start, end, maze, distances, visited, order);
        ChainCost(maze, start, distances, predecessors, visited, order, end);
        return;
      } else {
        Settle(maze, start, end, polled, visited, order, currentPair, PassageNeighbors(maze, current));
        UnsettledShrinks(maze, start, distances, visited, current);
        order := order[current := |visited|];
        visited := visited + {current};
        var neighbors := GetNeighbors(current, maze);
        forall j | 0 <= j < |neighbors|
          ensures Adjacent(current, neighbors[j]) && maze.Enterable(neighbors[j]) && neighbors[j] in distances
        {
          PassageNeighborsMember(maze, current, neighbors[j]);
        }
        ghost var before := Tables(distances, predecessors, priorityQueue);
        distances, predecessors, priorityQueue :=
          RelaxNeighbors(maze, current, neighbors, visited, distances, predecessors, priorityQueue);
        RelaxRestInv(maze, start, end, before, visited, order, current, neighbors, 0);
        RelaxDone(maze, start, end, Tables(distances, predecessors, priorityQueue), visited, order, current);
      }
    }
    EmptyUnreachable(maze, start, end, Tables(distances, predecessors, priorityQueue), visited, order);
    assert IsPath(maze, [start], start, start);
    path := [];
  }

  /**
   * When every passage has Normal surface, a cheapest path has the fewest
   * cells, so the two solvers agree on the length of what they return.
   */
  lemma CheapestIsShortest(m: Maze, p: seq<Coord>, s: Coord, e: Coord)
    requires CheapestPath(m, p, s, e)
    requires forall c :: m.Enterable(c) ==> m.grid[c.row][c.col].surface == Normal
    ensures Bfs.ShortestPath(m, p, s, e)
  {
    UniformCostIsLength(m, p, s, e);
    forall q | IsPath(m, q, s, e) ensures |p| <= |q| {
      UniformCostIsLength(m, q, s, e);
    }
  }
}
