/**
 * The breadth-first solver (BFSSolverImpl.java): a path from start to end
 * with the fewest cells, moving up, down, left and right through PASSAGE
 * cells. Cells are marked visited when they are enqueued, each records the
 * cell it was reached from, and the path is read back from end.
 */
module Bfs {
  import opened Cells
  import opened Mazes

  /** A path from s to e with no more cells than any other path from s to e. */
  ghost predicate ShortestPath(m: Maze, p: seq<Coord>, s: Coord, e: Coord) {
    IsPath(m, p, s, e) && forall q :: IsPath(m, q, s, e) ==> |p| <= |q|
  }

  // ---------------------------------------------------------------------
  // What the search knows, as values: `dist` holds the visited cells with
  // their number of steps from start, `pred` the recorded predecessors,
  // `done` the cells already taken off the queue and expanded.

  /** Every link leads one step back towards start along an adjacent move into a passage. */
  ghost predicate Links(m: Maze, start: Coord, dist: map<Coord, nat>, pred: map<Coord, Coord>) {
    start in dist && dist[start] == 0 && start !in pred &&
    (forall c :: c in dist ==> m.InBounds(c)) &&
    (forall c :: c in dist && c != start ==> c in pred) &&
    (forall c :: c in pred ==>
      c in dist && pred[c] in dist && dist[c] == dist[pred[c]] + 1 && Adjacent(pred[c], c) && m.Enterable(c))
  }

  /** The first i moves out of u lead, when they enter a passage, to visited cells at most one step further. */
  ghost predicate ExpandedUpTo(m: Maze, dist: map<Coord, nat>, u: Coord, i: int)
    requires u in dist
  {
    forall k :: 0 <= k < i && k < 4 && m.Enterable(Neighbor(u, k)) ==>
      Neighbor(u, k) in dist && dist[Neighbor(u, k)] <= dist[u] + 1
  }

  /** No cell is queued twice, and no queued cell is among `out`. */
  ghost predicate QueueFresh(queue: seq<Coord>, out: set<Coord>) {
    (forall i, j :: 0 <= i < j < |queue| ==> queue[i] != queue[j]) &&
    (forall i :: 0 <= i < |queue| ==> queue[i] !in out)
  }

  /**
   * The loop invariant at the head of the main loop: the queue holds visited
   * cells in order of distance, spanning at most two layers; every visited
   * cell is expanded or queued, and no cell is both or is queued twice;
   * expanded cells lie no further than any queued cell and have all their
   * passage neighbours visited; end is not expanded.
   */
  ghost predicate BfsInv(m: Maze, start: Coord, end: Coord, dist: map<Coord, nat>, pred: map<Coord, Coord>,
                         queue: seq<Coord>, done: set<Coord>) {
    Links(m, start, dist, pred) &&
    (forall i :: 0 <= i < |queue| ==> queue[i] in dist) &&
    (forall i, j :: 0 <= i <= j < |queue| ==> dist[queue[i]] <= dist[queue[j]] <= dist[queue[i]] + 1) &&
    done <= dist.Keys &&
    (forall c :: c in dist ==> c in done || c in queue) && QueueFresh(queue, done) &&
    (forall u, i :: u in done && 0 <= i < |queue| ==> dist[u] <= dist[queue[i]]) &&
    (forall u :: u in done ==> ExpandedUpTo(m, dist, u, 4)) &&
    end !in done
  }

  /** The search state the scan of one cell updates. */
  datatype Search = Search(dist: map<Coord, nat>, pred: map<Coord, Coord>, queue: seq<Coord>)

  /** The queue holds visited cells in order of distance, in current's layer and the next. */
  ghost predicate Band(dist: map<Coord, nat>, queue: seq<Coord>, current: Coord) {
    current in dist &&
    (forall j :: 0 <= j < |queue| ==> queue[j] in dist && dist[current] <= dist[queue[j]] <= dist[current] + 1) &&
    (forall j, l :: 0 <= j <= l < |queue| ==> dist[queue[j]] <= dist[queue[l]])
  }

  /** Every visited cell is expanded, is current, or waits in the queue. */
  ghost predicate Covered(dist: map<Coord, nat>, done: set<Coord>, current: Coord, queue: seq<Coord>) {
    forall c :: c in dist ==> c in done || c == current || c in queue
  }

  /** The expanded cells are visited and have all their passage neighbours visited at most one step further. */
  ghost predicate DoneExpanded(m: Maze, dist: map<Coord, nat>, done: set<Coord>) {
    done <= dist.Keys && forall u :: u in done ==> ExpandedUpTo(m, dist, u, 4)
  }

  /**
   * The invariant of the scan of current's four moves, after the first i:
   * current has left the queue, the queue spans current's layer and the
   * next without repeating a cell or holding current or an expanded cell,
   * and the expanded cells lie no further than current.
   */
  ghost predicate ScanInv(m: Maze, start: Coord, end: Coord, s: Search, done: set<Coord>, current: Coord, i: int) {
    Links(m, start, s.dist, s.pred) && Band(s.dist, s.queue, current) && current != end &&
    Covered(s.dist, done, current, s.queue) && QueueFresh(s.queue, done + {current}) &&
    DoneExpanded(m, s.dist, done) &&
    (forall u :: u in done ==> s.dist[u] <= s.dist[current]) &&
    ExpandedUpTo(m, s.dist, current, i) && end !in done
  }

  lemma InitialInv(m: Maze, start: Coord, end: Coord)
    requires m.InBounds(start)
    ensures BfsInv(m, start, end, map[start := 0], map[], [start], {})
  {
  }

  /** After polling, the rest of the queue repeats no cell and holds neither the polled cell nor an expanded one. */
  lemma PopFresh(queue: seq<Coord>, done: set<Coord>)
    requires QueueFresh(queue, done) && |queue| > 0
    ensures QueueFresh(queue[1..], done + {queue[0]})
  {
    var q := queue[1..];
    forall i | 0 <= i < |q| ensures q[i] !in done + {queue[0]} {
      assert q[i] == queue[i + 1];
    }
    forall i, j | 0 <= i < j < |q| ensures q[i] != q[j] {
      assert q[i] == queue[i + 1] && q[j] == queue[j + 1];
    }
  }

  /** The polled cell was not expanded before, so expanding it adds one cell. */
  lemma PolledFresh(queue: seq<Coord>, done: set<Coord>)
    requires QueueFresh(queue, done) && |queue| > 0
    ensures queue[0] !in done && |done + {queue[0]}| == |done| + 1
  {
  }

  /** Taking the head of the queue, which is not end, starts its scan. */
  lemma PopInv(m: Maze, start: Coord, end: Coord, dist: map<Coord, nat>, pred: map<Coord, Coord>,
               queue: seq<Coord>, done: set<Coord>)
    requires BfsInv(m, start, end, dist, pred, queue, done) && |queue| > 0 && queue[0] != end
    ensures ScanInv(m, start, end, Search(dist, pred, queue[1..]), done, queue[0], 0)
  {
    var q := queue[1..];
    PopFresh(queue, done);
    forall j | 0 <= j < |q| ensures q[j] in dist && dist[queue[0]] <= dist[q[j]] <= dist[queue[0]] + 1 {
      assert q[j] == queue[j + 1];
    }
    forall c | c in dist ensures c in done || c == queue[0] || c in q {
      if c !in done && c != queue[0] {
        var i :| 0 <= i < |queue| && queue[i] == c;
        assert q[i - 1] == c;
      }
    }
  }

  /** Move i out of current: an in-bounds, unvisited passage is visited one step further and queued. */
  ghost function ScanStep(m: Maze, s: Search, current: Coord, i: int): (r: Search)
    requires 0 <= i < 4 && current in s.dist
    ensures current in r.dist && r.dist[current] == s.dist[current]
  {
    var n := Neighbor(current, i);
    if m.InBounds(n) && n !in s.dist && m.Enterable(n) then
      Search(s.dist[n := s.dist[current] + 1], s.pred[n := current], s.queue + [n])
    else
      s
  }

  /** The two cases of a move, spelled out. */
  lemma ScanStepCases(m: Maze, s: Search, current: Coord, i: int)
    requires 0 <= i < 4 && current in s.dist
    ensures var n := Neighbor(current, i);
      if m.InBounds(n) && n !in s.dist && m.Enterable(n) then
        ScanStep(m, s, current, i) == Search(s.dist[n := s.dist[current] + 1], s.pred[n := current], s.queue + [n])
      else
        ScanStep(m, s, current, i) == s
  {
  }

  /** The first i moves out of current, in the order up, down, left, right. */
  ghost function ScanUpTo(m: Maze, s: Search, current: Coord, i: int): (r: Search)
    requires 0 <= i <= 4 && current in s.dist
    ensures current in r.dist && r.dist[current] == s.dist[current]
    decreases i
  {
    if i == 0 then s else ScanStep(m, ScanUpTo(m, s, current, i - 1), current, i - 1)
  }

  /** A move that leaves the grid, meets a visited cell or meets a wall changes nothing. */
  lemma ScanSkip(m: Maze, start: Coord, end: Coord, s: Search, done: set<Coord>, current: Coord, i: int)
    requires ScanInv(m, start, end, s, done, current, i) && 0 <= i < 4
    requires !(m.InBounds(Neighbor(current, i)) && Neighbor(current, i) !in s.dist && m.Enterable(Neighbor(current, i)))
    ensures ScanInv(m, start, end, s, done, current, i + 1)
  {
    var n := Neighbor(current, i);
    if m.Enterable(n) {
      assert n in s.dist;
      if n in s.queue {
        var j :| 0 <= j < |s.queue| && s.queue[j] == n;
      } else {
        assert n in done || n == current;
        NeighborAdjacent(current, i);
      }
    }
  }

  /** Linking a new passage n to the visited cell current keeps the links. */
  lemma LinkAdded(m: Maze, start: Coord, dist: map<Coord, nat>, pred: map<Coord, Coord>, current: Coord, n: Coord)
    requires Links(m, start, dist, pred) && current in dist && n !in dist
    requires Adjacent(current, n) && m.Enterable(n)
    ensures Links(m, start, dist[n := dist[current] + 1], pred[n := current])
  {
  }

  /** Queuing a new cell one step beyond current keeps the queue in band and in order. */
  lemma BandAdded(dist: map<Coord, nat>, queue: seq<Coord>, current: Coord, n: Coord)
    requires Band(dist, queue, current) && n !in dist
    ensures Band(dist[n := dist[current] + 1], queue + [n], current)
  {
    var dist' := dist[n := dist[current] + 1];
    var queue' := queue + [n];
    forall j | 0 <= j < |queue'|
      ensures queue'[j] in dist' && dist'[current] <= dist'[queue'[j]] <= dist'[current] + 1
    {
      if j < |queue| { assert queue'[j] == queue[j]; }
    }
  }

  /** A newly visited cell that is queued keeps every visited cell covered. */
  lemma CoveredAdded(dist: map<Coord, nat>, done: set<Coord>, current: Coord, queue: seq<Coord>, n: Coord, d: nat)
    requires Covered(dist, done, current, queue)
    ensures Covered(dist[n := d], done, current, queue + [n])
  {
    var queue' := queue + [n];
    forall c | c in dist[n := d] ensures c in done || c == current || c in queue' {
      if c != n {
        if c in queue {
          var j :| 0 <= j < |queue| && queue[j] == c;
          assert queue'[j] == c;
        }
      } else {
        assert queue'[|queue|] == n;
      }
    }
  }

  /** Visiting a new cell leaves the expanded cells expanded, at their distances. */
  lemma DoneAdded(m: Maze, dist: map<Coord, nat>, done: set<Coord>, n: Coord, d: nat)
    requires DoneExpanded(m, dist, done) && n !in dist
    ensures DoneExpanded(m, dist[n := d], done)
    ensures forall u :: u in done ==> dist[n := d][u] == dist[u]
  {
    forall u | u in done ensures ExpandedUpTo(m, dist[n := d], u, 4) {
      assert ExpandedUpTo(m, dist, u, 4);
    }
  }

  /** Visiting move i's cell one step beyond current extends current's expansion to move i. */
  lemma ExpandedAdded(m: Maze, dist: map<Coord, nat>, current: Coord, i: int, n: Coord)
    requires current in dist && ExpandedUpTo(m, dist, current, i) && 0 <= i < 4 && n == Neighbor(current, i)
    requires n !in dist
    ensures ExpandedUpTo(m, dist[n := dist[current] + 1], current, i + 1)
    ensures dist[n := dist[current] + 1][current] == dist[current]
  {
    var dist' := dist[n := dist[current] + 1];
    forall k | 0 <= k < i + 1 && k < 4 && m.Enterable(Neighbor(current, k))
      ensures Neighbor(current, k) in dist' && dist'[Neighbor(current, k)] <= dist'[current] + 1
    {
      if k < i {
        assert Neighbor(current, k) in dist;
      }
    }
  }

  /** The links, the queue and the coverage after a move into an unvisited passage. */
  lemma ScanAddQueue(m: Maze, start: Coord, s: Search, done: set<Coord>, current: Coord, i: int, n: Coord)
    requires Links(m, start, s.dist, s.pred) && Band(s.dist, s.queue, current) && Covered(s.dist, done, current, s.queue)
    requires 0 <= i < 4 && n == Neighbor(current, i) && n !in s.dist && m.Enterable(n)
    ensures var r := Search(s.dist[n := s.dist[current] + 1], s.pred[n := current], s.queue + [n]);
      Links(m, start, r.dist, r.pred) && Band(r.dist, r.queue, current) && Covered(r.dist, done, current, r.queue)
  {
    NeighborAdjacent(current, i);
    LinkAdded(m, start, s.dist, s.pred, current, n);
    BandAdded(s.dist, s.queue, current, n);
    CoveredAdded(s.dist, done, current, s.queue, n, s.dist[current] + 1);
  }

  /** The expanded cells and current's expansion after a move into an unvisited passage. */
  lemma ScanAddExpanded(m: Maze, s: Search, done: set<Coord>, current: Coord, i: int, n: Coord)
    requires current in s.dist && DoneExpanded(m, s.dist, done) && (forall u :: u in done ==> s.dist[u] <= s.dist[current])
    requires ExpandedUpTo(m, s.dist, current, i) && 0 <= i < 4 && n == Neighbor(current, i) && n !in s.dist
    ensures var dist' := s.dist[n := s.dist[current] + 1];
      DoneExpanded(m, dist', done) && (forall u :: u in done ==> dist'[u] <= dist'[current]) &&
      ExpandedUpTo(m, dist', current, i + 1)
  {
    DoneAdded(m, s.dist, done, n, s.dist[current] + 1);
    ExpandedAdded(m, s.dist, current, i, n);
  }

  /** A move into an unvisited passage visits it one step beyond current and queues it. */
  lemma ScanAdd(m: Maze, start: Coord, end: Coord, s: Search, done: set<Coord>, current: Coord, i: int, n: Coord)
    requires ScanInv(m, start, end, s, done, current, i) && 0 <= i < 4 && n == Neighbor(current, i)
    requires m.InBounds(n) && n !in s.dist && m.Enterable(n)
    ensures ScanInv(m, start, end, Search(s.dist[n := s.dist[current] + 1], s.pred[n := current], s.queue + [n]),
      done, current, i + 1)
  {
    ScanAddQueue(m, start, s, done, current, i, n);
    ScanAddExpanded(m, s, done, current, i, n);
  }

  /** Once all four moves are scanned, current is expanded and the main invariant is back. */
  lemma ScanDone(m: Maze, start: Coord, end: Coord, s: Search, done: set<Coord>, current: Coord)
    requires ScanInv(m, start, end, s, done, current, 4)
    ensures BfsInv(m, start, end, s.dist, s.pred, s.queue, done + {current})
  {
  }

  /** The same invariant holds of equal states. */
  lemma InvSame(m: Maze, start: Coord, end: Coord, a: Search, b: Search, done: set<Coord>, current: Coord, i: int)
    requires ScanInv(m, start, end, a, done, current, i) && a == b
    ensures ScanInv(m, start, end, b, done, current, i)
  {
  }

  /** One move keeps the scan invariant. */
  lemma ScanStepInv(m: Maze, start: Coord, end: Coord, s: Search, done: set<Coord>, current: Coord, i: int)
    requires ScanInv(m, start, end, s, done, current, i) && 0 <= i < 4
    ensures ScanInv(m, start, end, ScanStep(m, s, current, i), done, current, i + 1)
  {
    var n := Neighbor(current, i);
    ScanStepCases(m, s, current, i);
    if m.InBounds(n) && n !in s.dist && m.Enterable(n) {
      ScanAdd(m, start, end, s, done, current, i, n);
      InvSame(m, start, end, Search(s.dist[n := s.dist[current] + 1], s.pred[n := current], s.queue + [n]),
        ScanStep(m, s, current, i), done, current, i + 1);
    } else {
      ScanSkip(m, start, end, s, done, current, i);
      InvSame(m, start, end, s, ScanStep(m, s, current, i), done, current, i + 1);
    }
  }

  /** The whole scan keeps the scan invariant. */
  lemma {:induction false} ScanUpToInv(m: Maze, start: Coord, end: Coord, s: Search, done: set<Coord>,
                                       current: Coord, i: int)
    requires ScanInv(m, start, end, s, done, current, 0) && 0 <= i <= 4
    ensures ScanInv(m, start, end, ScanUpTo(m, s, current, i), done, current, i)
    decreases i
  {
    if i > 0 {
      ScanUpToInv(m, start, end, s, done, current, i - 1);
      ScanStepInv(m, start, end, ScanUpTo(m, s, current, i - 1), done, current, i - 1);
    }
  }

  /** The number of in-bounds cells not yet visited. */
  ghost function Unvisited(m: Maze, dist: map<Coord, nat>): int {
    |AllCoords(m.height, m.width) - dist.Keys|
  }

  /** The scan either visits a new cell, so fewer cells are left unvisited, or changes nothing. */
  lemma {:induction false} ScanUpToMeasure(m: Maze, s: Search, current: Coord, i: int)
    requires 0 <= i <= 4 && current in s.dist
    ensures Unvisited(m, ScanUpTo(m, s, current, i).dist) < Unvisited(m, s.dist) || ScanUpTo(m, s, current, i) == s
    decreases i
  {
    if i > 0 {
      ScanUpToMeasure(m, s, current, i - 1);
      var t := ScanUpTo(m, s, current, i - 1);
      var n := Neighbor(current, i - 1);
      ScanStepCases(m, t, current, i - 1);
      if m.InBounds(n) && n !in t.dist && m.Enterable(n) {
        AllCoordsMember(m.height, m.width, n);
        RemainderShrinks(AllCoords(m.height, m.width), t.dist.Keys, t.dist[n := t.dist[current] + 1].Keys, n);
      }
    }
  }

  /** The cells of a sequence without repeats number as many as its length. */
  lemma {:induction false} DistinctCount(q: seq<Coord>)
    requires forall i, j :: 0 <= i < j < |q| ==> q[i] != q[j]
    ensures |set c | c in q| == |q|
    decreases |q|
  {
    if |q| > 0 {
      var r := q[..|q| - 1];
      DistinctCount(r);
      assert (set c | c in q) == (set c | c in r) + {q[|q| - 1]};
    }
  }

  lemma {:induction false} SubsetCount(a: set<Coord>, b: set<Coord>)
    requires a <= b
    ensures |a| <= |b|
    decreases |a|
  {
    if a != {} {
      var x :| x in a;
      SubsetCount(a - {x}, b - {x});
    }
  }

  /**
   * Every visited cell is expanded or queued, never both and never queued
   * twice, and visited cells lie in the grid: so each cell is queued at most
   * once and every polled cell is one of height * width.
   */
  lemma QueueCount(m: Maze, start: Coord, end: Coord, dist: map<Coord, nat>, pred: map<Coord, Coord>,
                   queue: seq<Coord>, done: set<Coord>)
    requires BfsInv(m, start, end, dist, pred, queue, done)
    ensures |done| + |queue| == |dist.Keys| <= m.height * m.width
  {
    var queued := set c | c in queue;
    DistinctCount(queue);
    assert dist.Keys == done + queued;
    assert done !! queued;
    forall c | c in dist ensures c in AllCoords(m.height, m.width) {
      AllCoordsMember(m.height, m.width, c);
    }
    SubsetCount(dist.Keys, AllCoords(m.height, m.width));
    AllCoordsCount(m.height, m.width);
  }

  // ---------------------------------------------------------------------
  // What the invariant gives when the loop stops.

  /**
   * While the queue's head is at distance D, every cell that some path from
   * start reaches in at most D steps is visited, no further than that path.
   */
  lemma {:induction false} NearCellsVisited(m: Maze, start: Coord, end: Coord, dist: map<Coord, nat>,
                                            pred: map<Coord, Coord>, queue: seq<Coord>, done: set<Coord>,
                                            p: seq<Coord>, x: Coord)
    requires BfsInv(m, start, end, dist, pred, queue, done) && |queue| > 0
    requires IsPath(m, p, start, x) && |p| - 1 <= dist[queue[0]]
    ensures x in dist && dist[x] <= |p| - 1
    decreases |p|
  {
    if |p| > 1 {
      var q := p[..|p| - 1];
      var y := q[|q| - 1];
      PathPrefix(m, p, start, x, |p| - 1);
      NearCellsVisited(m, start, end, dist, pred, queue, done, q, y);
      assert forall j :: 0 <= j < |queue| ==> queue[j] != y;
      assert y in done;
      var k := AdjacentIsNeighbor(y, x);
      assert ExpandedUpTo(m, dist, y, 4);
    }
  }

  /** When end heads the queue, no path from start to end has fewer cells than its distance says. */
  lemma EndIsNearest(m: Maze, start: Coord, end: Coord, dist: map<Coord, nat>, pred: map<Coord, Coord>,
                     queue: seq<Coord>, done: set<Coord>)
    requires BfsInv(m, start, end, dist, pred, queue, done) && |queue| > 0 && queue[0] == end
    ensures forall p :: IsPath(m, p, start, end) ==> dist[end] + 1 <= |p|
  {
    forall p | IsPath(m, p, start, end) ensures dist[end] + 1 <= |p| {
      if |p| - 1 <= dist[end] {
        NearCellsVisited(m, start, end, dist, pred, queue, done, p, end);
      }
    }
  }

  /** With every visited cell expanded, every cell a path from start reaches is visited. */
  lemma {:induction false} ReachedCellsVisited(m: Maze, start: Coord, end: Coord, dist: map<Coord, nat>,
                                               pred: map<Coord, Coord>, done: set<Coord>, p: seq<Coord>, x: Coord)
    requires BfsInv(m, start, end, dist, pred, [], done)
    requires IsPath(m, p, start, x)
    ensures x in done
    decreases |p|
  {
    if |p| > 1 {
      var q := p[..|p| - 1];
      var y := q[|q| - 1];
      PathPrefix(m, p, start, x, |p| - 1);
      ReachedCellsVisited(m, start, end, dist, pred, done, q, y);
      var k := AdjacentIsNeighbor(y, x);
      assert ExpandedUpTo(m, dist, y, 4);
    }
  }

  /** When the queue runs dry before end is taken, end is unreachable. */
  lemma EndUnreachable(m: Maze, start: Coord, end: Coord, dist: map<Coord, nat>, pred: map<Coord, Coord>,
                       done: set<Coord>)
    requires BfsInv(m, start, end, dist, pred, [], done)
    ensures !Reachable(m, start, end)
  {
    if Reachable(m, start, end) {
      var p :| IsPath(m, p, start, end);
      ReachedCellsVisited(m, start, end, dist, pred, done, p, end);
    }
  }

  // ---------------------------------------------------------------------
  // Reading the path back.

  /** The cells from start to c along the recorded predecessors. */
  ghost function Chain(m: Maze, start: Coord, dist: map<Coord, nat>, pred: map<Coord, Coord>, c: Coord): seq<Coord>
    requires Links(m, start, dist, pred) && c in dist
    decreases dist[c]
  {
    if c in pred then Chain(m, start, dist, pred, pred[c]) + [c] else [c]
  }

  /** The predecessor chain of c is a path from start to c with one cell per step of c's distance. */
  lemma {:induction false} ChainIsPath(m: Maze, start: Coord, dist: map<Coord, nat>, pred: map<Coord, Coord>, c: Coord)
    requires Links(m, start, dist, pred) && c in dist
    ensures IsPath(m, Chain(m, start, dist, pred, c), start, c)
    ensures |Chain(m, start, dist, pred, c)| == dist[c] + 1
    decreases dist[c]
  {
    if c in pred {
      ChainIsPath(m, start, dist, pred, pred[c]);
      var p := Chain(m, start, dist, pred, pred[c]);
      assert Chain(m, start, dist, pred, c) == p + [c];
    }
  }

  /** The array slots mirror the search state: visited means in `dist`, a slot holds the recorded predecessor. */
  ghost predicate Tracks(visited: array2<bool>, predecessors: array2<Option<Coord>>,
                         dist: map<Coord, nat>, pred: map<Coord, Coord>)
    reads visited, predecessors
  {
    predecessors.Length0 == visited.Length0 && predecessors.Length1 == visited.Length1 &&
    (forall c :: c in dist ==> 0 <= c.row < visited.Length0 && 0 <= c.col < visited.Length1) &&
    (forall r, c :: 0 <= r < visited.Length0 && 0 <= c < visited.Length1 ==>
      (visited[r, c] <==> Coord(r, c) in dist) &&
      predecessors[r, c] == (if Coord(r, c) in pred then Some(pred[Coord(r, c)]) else None))
  }

  /**
   * The path reconstruction: walks the predecessor slots back from end until
   * a slot is empty, collecting the cells, then reverses them.
   */
  method TracePath(predecessors: array2<Option<Coord>>, visited: array2<bool>, ghost m: Maze, start: Coord,
                   ghost dist: map<Coord, nat>, ghost pred: map<Coord, Coord>, end: Coord)
    returns (path: seq<Coord>)
    requires Tracks(visited, predecessors, dist, pred) && Links(m, start, dist, pred) && end in dist
    ensures path == Chain(m, start, dist, pred, end)
  {
    path := [];
    var step := Some(end);
    while step.Some?
      invariant step.Some? ==> step.value in dist
      invariant step.Some? ==> Chain(m, start, dist, pred, step.value) + Reverse(path) == Chain(m, start, dist, pred, end)
      invariant step.None? ==> Reverse(path) == Chain(m, start, dist, pred, end)
      decreases if step.Some? then dist[step.value] + 1 else 0
    {
      var c := step.value;
      ReverseSnoc(path, c);
      path := path + [c];
      step := predecessors[c.row, c.col];
      if c in pred {
        assert Chain(m, start, dist, pred, c) == Chain(m, start, dist, pred, pred[c]) + [c];
      }
    }
    path := Reverse(path);
  }

  // ---------------------------------------------------------------------
  // The solver.

  /**
   * The solver: the result is empty exactly when end cannot be reached, and
   * otherwise a path from start to end with the fewest cells; a start equal
   * to end gives [start]. The maze is a value, so it is only read.
   */
  method Solve(maze: Maze, start: Coord, end: Coord) returns (path: seq<Coord>)
    requires maze.Valid() && maze.InBounds(start)
    ensures path == [] <==> !Reachable(maze, start, end)
    ensures path != [] ==> ShortestPath(maze, path, start, end)
    ensures start == end ==> path == [start]
  {
    var height := maze.height;
    var width := maze.width;
    var visited := new bool[height, width]((r, c) => false);
    var predecessors := new Option<Coord>[height, width]((r, c) => None);
    var queue := [start];
    visited[start.row, start.col] := true;
    ghost var dist: map<Coord, nat> := map[start := 0];
    ghost var pred: map<Coord, Coord> := map[];
    ghost var done: set<Coord> := {};
    ghost var polls: nat := 0;
    InitialInv(maze, start, end);
    QueueCount(maze, start, end, dist, pred, queue, done);
    while queue != []
      invariant visited.Length0 == height && visited.Length1 == width
      invariant Tracks(visited, predecessors, dist, pred)
      invariant BfsInv(maze, start, end, dist, pred, queue, done)
      invariant polls == |done| <= height * width
      decreases Unvisited(maze, dist), |queue|
    {
      var current := queue[0];
      if current == end {
        EndIsNearest(maze, start, end, dist, pred, queue, done);
        path := TracePath(predecessors, visited, maze, start, dist, pred, end);
        ChainIsPath(maze, start, dist, pred, end);
        assert ShortestPath(maze, path, start, end);
        ShortestSelf(maze, path, start, end);
        return;
      }
      PopInv(maze, start, end, dist, pred, queue, done);
      ghost var queue0 := queue;
      queue := queue[1..];
      ghost var before := Search(dist, pred, queue);
      queue, dist, pred := ScanMoves(maze, visited, predecessors, dist, pred, queue, current);
      ScanUpToInv(maze, start, end, before, done, current, 4);
      ScanUpToMeasure(maze, before, current, 4);
      ScanDone(maze, start, end, Search(dist, pred, queue), done, current);
      PolledFresh(queue0, done);
      done := done + {current};
      polls := polls + 1;
      QueueCount(maze, start, end, dist, pred, queue, done);
    }
    EndUnreachable(maze, start, end, dist, pred, done);
    path := [];
  }

  /**
   * The scan of current's four moves: each in-bounds, unvisited PASSAGE
   * neighbour is marked visited, records current as its predecessor and
   * joins the queue.
   */
  method ScanMoves(maze: Maze, visited: array2<bool>, predecessors: array2<Option<Coord>>,
                   ghost dist: map<Coord, nat>, ghost pred: map<Coord, Coord>, queue: seq<Coord>, current: Coord)
    returns (queue': seq<Coord>, ghost dist': map<Coord, nat>, ghost pred': map<Coord, Coord>)
    requires maze.Valid() && visited.Length0 == maze.height && visited.Length1 == maze.width
    requires Tracks(visited, predecessors, dist, pred) && current in dist
    modifies visited, predecessors
    ensures Tracks(visited, predecessors, dist', pred')
    ensures Search(dist', pred', queue') == ScanUpTo(maze, Search(dist, pred, queue), current, 4)
  {
    queue', dist', pred' := queue, dist, pred;
    var dRows := DRows;
    var dCols := DCols;
    for i := 0 to |dCols|
      invariant Tracks(visited, predecessors, dist', pred')
      invariant Search(dist', pred', queue') == ScanUpTo(maze, Search(dist, pred, queue), current, i)
    {
      var newRow := current.row + dRows[i];
      var newCol := current.col + dCols[i];
      var n := Coord(newRow, newCol);
      assert n == Neighbor(current, i);
      ghost var s := Search(dist', pred', queue');
      assert ScanUpTo(maze, Search(dist, pred, queue), current, i + 1) == ScanStep(maze, s, current, i);
      ScanStepCases(maze, s, current, i);
      if 0 <= newRow < maze.height && 0 <= newCol < maze.width &&
         !visited[newRow, newCol] && maze.grid[newRow][newCol].cellType == Passage {
        assert maze.InBounds(n) && n !in dist' && maze.Enterable(n);
        ghost var next := Search(dist'[n := dist'[current] + 1], pred'[n := current], queue' + [n]);
        assert ScanStep(maze, s, current, i) == next;
        dist', pred' := MarkVisited(visited, predecessors, dist', pred', n, current, dist'[current] + 1);
        queue' := queue' + [n];
        assert Search(dist', pred', queue') == next;
      } else {
        assert !(maze.InBounds(n) && n !in dist' && maze.Enterable(n));
        assert Search(dist', pred', queue') == ScanStep(maze, s, current, i);
      }
    }
  }

  /** Marks n visited, at distance d, reached from current. */
  method MarkVisited(visited: array2<bool>, predecessors: array2<Option<Coord>>, ghost dist: map<Coord, nat>,
                     ghost pred: map<Coord, Coord>, n: Coord, current: Coord, ghost d: nat)
    returns (ghost dist': map<Coord, nat>, ghost pred': map<Coord, Coord>)
    requires Tracks(visited, predecessors, dist, pred)
    requires 0 <= n.row < visited.Length0 && 0 <= n.col < visited.Length1
    modifies visited, predecessors
    ensures dist' == dist[n := d] && pred' == pred[n := current] && dist'.Keys == dist.Keys + {n}
    ensures Tracks(visited, predecessors, dist', pred')
  {
    visited[n.row, n.col] := true;
    predecessors[n.row, n.col] := Some(current);
    dist', pred' := dist[n := d], pred[n := current];
  }

  /**
   * A shortest path from s to s is [s]; a shortest path is a witness of
   * reachability. Together with Solve's contract this fixes the result for
   * start == end and makes it empty only when end is unreachable.
   */
  lemma ShortestSelf(m: Maze, p: seq<Coord>, s: Coord, e: Coord)
    requires ShortestPath(m, p, s, e)
    ensures p != [] && Reachable(m, s, e)
    ensures s == e ==> p == [s]
  {
    if s == e {
      assert IsPath(m, [s], s, s);
    }
  }
}
