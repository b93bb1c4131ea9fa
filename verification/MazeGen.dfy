/** Generation of the maze: mark_maze_area and make_maze of mp2/maze.c. */
module MazeGen {
  import opened Finite
  import opened MazeLattice
  import opened MazeConnect
  import opened MazePlay
  import opened MazeWorms
  import opened WormRun

  /** What is true of the queue and of the marks while the search runs. */
  ghost predicate Frontier(pts: set<int>, w: int, s: int, g0: Grid, g: Grid, q: seq<int>) {
    && |q| > 0 && q[0] == s
    && Distinct(q)
    && (forall n :: n in q ==> n in pts && Reach(g0, w, Marked(pts, g0), s, n))
    && MarkedBy(g0, g, Elements(q))
  }

  /** All that the queue entry a leads to has been seen. */
  ghost predicate Explored(w: int, g0: Grid, g: Grid, a: int) {
    forall b :: Edge(g0, w, a, b) && 0 <= b < |g| ==> g[b].reach
  }

  /** The look from cur in direction step has been done. */
  ghost predicate Seen(g0: Grid, g: Grid, cur: int, step: int) {
    Open(g0, cur + step) && 0 <= cur + 2 * step < |g| ==> g[cur + 2 * step].reach
  }

  lemma FourLooks(w: int, g0: Grid, g: Grid, cur: int)
    requires Seen(g0, g, cur, -w) && Seen(g0, g, cur, 1) && Seen(g0, g, cur, w) && Seen(g0, g, cur, -1)
    ensures Explored(w, g0, g, cur)
  {
  }

  ghost predicate MoreMarks(g: Grid, g': Grid) {
    |g| == |g'| && forall n :: 0 <= n < |g| && g[n].reach ==> g'[n].reach
  }

  /** Every entry of q has been explored. */
  ghost predicate AllExplored(w: int, g0: Grid, g: Grid, q: seq<int>) {
    forall a :: a in q ==> Explored(w, g0, g, a)
  }

  lemma ExploredOneMore(w: int, g0: Grid, g: Grid, g': Grid, q: seq<int>, k: int)
    requires 0 <= k < |q| && AllExplored(w, g0, g, q[..k]) && MoreMarks(g, g') && Explored(w, g0, g', q[k])
    ensures AllExplored(w, g0, g', q[..k + 1])
  {
    forall a | a in q[..k + 1] ensures Explored(w, g0, g', a) {
      assert a == q[k] || a in q[..k];
    }
  }

  /** When every entry has been explored, the queue holds the area. */
  lemma FrontierComplete(pts: set<int>, w: int, s: int, g0: Grid, g: Grid, q: seq<int>)
    requires LatticePoints(pts, w) && Fenced(pts, w, g0) && Frontier(pts, w, s, g0, g, q)
    requires AllExplored(w, g0, g, q)
    ensures Elements(q) == Area(pts, w, g0, s)
    ensures |q| == |Area(pts, w, g0, s)|
  {
    forall n | n in Area(pts, w, g0, s) ensures n in Elements(q) {
      forall a, b | a in Elements(q) && Edge(g0, w, a, b) && b !in Marked(pts, g0) ensures b in Elements(q) {
        assert a in q && b in pts;
        assert Explored(w, g0, g, a);
        assert g[b].reach;
      }
      ReachClosed(g0, w, Marked(pts, g0), s, n, Elements(q));
    }
    forall n | n in Elements(q) ensures n in Area(pts, w, g0, s) { assert n in q; }
    DistinctSize(q);
  }

  /** The queue cannot overflow: its entries are distinct lattice points. */
  lemma QueueHasRoom(pts: set<int>, q: seq<int>, next: int)
    requires Distinct(q) && (forall n :: n in q ==> n in pts)
    requires next in pts && next !in q
    ensures |q| < |pts|
  {
    DistinctSize(q + [next]);
    forall n | n in Elements(q + [next]) ensures n in pts { assert n in q || n == next; }
    SubsetSize(Elements(q + [next]), pts);
  }

  lemma PointsFit(d: Dims)
    requires d.Valid()
    ensures |d.Points()| <= MAZE_MAX_X_DIM * MAZE_MAX_Y_DIM
  {
    PointCount(d);
    MulLe(d.xd, d.yd, MAZE_MAX_X_DIM, MAZE_MAX_Y_DIM);
  }

  /** Marking and enqueuing a point found behind an open cell keeps the frontier. */
  lemma Enqueue(pts: set<int>, w: int, s: int, g0: Grid, g: Grid, q: seq<int>, cur: int, next: int)
    requires LatticePoints(pts, w) && Fenced(pts, w, g0) && Frontier(pts, w, s, g0, g, q)
    requires cur in q && Edge(g0, w, cur, next)
    requires next in pts && !g[next].reach
    ensures next !in q
    ensures Frontier(pts, w, s, g0, g[next := g[next].(reach := true)], q + [next])
  {
    assert next !in Elements(q);
    assert next !in Marked(pts, g0);
    ReachStep(g0, w, Marked(pts, g0), s, cur, next);
    var q', g' := q + [next], g[next := g[next].(reach := true)];
    assert Elements(q') == Elements(q) + {next};
    assert MarkedBy(g0, g', Elements(q'));
  }

  /** The state in the middle of one entry: the looks of `seen` are done since queue q0 and grid m0. */
  ghost predicate Looking(g: Grid, q: seq<int>, cur: int, seen: set<int>, g0: Grid, q0: seq<int>, m0: Grid) {
    && cur in q0 && q0 <= q
    && MoreMarks(m0, g)
    && forall step :: step in seen ==> Seen(g0, g, cur, step)
  }

  lemma LookMarks(g: Grid, q: seq<int>, cur: int, step: int, seen: set<int>, g0: Grid, q0: seq<int>, m0: Grid)
    requires Looking(g, q, cur, seen, g0, q0, m0) && 0 <= cur + 2 * step < |g|
    ensures Looking(g[cur + 2 * step := g[cur + 2 * step].(reach := true)], q + [cur + 2 * step], cur,
              seen + {step}, g0, q0, m0)
  {
  }

  lemma LookFinds(g: Grid, q: seq<int>, cur: int, step: int, seen: set<int>, g0: Grid, q0: seq<int>, m0: Grid)
    requires Looking(g, q, cur, seen, g0, q0, m0) && Seen(g0, g, cur, step)
    ensures Looking(g, q, cur, seen + {step}, g0, q0, m0)
  {
  }

  // ----- digging -----

  lemma AllPointsWalled(d: Dims, g: Grid)
    requires d.Valid() && |g| == MAZE_LEN && forall n :: 0 <= n < |g| ==> g[n] == WALL
    ensures Digging(d.Points(), d.Row(), g, d.xd * d.yd)
  {
    PointsAreLattice(d);
    AllWalls(d.Points(), d.Row(), g);
    PointCount(d);
  }

  predicate Unmarked(g: Grid, n: int) { 0 <= n < |g| && !g[n].reach }

  lemma UnmarkedExists(d: Dims, g: Grid)
    requires d.Valid() && |g| == MAZE_LEN && exists n :: n in d.Points() && n !in Marked(d.Points(), g)
    ensures exists x, y :: OddIn(d, x, y) && Unmarked(g, d.MazeIndex(x, y))
  {
    var n :| n in d.Points() && n !in Marked(d.Points(), g);
    var x, y := PointCoordinates(d, n);
    assert OddIn(d, x, y) && Unmarked(g, d.MazeIndex(x, y));
  }

  // ----- steps of the joining phase -----

  /** g is g0 with the cell between the point c and its marked lattice neighbour m opened. */
  ghost predicate JoinedTo(d: Dims, g0: Grid, g: Grid, c: int, m: int) {
    && m in Marked(d.Points(), g0)
    && (m == c - 2 * d.Row() || m == c + 2 || m == c + 2 * d.Row() || m == c - 2)
    && 0 <= Middle(c, m) < |g0| && g == g0[Middle(c, m) := NONE]
  }

  /** The cells that make_maze inspects around (x,y) are the lattice neighbours. */
  lemma LatticeNeighbours(d: Dims, g: Grid, x: int, y: int)
    requires d.Valid() && OddIn(d, x, y) && |g| == MAZE_LEN
    requires 0 <= d.MazeIndex(x, y) < MAZE_LEN && !g[d.MazeIndex(x, y)].reach
    ensures 2 * d.Row() < d.MazeIndex(x, y) < MAZE_LEN - d.Row()
    ensures y > 1 ==> InMarked(d, g, d.MazeIndex(x, y) - 2 * d.Row(), x / 2, y / 2 - 1)
    ensures x > 1 ==> InMarked(d, g, d.MazeIndex(x, y) - 2, x / 2 - 1, y / 2)
    ensures x < 2 * d.xd - 1 ==> InMarked(d, g, d.MazeIndex(x, y) + 2, x / 2 + 1, y / 2)
    ensures y < 2 * d.yd - 1 ==> InMarked(d, g, d.MazeIndex(x, y) + 2 * d.Row(), x / 2, y / 2 + 1)
    ensures d.InLattice(x / 2, y / 2) && d.Point(x / 2, y / 2) == d.MazeIndex(x, y)
    ensures d.Point(x / 2, y / 2) !in Marked(d.Points(), g)
  {
    OddPoint(d, x, y);
    PointBounds(d, d.MazeIndex(x, y));
    Sides(d, x, y);
    NeighbourIsMarked(d, g, x, y, 0, -1);
    NeighbourIsMarked(d, g, x, y, -1, 0);
    NeighbourIsMarked(d, g, x, y, 1, 0);
    NeighbourIsMarked(d, g, x, y, 0, 1);
  }

  /** The neighbours that exist, two cells or two rows away from n, are in the array. */
  predicate SidesFit(len: int, n: int, w: int, up: bool, left: bool, right: bool, down: bool) {
    && w > 2 && w <= n && n + w < len
    && (up ==> 2 * w <= n) && (down ==> n + 2 * w < len) && (left ==> 2 <= n) && (right ==> n + 2 < len)
  }

  /** The step to the first marked neighbour in the order up, left, right, down; 0 if there is none. */
  function FirstMarked(g: Grid, n: int, w: int, up: bool, left: bool, right: bool, down: bool): int
    requires SidesFit(|g|, n, w, up, left, right, down)
  {
    if up && g[n - 2 * w].reach then -2 * w
    else if left && g[n - 2].reach then -2
    else if right && g[n + 2].reach then 2
    else if down && g[n + 2 * w].reach then 2 * w
    else 0
  }

  lemma PointSidesFit(d: Dims, x: int, y: int)
    requires d.Valid() && OddIn(d, x, y)
    ensures SidesFit(MAZE_LEN, d.MazeIndex(x, y), d.Row(), y > 1, x > 1, x < 2 * d.xd - 1, y < 2 * d.yd - 1)
  {
    OddPoint(d, x, y);
    PointBounds(d, d.MazeIndex(x, y));
    NeighbourCells(d, x, y);
    IndexStep(d, x, y, 0, 1);
  }

  /** The four tests of make_maze find a marked lattice neighbour if and only if there is one. */
  lemma FirstMarkedJoins(d: Dims, g: Grid, x: int, y: int, n: int, step: int)
    requires d.Valid() && OddIn(d, x, y) && |g| == MAZE_LEN && n == d.MazeIndex(x, y)
    requires SidesFit(MAZE_LEN, n, d.Row(), y > 1, x > 1, x < 2 * d.xd - 1, y < 2 * d.yd - 1)
    requires !g[n].reach && step == FirstMarked(g, n, d.Row(), y > 1, x > 1, x < 2 * d.xd - 1, y < 2 * d.yd - 1)
    ensures step != 0 <==> Joinable(d, Marked(d.Points(), g), x / 2, y / 2)
    ensures step != 0 ==> 0 <= n + step / 2 < |g| && JoinedTo(d, g, g[n + step / 2 := NONE], n, n + step)
  {
    LatticeNeighbours(d, g, x, y);
    assert step != 0 ==> Middle(n, n + step) == n + step / 2;
  }

  ghost predicate InMarked(d: Dims, g: Grid, n: int, i: int, j: int) {
    0 <= n < |g| && n == d.Point(i, j) && (g[n].reach <==> n in Marked(d.Points(), g))
  }

  lemma NeighbourIsMarked(d: Dims, g: Grid, x: int, y: int, dx: int, dy: int)
    requires d.Valid() && |g| == MAZE_LEN && OddIn(d, x, y)
    requires -1 <= dx <= 1 && -1 <= dy <= 1
    ensures OddIn(d, x + 2 * dx, y + 2 * dy) ==>
              InMarked(d, g, d.MazeIndex(x, y) + 2 * dx + 2 * dy * d.Row(), x / 2 + dx, y / 2 + dy)
  {
    if OddIn(d, x + 2 * dx, y + 2 * dy) {
      IndexStep(d, x, y, dx, dy);
      OddPoint(d, x + 2 * dx, y + 2 * dy);
    }
  }

  lemma BrokenWall(d: Dims, g0: Grid, g1: Grid, remaining: int, c: int, m: int)
    requires d.Valid() && Connecting(d.Points(), d.Row(), d.Point(0, 0), g0, remaining)
    requires c in d.Points() && JoinedTo(d, g0, g1, c, m)
    requires 0 <= c < |g0| && !g0[c].reach
    ensures Fenced(d.Points(), d.Row(), g1)
    ensures c !in Marked(d.Points(), g0)
  {
    PointsAreLattice(d);
    assert c !in Walled(d.Points(), g0) && m !in Walled(d.Points(), g0);
    OpenPassageShape(d.Points(), d.Row(), g0, c, m);
    ShapeIsFenced(d.Points(), d.Row(), g1);
  }

  lemma StartConnecting(d: Dims, g0: Grid)
    requires d.Valid() && Digging(d.Points(), d.Row(), g0, 0)
    ensures d.MazeIndex(1, 1) == d.Point(0, 0) && d.Point(0, 0) in d.Points()
    ensures Fenced(d.Points(), d.Row(), g0)
  {
    LatticeStep(d, 0, 0);
    PointsAreLattice(d);
    ShapeIsFenced(d.Points(), d.Row(), g0);
  }

  lemma FirstMarkDone(d: Dims, g0: Grid, g: Grid)
    requires d.Valid() && Digging(d.Points(), d.Row(), g0, 0)
    requires MarkedBy(g0, g, Area(d.Points(), d.Row(), g0, d.Point(0, 0)))
    ensures Connecting(d.Points(), d.Row(), d.Point(0, 0), g,
                       d.xd * d.yd - |Area(d.Points(), d.Row(), g0, d.Point(0, 0))|)
  {
    LatticeStep(d, 0, 0);
    PointsAreLattice(d);
    PointCount(d);
    FirstMark(d.Points(), d.Row(), d.Point(0, 0), g0, g);
  }

  lemma UnfinishedDims(d: Dims, g: Grid, remaining: int)
    requires Connecting(d.Points(), d.Row(), d.Point(0, 0), g, remaining)
    ensures remaining >= 0
    ensures remaining > 0 ==> exists n :: n in d.Points() && n !in Marked(d.Points(), g)
  {
    Unfinished(d.Points(), d.Row(), d.Point(0, 0), g, remaining);
  }

  /** A point that the scan can join, as long as there is an unmarked point. */
  lemma Target(d: Dims, g: Grid, remaining: int) returns (ti: int, tj: int)
    requires d.Valid() && Connecting(d.Points(), d.Row(), d.Point(0, 0), g, remaining)
    ensures d.InLattice(ti, tj) && remaining >= 0
    ensures remaining > 0 ==> Joinable(d, Marked(d.Points(), g), ti, tj)
  {
    UnfinishedDims(d, g, remaining);
    ti, tj := 0, 0;
    if remaining > 0 {
      var n :| n in d.Points() && n !in Marked(d.Points(), g);
      var i, j :| 0 <= i < d.xd && 0 <= j < d.yd && n == d.Point(i, j);
      ti, tj := JoinableExists(d, Marked(d.Points(), g), i, j);
    }
  }

  lemma ScanAdvanceOdd(d: Dims, x: int, y: int, x': int, y': int, ti: int, tj: int)
    requires d.Valid() && OddIn(d, x, y) && OddIn(d, x', y') && d.InLattice(ti, tj)
    requires if x / 2 + 1 < d.xd then x' / 2 == x / 2 + 1 && y' == y
             else x' == 1 && y' / 2 == (if y / 2 + 1 < d.yd then y / 2 + 1 else 0)
    ensures (x' / 2, y' / 2) == (ti, tj)
         || 0 <= Turns(d.xd * d.yd, ScanIndex(d, x' / 2, y' / 2), ScanIndex(d, ti, tj))
              < Turns(d.xd * d.yd, ScanIndex(d, x / 2, y / 2), ScanIndex(d, ti, tj))
  {
    ScanAdvance(d, x / 2, y / 2, x' / 2, y' / 2, ti, tj);
  }

  // ----- finishing the maze -----

  ghost predicate ClearedBy(g0: Grid, g: Grid, s: set<int>) {
    |g| == |g0| && forall n :: 0 <= n < |g| ==> g[n] == if n in s then g0[n].(reach := false) else g0[n]
  }

  ghost predicate EmptiedBy(g0: Grid, g: Grid, s: set<int>) {
    |g| == |g0| && forall n :: 0 <= n < |g| ==> g[n] == if n in s then NONE else g0[n]
  }

  lemma MarksCleared(d: Dims, g0: Grid, g: Grid, done: set<int>)
    requires d.Valid() && Connecting(d.Points(), d.Row(), d.Point(0, 0), g0, 0)
    requires ClearedBy(g0, g, done)
    requires forall x, y :: OddIn(d, x, y) ==> d.MazeIndex(x, y) in done
    ensures Blank(g) && AllJoined(d, g) && LatticeShape(d.Points(), d.Row(), g)
  {
    ConnectedIsJoined(d, g0);
    JoinedWithFewerWalls(d, g0, g);
    PointsDone(d, done);
    ClearedShape(d.Points(), d.Row(), g0, g, done);
  }

  lemma PointsDone(d: Dims, done: set<int>)
    requires d.Valid()
    requires forall x, y :: OddIn(d, x, y) ==> d.MazeIndex(x, y) in done
    ensures d.Points() <= done
  {
    forall n | n in d.Points() ensures n in done {
      var x, y := PointCoordinates(d, n);
      assert OddIn(d, x, y);
    }
  }

  lemma ClearedShape(pts: set<int>, w: int, g0: Grid, g: Grid, done: set<int>)
    requires LatticeShape(pts, w, g0) && ClearedBy(g0, g, done) && pts <= done
    ensures LatticeShape(pts, w, g) && Blank(g)
  {
    forall n | 0 <= n < |g| ensures CellShape(pts, w, g, n) && !g[n].reach {
      assert CellShape(pts, w, g0, n);
    }
  }

  lemma WallsRemoved(d: Dims, g0: Grid, g: Grid, done: set<int>)
    requires d.Valid() && Blank(g0) && AllJoined(d, g0) && Bordered(d, g0)
    requires EmptiedBy(g0, g, done) && done <= Interior(d)
    requires forall x, y :: 0 < x < 2 * d.xd && 0 < y < 2 * d.yd ==> d.MazeIndex(x, y) in done
    ensures Blank(g) && AllJoined(d, g) && Bordered(d, g)
    ensures forall n :: 0 <= n < |g| ==> (g[n].wall <==> n !in Interior(d))
  {
    JoinedWithFewerWalls(d, g0, g);
    forall n | n in Interior(d) ensures n in done {
      var x, y :| 0 < x < 2 * d.xd && 0 < y < 2 * d.yd && n == d.MazeIndex(x, y);
    }
  }

  datatype MakeResult = SizeRefused | OutOfRandom | Made

  /** g is g0 with some fruits on lattice points. */
  ghost predicate Furnished(d: Dims, g0: Grid, g: Grid) {
    && SameWalls(g0, g) && Fruits(g) <= d.Points()
    && forall n :: 0 <= n < |g| ==> g[n].reach == g0[n].reach
  }

  lemma OneMoreFruit(d: Dims, g0: Grid, g: Grid, g': Grid, x: int, y: int, f: Fruit)
    requires d.Valid() && OddIn(d, x, y) && 0 <= d.MazeIndex(x, y) < |g| && Furnished(d, g0, g)
    requires g' == g[d.MazeIndex(x, y) := g[d.MazeIndex(x, y)].(fruit := f)]
    requires Fruits(g') == Fruits(g) + {d.MazeIndex(x, y)}
    ensures Furnished(d, g0, g')
  {
    OddPoint(d, x, y);
  }

  /** The fruits stand on distinct places, each on its own, and there are no others. */
  ghost predicate FruitsStand(g: Grid, places: seq<int>, fruitNumbers: seq<Fruit>) {
    && |places| == |fruitNumbers| && Distinct(places)
    && (forall k :: 0 <= k < |places| ==> 0 <= places[k] < |g| && g[places[k]].fruit == fruitNumbers[k])
    && (forall n :: 0 <= n < |g| && n !in places ==> g[n].fruit == 0)
  }

  lemma OneMoreStands(g: Grid, g': Grid, places: seq<int>, fruitNumbers: seq<Fruit>, k: nat, n: int)
    requires k < |fruitNumbers| && FruitsStand(g, places, fruitNumbers[..k])
    requires forall i :: 0 <= i < |fruitNumbers| ==> fruitNumbers[i] != 0
    requires 0 <= n < |g| && g[n].fruit == 0 && g' == g[n := g[n].(fruit := fruitNumbers[k])]
    ensures FruitsStand(g', places + [n], fruitNumbers[..k + 1])
  {
    assert n !in places;
  }

  ghost predicate ExitUnfruited(d: Dims, g: Grid, x: int, y: int) {
    0 <= d.MazeIndex(x, y) < |g| && g[d.MazeIndex(x, y)].exit && g[d.MazeIndex(x, y)].fruit == 0
  }

  ghost predicate Unseen(g: Grid) { forall n :: 0 <= n < |g| ==> !g[n].reach }

  lemma FinishedMaze(d: Dims, g0: Grid, g1: Grid, g: Grid, nFruits: int, x: int, y: int)
    requires d.Valid() && OddIn(d, x, y) && |g0| == MAZE_LEN
    requires AllJoined(d, g0) && Bordered(d, g0) && Furnished(d, g0, g1) && nFruits == |Fruits(g1)|
    requires forall n :: 0 <= n < |g1| ==> !g1[n].exit
    requires 0 <= d.MazeIndex(x, y) < |g1|
    requires g == g1[d.MazeIndex(x, y) := g1[d.MazeIndex(x, y)].(exit := true)]
    requires g1[d.MazeIndex(x, y)].fruit == 0 && Blank(g0)
    ensures Playable(d, g, nFruits, x, y) && AllJoined(d, g)
    ensures ExitUnfruited(d, g, x, y) && Unseen(g) && SameWalls(g0, g)
  {
    JoinedWithFewerWalls(d, g0, g);
    assert Fruits(g) == Fruits(g1);
  }

  class Maze {
    const maze: array<Cell>
    var dims: Dims
    var nFruits: int
    var exitX: int
    var exitY: int

    constructor ()
      ensures fresh(maze) && maze.Length == MAZE_LEN
    {
      maze := new Cell[MAZE_LEN](_ => NONE);
      dims, nFruits, exitX, exitY := Dims(0, 0), 0, 0, 0;
    }

    ghost predicate Ready()
      reads this
    {
      maze.Length == MAZE_LEN && dims.Valid()
    }

    /** The search from s, begun on g0, has the queue q[..qEnd]. */
    ghost predicate Searching(pts: set<int>, w: int, q: array<int>, qEnd: int, s: int, g0: Grid)
      reads this, maze, q
    {
      && q as object != maze
      && q.Length == MAZE_MAX_X_DIM * MAZE_MAX_Y_DIM && 0 < qEnd <= q.Length
      && LatticePoints(pts, w) && |pts| <= q.Length
      && Fenced(pts, w, g0)
      && Frontier(pts, w, s, g0, maze[..], q[..qEnd])
    }

    method MarkAndEnqueue(q: array<int>, qEnd: int, n: int) returns (end: int)
      requires q as object != maze && 0 <= qEnd < q.Length && 0 <= n < maze.Length
      modifies maze, q
      ensures maze[..] == old(maze[..])[n := old(maze[n]).(reach := true)]
      ensures end == qEnd + 1 && q[..end] == old(q[..qEnd]) + [n]
    {
      maze[n] := maze[n].(reach := true);
      q[qEnd] := n;
      end := qEnd + 1;
    }

    /** One of the four looks of the search: the next lattice point lies two steps from cur. */
    method Explore(q: array<int>, qEnd: int, cur: int, step: int, w: int,
                   ghost pts: set<int>, ghost s: int, ghost g0: Grid, ghost seen: set<int>, ghost q0: seq<int>,
                       ghost m0: Grid)
      returns (end: int)
      requires Searching(pts, w, q, qEnd, s, g0) && Looking(maze[..], q[..qEnd], cur, seen, g0, q0, m0)
      requires step == -w || step == 1 || step == w || step == -1
      modifies maze, q
      ensures Searching(pts, w, q, end, s, g0) && Looking(maze[..], q[..end], cur, seen + {step}, g0, q0, m0)
    {
      ghost var g, q1 := maze[..], q[..qEnd];
      assert cur in q1 && cur in pts;
      end := qEnd;
      assert Open(g0, cur + step) <==> !maze[cur + step].wall;
      if !maze[cur + step].wall {
        assert Edge(g0, w, cur, cur + 2 * step);
        if !maze[cur + 2 * step].reach {
          Enqueue(pts, w, s, g0, g, q1, cur, cur + 2 * step);
          LookMarks(g, q1, cur, step, seen, g0, q0, m0);
          QueueHasRoom(pts, q1, cur + 2 * step);
          end := MarkAndEnqueue(q, qEnd, cur + 2 * step);
          return;
        }
      }
      LookFinds(g, q1, cur, step, seen, g0, q0, m0);
    }

    /** Explores the four directions from the queue entry cur. */
    method Expand(q: array<int>, qEnd: int, cur: int, w: int, ghost pts: set<int>, ghost s: int, ghost g0: Grid)
      returns (end: int)
      requires Searching(pts, w, q, qEnd, s, g0) && cur in q[..qEnd]
      modifies maze, q
      ensures Searching(pts, w, q, end, s, g0) && old(q[..qEnd]) <= q[..end]
      ensures Explored(w, g0, maze[..], cur)
      ensures MoreMarks(old(maze[..]), maze[..])
    {
      ghost var q0, m0 := q[..qEnd], maze[..];
      end := Explore(q, qEnd, cur, -w, w, pts, s, g0, {}, q0, m0);
      end := Explore(q, end, cur, 1, w, pts, s, g0, {-w}, q0, m0);
      end := Explore(q, end, cur, w, w, pts, s, g0, {-w, 1}, q0, m0);
      end := Explore(q, end, cur, -1, w, pts, s, g0, {-w, 1, w}, q0, m0);
      FourLooks(w, g0, maze[..], cur);
    }

    /** The search itself, on any set of lattice points that fits into the queue. */
    method Search(start: int, w: int, ghost pts: set<int>) returns (count: int)
      requires LatticePoints(pts, w) && |pts| <= MAZE_MAX_X_DIM * MAZE_MAX_Y_DIM
      requires start in pts && Fenced(pts, w, maze[..])
      modifies maze
      ensures MarkedBy(old(maze[..]), maze[..], Area(pts, w, old(maze[..]), start))
      ensures count == |Area(pts, w, old(maze[..]), start)|
    {
      var q := new int[MAZE_MAX_X_DIM * MAZE_MAX_Y_DIM];
      ghost var g0 := maze[..];
      q[0] := start;
      maze[q[0]] := maze[q[0]].(reach := true);
      var qStart, qEnd := 0, 1;
      ReachSelf(g0, w, Marked(pts, g0), start);
      assert q[..qEnd] == [start];
      while qStart != qEnd
        invariant 0 <= qStart <= qEnd && Searching(pts, w, q, qEnd, start, g0)
        invariant AllExplored(w, g0, maze[..], q[..qStart])
        decreases q.Length - qStart
      {
        ghost var g, q0 := maze[..], q[..qEnd];
        var cur := q[qStart];
        qStart := qStart + 1;
        qEnd := Expand(q, qEnd, cur, w, pts, start, g0);
        ExploredOneMore(w, g0, g, maze[..], q0, qStart - 1);
        assert q[..qStart] == q0[..qStart];
      }
      FrontierComplete(pts, w, start, g0, maze[..], q[..qEnd]);
      count := qEnd;
    }

    /**
      Marks everything accessible from (x,y) without passing a marked point, and nothing else, and
      returns how many points that is.
    */
    method MarkMazeArea(x: int, y: int) returns (count: int)
      requires Ready() && dims.MazeIndex(x, y) in dims.Points()
      requires Fenced(dims.Points(), dims.Row(), maze[..])
      modifies maze
      ensures MarkedBy(old(maze[..]), maze[..], Area(dims.Points(), dims.Row(), old(maze[..]), dims.MazeIndex(x, y)))
      ensures count == |Area(dims.Points(), dims.Row(), old(maze[..]), dims.MazeIndex(x, y))|
    {
      PointsAreLattice(dims);
      PointsFit(dims);
      count := Search(dims.MazeIndex(x, y), dims.Row(), dims.Points());
    }

    // ----- worm phase -----

    /** The weight of one direction, which is 0 when it would leave the lattice. */
    method DirectionWeight(x: int, y: int, prefDir: int, dir: int) returns (weight: int)
      requires Ready() && OddIn(dims, x, y) && 0 <= prefDir < 4 && 0 <= dir < 4
      ensures weight == Weight(dims, maze[..], x, y, prefDir, dir)
    {
      weight := 0;
      var goesOn := if dir == 0 then y > 1 else if dir == 1 then x < dims.xd * 2 - 1
                    else if dir == 2 then y < dims.yd * 2 - 1 else x > 1;
      GoesOnIff(dims, x, y, dir);
      if goesOn {
        OddPoint(dims, x + 2 * Dx(dir), y + 2 * Dy(dir));
        weight := TurnWeight((prefDir + 4 - dir) % 4, maze[dims.MazeIndex(x + 2 * Dx(dir), y + 2 * Dy(dir))] == WALL);
      }
    }

    /** Chooses the worm's next direction (0 up, 1 right, 2 down, 3 left) by the cumulated weights. */
    method ChooseDirection(x: int, y: int, prefDir: int, r: nat) returns (dir: int)
      requires Ready() && OddIn(dims, x, y) && 0 <= prefDir < 4
      ensures 0 <= dir < 4 && LatticeGoesOn(dims, x, y, dir)
      ensures 0 < WeightSum(dims, maze[..], x, y, prefDir, 4)
      ensures WeightSum(dims, maze[..], x, y, prefDir, dir) <= r % WeightSum(dims, maze[..], x, y, prefDir, 4)
            < WeightSum(dims, maze[..], x, y, prefDir, dir + 1)
    {
      WeightSums(dims, maze[..], x, y, prefDir);
      var total := DirectionWeight(x, y, prefDir, 0);
      var wt := [total];
      var weight := DirectionWeight(x, y, prefDir, 1);
      total := total + weight;
      wt := wt + [total];
      weight := DirectionWeight(x, y, prefDir, 2);
      total := total + weight;
      wt := wt + [total];
      weight := DirectionWeight(x, y, prefDir, 3);
      total := total + weight;
      wt := wt + [total];
      var pick := r % total;
      dir := 0;
      while pick >= wt[dir]
        invariant 0 <= dir < 4
        invariant dir > 0 ==> wt[dir - 1] <= pick
        decreases 4 - dir
      {
        dir := dir + 1;
      }
      WeightSumIs(dims, maze[..], x, y, prefDir, wt);
    }

    /** Opens the passage from a to its neighbour b, and b itself if it is still a wall. */
    method DigTo(a: int, b: int, remaining: int, ghost pts: set<int>, ghost w: int) returns (remaining': int)
      requires LatticePoints(pts, w) && Digging(pts, w, maze[..], remaining)
      requires a in pts && b in pts && !maze[a].wall
      requires b == a - 2 * w || b == a + 2 || b == a + 2 * w || b == a - 2
      modifies maze
      ensures Digging(pts, w, maze[..], remaining')
      ensures !maze[b].wall && !maze[Middle(a, b)].wall
      ensures maze[..] == old(maze[..])[Middle(a, b) := NONE][b := NONE]
      ensures remaining' == if old(maze[b]) == WALL then remaining - 1 else remaining
    {
      ghost var g := maze[..];
      DigBoth(pts, w, g, remaining, a, b);
      maze[Middle(a, b)] := NONE;
      remaining' := remaining;
      if maze[b] == WALL {
        remaining' := remaining - 1;
      }
      maze[b] := NONE;
      assert maze[..] == g[Middle(a, b) := NONE][b := NONE];
    }

    /** The maze and these variables are the state s of the worm phase. */
    ghost predicate InState(s: Worms, x: int, y: int, remaining: int)
      reads maze
    {
      s == Worms(maze[..], s.stage, x, y, remaining)
    }

    /** Moves the worm one lattice step and digs its way. */
    method Dig(x: int, y: int, dir: int, remaining: int, ghost s: Worms)
      returns (x': int, y': int, remaining': int)
      requires Ready() && Sound(dims, s) && s.stage.Wander? && InState(s, x, y, remaining)
      requires 0 <= dir < 4 && LatticeGoesOn(dims, x, y, dir)
      modifies maze
      ensures (x', y') == (x + 2 * Dx(dir), y + 2 * Dy(dir)) && OddIn(dims, x', y')
      ensures InState(MoveOn(dims, s, dir), x', y', remaining')
      ensures Dug(dims.MazeIndex(x, y), dims.MazeIndex(x', y'), dims.Row(), old(maze[..]), maze[..])
    {
      PointsAreLattice(dims);
      x', y' := x + 2 * Dx(dir), y + 2 * Dy(dir);
      MoveIs(dims, s, dir, dims.MazeIndex(x, y), dims.MazeIndex(x', y'));
      remaining' := DigTo(dims.MazeIndex(x, y), dims.MazeIndex(x', y'), remaining, dims.Points(), dims.Row());
    }

    /** Digs on in the direction chosen, which keeps the worm's trail joined. */
    method DigOn(x: int, y: int, dir: int, remaining: int, ghost s: Worms, ghost rnd: seq<nat>, ghost k: nat,
                 ghost g0: Grid, ghost start: int)
      returns (x': int, y': int, remaining': int)
      requires Ready() && k < |rnd| && At(dims, rnd, k) == s && s.stage.Wander? && InState(s, x, y, remaining)
      requires Chosen(dims, s.g, x, y, s.stage.prefDir, rnd[k]) == dir && !TurnsRound(s.stage.prefDir, dir)
      requires Trail(dims, g0, maze[..], start, dims.MazeIndex(x, y))
      modifies maze
      ensures At(dims, rnd, k + 1) == Worms(maze[..], Wander(dir), x', y', remaining')
      ensures Trail(dims, g0, maze[..], start, dims.MazeIndex(x', y'))
    {
      ghost var g := maze[..];
      AtSound(dims, rnd, k);
      AtMove(dims, rnd, k, s, dir);
      x', y', remaining' := Dig(x, y, dir, remaining, s);
      OddPoint(dims, x, y);
      OddPoint(dims, x', y');
      TrailGrows(dims, g0, g, maze[..], start, dims.MazeIndex(x, y), dims.MazeIndex(x', y'));
    }

    /** One turn of a worm's loop: it turns round, or it digs on in the direction it has chosen. */
    method Wriggle(x: int, y: int, prefDir: int, rnd: seq<nat>, k: nat, remaining: int,
                   ghost s: Worms, ghost g0: Grid, ghost start: int)
      returns (ended: bool, dir: int, x': int, y': int, remaining': int)
      requires Ready() && k < |rnd| && At(dims, rnd, k) == s == Worms(maze[..], Wander(prefDir), x, y, remaining)
      requires Trail(dims, g0, maze[..], start, dims.MazeIndex(x, y))
      modifies maze
      ensures At(dims, rnd, k + 1) ==
              Worms(maze[..], if !ended then Wander(dir) else if remaining' > 0 then PickX else Finished,
                    x', y', remaining')
      ensures Trail(dims, g0, maze[..], start, dims.MazeIndex(x', y'))
    {
      dir := ChooseDirection(x, y, prefDir, rnd[k]);
      ChosenIs(dims, maze[..], x, y, prefDir, rnd[k], dir);
      ended, x', y', remaining' := (dir - prefDir + 4) % 4 == 2, x, y, remaining;
      if ended {
        AtTurn(dims, rnd, k, s, dir);
      } else {
        x', y', remaining' := DigOn(x, y, dir, remaining, s, rnd, k, g0, start);
      }
    }

    /**
      One worm: it wanders until it turns round, or until the random numbers are used up.  What it opens
      is joined to the point on which it started.
    */
    method Worm(x0: int, y0: int, rnd: seq<nat>, k0: nat, remaining0: int)
      returns (ok: bool, x: int, y: int, k: nat, remaining: int)
      requires Ready() && k0 <= |rnd|
      requires At(dims, rnd, k0).stage.Prefer? && InState(At(dims, rnd, k0), x0, y0, remaining0)
      modifies maze
      ensures k0 <= k <= |rnd| && InState(At(dims, rnd, k), x, y, remaining)
      ensures ok ==> k0 + 2 <= k && At(dims, rnd, k).stage == if remaining > 0 then PickX else Finished
      ensures !ok ==> k == |rnd| && !At(dims, rnd, k).stage.Finished?
      ensures Trail(dims, old(maze[..]), maze[..], dims.MazeIndex(x0, y0), dims.MazeIndex(x, y))
    {
      ghost var g0, start := maze[..], dims.MazeIndex(x0, y0);
      ok, x, y, k, remaining := false, x0, y0, k0, remaining0;
      NewTrail(dims, rnd, k, At(dims, rnd, k));
      if k < |rnd| {
        var prefDir := rnd[k] % 4;
        AtNext(dims, rnd, k);
        k := k + 1;
        while !ok && k < |rnd|
          invariant k0 < k <= |rnd| && (ok ==> k0 + 2 <= k) && Trail(dims, g0, maze[..], start, dims.MazeIndex(x, y))
          invariant At(dims, rnd, k) ==
                    Worms(maze[..], if !ok then Wander(prefDir) else if remaining > 0 then PickX else Finished,
                          x, y, remaining)
          decreases |rnd| - k
        {
          ok, prefDir, x, y, remaining := Wriggle(x, y, prefDir, rnd, k, remaining, At(dims, rnd, k), g0, start);
          k := k + 1;
        }
      }
    }

    /** Draws lattice points until one is still a wall, or until the random numbers are used up. */
    method PickWalled(rnd: seq<nat>, k0: nat, ghost x0: int, ghost y0: int, ghost remaining: int)
      returns (ok: bool, x: int, y: int, k: nat)
      requires Ready() && k0 <= |rnd|
      requires At(dims, rnd, k0) == Worms(maze[..], PickX, x0, y0, remaining)
      ensures OddIn(dims, x, y) && k0 <= k <= |rnd| && 0 <= dims.MazeIndex(x, y) < MAZE_LEN
      ensures ok ==> maze[dims.MazeIndex(x, y)].wall
      ensures ok ==>
                At(dims, rnd, k) == Worms(maze[..][dims.MazeIndex(x, y) := NONE], Prefer, x, y, remaining - 1)
      ensures !ok ==> !Suffices(dims, rnd)
    {
      ok, x, y, k := false, 1, 1, k0;
      OddPoint(dims, 1, 1);
      ghost var x1, y1 := x0, y0;
      while k + 2 <= |rnd|
        invariant OddIn(dims, x, y) && k0 <= k <= |rnd| && 0 <= dims.MazeIndex(x, y) < MAZE_LEN
        invariant At(dims, rnd, k) == Worms(maze[..], PickX, x1, y1, remaining)
        decreases |rnd| - k
      {
        x, y := Drawn(rnd[k], dims.xd), Drawn(rnd[k + 1], dims.yd);
        AtNext(dims, rnd, k);
        AtNext(dims, rnd, k + 1);
        k := k + 2;
        OddPoint(dims, x, y);
        if maze[dims.MazeIndex(x, y)].wall {
          ok := true;
          return;
        }
        x1, y1 := x, y;
      }
      if k < |rnd| {
        AtNext(dims, rnd, k);
      }
    }

    /** Empties the point on which a worm starts. */
    method StartWorm(n: int, remaining: int) returns (remaining': int)
      requires Ready() && 0 <= n < MAZE_LEN
      modifies maze
      ensures remaining' == remaining - 1 && maze[..] == old(maze[..])[n := NONE]
    {
      maze[n] := NONE;
      remaining' := remaining - 1;
    }

    /**
      Worms are dropped until no lattice point is a wall.  The random numbers come from `rnd`; done is
      false exactly when the phase does not end within them.
    */
    method WormPhase(rnd: seq<nat>) returns (done: bool, x: int, y: int, remaining: int)
      requires Ready() && forall n :: 0 <= n < maze.Length ==> maze[n] == WALL
      modifies maze
      ensures done <==> Suffices(dims, rnd)
      ensures done ==> At(dims, rnd, |rnd|) == Worms(maze[..], Finished, x, y, remaining)
      ensures done ==> OddIn(dims, x, y) && Digging(dims.Points(), dims.Row(), maze[..], 0)
    {
      remaining := dims.xd * dims.yd;
      done, x, y := false, 1, 1;
      var k, ok := 0, true;
      assert maze[..] == AllWalled() && rnd[..0] == [];
      AtSound(dims, rnd, 0);
      while remaining > 0
        invariant k <= |rnd| && InState(At(dims, rnd, k), x, y, remaining)
        invariant At(dims, rnd, k).stage == if remaining > 0 then PickX else Finished
        decreases |rnd| - k
      {
        ok, x, y, k := PickWalled(rnd, k, x, y, remaining);
        if !ok { return; }
        remaining := StartWorm(dims.MazeIndex(x, y), remaining);
        ok, x, y, k, remaining := Worm(x, y, rnd, k, remaining);
        if !ok { return; }
      }
      AtSound(dims, rnd, k);
      AtFinished(dims, rnd, k);
      done := true;
    }

    // ----- joining phase -----

    /** The next position of the scan, row by row and round again. */
    method ScanNext(x: int, y: int) returns (x': int, y': int)
      requires Ready() && OddIn(dims, x, y)
      ensures OddIn(dims, x', y')
      ensures if x / 2 + 1 < dims.xd then x' / 2 == x / 2 + 1 && y' == y
              else x' == 1 && y' / 2 == (if y / 2 + 1 < dims.yd then y / 2 + 1 else 0)
    {
      x', y' := x + 2, y;
      if x' > dims.xd * 2 {
        x' := x' - dims.xd * 2;
        y' := y' + 2;
        if y' > 2 * dims.yd {
          y' := y' - 2 * dims.yd;
        }
      }
    }

    /** The outcome of drawing lattice points until an unmarked one comes up: any unmarked point. */
    method PickUnmarked() returns (x: int, y: int)
      requires Ready() && exists n :: n in dims.Points() && n !in Marked(dims.Points(), maze[..])
      ensures OddIn(dims, x, y) && 0 <= dims.MazeIndex(x, y) < MAZE_LEN && !maze[dims.MazeIndex(x, y)].reach
    {
      UnmarkedExists(dims, maze[..]);
      x, y :| OddIn(dims, x, y) && Unmarked(maze[..], dims.MazeIndex(x, y));
    }

    /** Knocks down the wall towards the first marked neighbour; 0 if there is none. */
    method OpenTowards(n: int, w: int, up: bool, left: bool, right: bool, down: bool) returns (step: int)
      requires SidesFit(maze.Length, n, w, up, left, right, down)
      modifies maze
      ensures step == FirstMarked(old(maze[..]), n, w, up, left, right, down)
      ensures step in {0, -2 * w, -2, 2, 2 * w} && (step != 0 ==> old(maze[..])[n + step].reach)
      ensures up && old(maze[..])[n - 2 * w].reach ==> step == -2 * w
      ensures left && old(maze[..])[n - 2].reach ==> step in {-2 * w, -2}
      ensures right && old(maze[..])[n + 2].reach ==> step in {-2 * w, -2, 2}
      ensures down && old(maze[..])[n + 2 * w].reach ==> step in {-2 * w, -2, 2, 2 * w}
      ensures step == 0 ==> maze[..] == old(maze[..])
      ensures step != 0 ==> maze[..] == old(maze[..])[n + step / 2 := NONE]
    {
      step := 0;
      if up && maze[n - 2 * w].reach {
        step := -2 * w;
        maze[n - w] := NONE;
      } else if left && maze[n - 2].reach {
        step := -2;
        maze[n - 1] := NONE;
      } else if right && maze[n + 2].reach {
        step := 2;
        maze[n + 1] := NONE;
      } else if down && maze[n + 2 * w].reach {
        step := 2 * w;
        maze[n + w] := NONE;
      }
    }

    /** Knocks down the wall between the unmarked point (x,y) and a marked neighbour, if it has one. */
    method BreakWall(x: int, y: int) returns (broken: bool, ghost m: int)
      requires Ready() && OddIn(dims, x, y)
      requires 0 <= dims.MazeIndex(x, y) < MAZE_LEN && !maze[dims.MazeIndex(x, y)].reach
      modifies maze
      ensures broken <==> Joinable(dims, Marked(dims.Points(), old(maze[..])), x / 2, y / 2)
      ensures !broken ==> maze[..] == old(maze[..])
      ensures broken ==> JoinedTo(dims, old(maze[..]), maze[..], dims.MazeIndex(x, y), m)
    {
      ghost var g := maze[..];
      var cur := dims.MazeIndex(x, y);
      PointSidesFit(dims, x, y);
      var step := OpenTowards(cur, dims.Row(), y > 1, x > 1, x < 2 * dims.xd - 1, y < 2 * dims.yd - 1);
      FirstMarkedJoins(dims, g, x, y, cur, step);
      broken, m := step != 0, cur + step;
    }

    /** Tries to connect the unmarked point (x,y); on success marks what has become reachable. */
    method Connect(x: int, y: int, remaining: int) returns (remaining': int)
      requires Ready() && OddIn(dims, x, y)
      requires 0 <= dims.MazeIndex(x, y) < MAZE_LEN && !maze[dims.MazeIndex(x, y)].reach
      requires Connecting(dims.Points(), dims.Row(), dims.Point(0, 0), maze[..], remaining)
      modifies maze
      ensures Connecting(dims.Points(), dims.Row(), dims.Point(0, 0), maze[..], remaining')
      ensures if Joinable(dims, Marked(dims.Points(), old(maze[..])), x / 2, y / 2)
              then remaining' < remaining else remaining' == remaining && maze[..] == old(maze[..])
    {
      ghost var g0 := maze[..];
      remaining' := remaining;
      var broken, m := BreakWall(x, y);
      if broken {
        ghost var g1 := maze[..];
        OddPoint(dims, x, y);
        BrokenWall(dims, g0, g1, remaining, dims.MazeIndex(x, y), m);
        var count := MarkMazeArea(x, y);
        PointsAreLattice(dims);
        JoinStep(dims.Points(), dims.Row(), dims.Point(0, 0), g0, g1, maze[..], remaining, dims.MazeIndex(x, y), m);
        remaining' := remaining - count;
      }
    }

    /**
      The second phase: when it ends, every lattice point is joined to (1,1).  It ends for every maze
      and every outcome of the random picks: the unmarked points, the random trials left and the
      distance of the scan to a point that can be joined decrease lexicographically.
    */
    method ConnectAll(x0: int, y0: int)
      requires Ready() && OddIn(dims, x0, y0)
      requires Digging(dims.Points(), dims.Row(), maze[..], 0)
      modifies maze
      ensures Connecting(dims.Points(), dims.Row(), dims.Point(0, 0), maze[..], 0)
    {
      ghost var g0 := maze[..];
      StartConnecting(dims, g0);
      var count := MarkMazeArea(1, 1);
      FirstMarkDone(dims, g0, maze[..]);
      var remaining := dims.xd * dims.yd - count;
      var trials, x, y := 0, x0, y0;
      ghost var ti, tj := Target(dims, maze[..], remaining);
      var first := true;
      while first || remaining > 0
        invariant OddIn(dims, x, y) && dims.InLattice(ti, tj)
        invariant Connecting(dims.Points(), dims.Row(), dims.Point(0, 0), maze[..], remaining)
        invariant remaining > 0 ==> Joinable(dims, Marked(dims.Points(), maze[..]), ti, tj)
        decreases first, remaining, if remaining < 20 || trials > 100 then 0 else 101 - trials,
                  Turns(dims.xd * dims.yd, ScanIndex(dims, x / 2, y / 2), ScanIndex(dims, ti, tj))
      {
        first := false;
        var scan := remaining < 20;
        if !scan {
          trials := trials + 1;
          scan := trials > 100;
        }
        ghost var x1, y1 := x, y;
        if scan {
          x, y := ScanNext(x, y);
          ScanAdvanceOdd(dims, x1, y1, x, y, ti, tj);
        } else {
          UnfinishedDims(dims, maze[..], remaining);
          x, y := PickUnmarked();
        }
        OddPoint(dims, x, y);
        if !maze[dims.MazeIndex(x, y)].reach {
          ghost var remaining1 := remaining;
          remaining := Connect(x, y, remaining);
          if remaining < remaining1 {
            ti, tj := Target(dims, maze[..], remaining);
          }
        }
      }
      UnfinishedDims(dims, maze[..], remaining);
    }

    // ----- finishing the maze -----

    method ClearMark(n: int, ghost g0: Grid, ghost done: set<int>) returns (ghost done': set<int>)
      requires 0 <= n < maze.Length && ClearedBy(g0, maze[..], done)
      modifies maze
      ensures done' == done + {n} && ClearedBy(g0, maze[..], done')
    {
      maze[n] := maze[n].(reach := false);
      done' := done + {n};
    }

    /** Removes the marks of column x of the lattice. */
    method ClearColumn(x: int, ghost g0: Grid, ghost done: set<int>) returns (ghost done': set<int>)
      requires Ready() && x % 2 == 1 && 0 < x < 2 * dims.xd && ClearedBy(g0, maze[..], done)
      modifies maze
      ensures ClearedBy(g0, maze[..], done') && done <= done'
      ensures forall y :: OddIn(dims, x, y) ==> dims.MazeIndex(x, y) in done'
    {
      done' := done;
      var y := 1;
      while y < 2 * dims.yd
        invariant y % 2 == 1 && 1 <= y <= 2 * dims.yd + 1 && ClearedBy(g0, maze[..], done') && done <= done'
        invariant forall y' :: OddIn(dims, x, y') && y' < y ==> dims.MazeIndex(x, y') in done'
      {
        IndexInRange(dims, x, y);
        done' := ClearMark(dims.MazeIndex(x, y), g0, done');
        y := y + 2;
      }
    }

    method ClearColumns() returns (ghost done: set<int>)
      requires Ready()
      modifies maze
      ensures ClearedBy(old(maze[..]), maze[..], done)
      ensures forall x, y :: OddIn(dims, x, y) ==> dims.MazeIndex(x, y) in done
    {
      ghost var g0 := maze[..];
      done := {};
      var x := 1;
      while x < 2 * dims.xd
        invariant x % 2 == 1 && 1 <= x <= 2 * dims.xd + 1 && ClearedBy(g0, maze[..], done)
        invariant forall x', y :: OddIn(dims, x', y) && x' < x ==> dims.MazeIndex(x', y) in done
      {
        done := ClearColumn(x, g0, done);
        x := x + 2;
      }
    }

    /** Removes the marks, which are reused for what the player has seen. */
    method ClearMarks()
      requires Ready() && Connecting(dims.Points(), dims.Row(), dims.Point(0, 0), maze[..], 0)
      modifies maze
      ensures Blank(maze[..]) && AllJoined(dims, maze[..]) && LatticeShape(dims.Points(), dims.Row(), maze[..])
      ensures SameWalls(old(maze[..]), maze[..])
    {
      ghost var g0 := maze[..];
      ghost var done := ClearColumns();
      MarksCleared(dims, g0, maze[..], done);
    }

    /** Removes all walls inside the border (the GOD_MODE build). */
    method RemoveWalls()
      requires Ready() && Blank(maze[..]) && AllJoined(dims, maze[..]) && Bordered(dims, maze[..])
      modifies maze
      ensures Blank(maze[..]) && AllJoined(dims, maze[..]) && Bordered(dims, maze[..])
      ensures forall n :: 0 <= n < maze.Length ==> (maze[n].wall <==> n !in Interior(dims))
    {
      ghost var g0, done: set<int> := maze[..], {};
      for x := 1 to 2 * dims.xd
        invariant EmptiedBy(g0, maze[..], done) && done <= Interior(dims)
        invariant forall x', y :: 0 < x' < x && 0 < y < 2 * dims.yd ==> dims.MazeIndex(x', y) in done
      {
        for y := 1 to 2 * dims.yd
          invariant EmptiedBy(g0, maze[..], done) && done <= Interior(dims)
          invariant forall x', y :: 0 < x' < x && 0 < y < 2 * dims.yd ==> dims.MazeIndex(x', y) in done
          invariant forall y' :: 0 < y' < y ==> dims.MazeIndex(x, y') in done
        {
          IndexInRange(dims, x, y);
          InsideIs(dims, x, y, dims.MazeIndex(x, y));
          maze[dims.MazeIndex(x, y)] := NONE;
          done := done + {dims.MazeIndex(x, y)};
        }
      }
      WallsRemoved(dims, g0, maze[..], done);
    }

    /** The outcome of drawing lattice points until one without fruit comes up: any such point. */
    method PickUnfruited() returns (x: int, y: int)
      requires Ready() && |Fruits(maze[..])| < dims.xd * dims.yd
      ensures OddIn(dims, x, y) && 0 <= dims.MazeIndex(x, y) < MAZE_LEN && maze[dims.MazeIndex(x, y)].fruit == 0
    {
      UnfruitedExists(dims, maze[..]);
      x, y :| OddIn(dims, x, y) && Unfruited(maze[..], dims.MazeIndex(x, y));
    }

    /** Puts fruit number f on some lattice point without fruit, and counts it. */
    method AddAFruitInternal(f: Fruit) returns (x: int, y: int)
      requires Ready() && f != 0 && nFruits == |Fruits(maze[..])| < dims.xd * dims.yd
      modifies maze, this`nFruits
      ensures OddIn(dims, x, y) && 0 <= dims.MazeIndex(x, y) < MAZE_LEN
      ensures old(maze[dims.MazeIndex(x, y)].fruit) == 0
      ensures maze[..] == old(maze[..])[dims.MazeIndex(x, y) := old(maze[dims.MazeIndex(x, y)]).(fruit := f)]
      ensures nFruits == old(nFruits) + 1 == |Fruits(maze[..])|
      ensures Fruits(maze[..]) == Fruits(old(maze[..])) + {dims.MazeIndex(x, y)}
    {
      ghost var g := maze[..];
      x, y := PickUnfruited();
      var n := dims.MazeIndex(x, y);
      FruitAdded(g, n, f);
      maze[n] := maze[n].(fruit := f);
      nFruits := nFruits + 1;
      assert maze[..] == g[n := g[n].(fruit := f)];
    }

    /** Worms, joining and clean-up; false when the worm phase does not end within rnd. */
    method Layout(godMode: bool, rnd: seq<nat>) returns (done: bool)
      requires Ready()
      modifies maze
      ensures done <==> Suffices(dims, rnd)
      ensures done ==> Blank(maze[..]) && AllJoined(dims, maze[..]) && Bordered(dims, maze[..])
      ensures done && godMode ==> forall n :: 0 <= n < maze.Length ==> (maze[n].wall <==> n !in Interior(dims))
      ensures done && !godMode ==> OnlyPassagesOpen(dims, maze[..])
    {
      forall n | 0 <= n < maze.Length { maze[n] := WALL; }
      var x, y, remaining;
      done, x, y, remaining := WormPhase(rnd);
      if done {
        ConnectAll(x, y);
        ClearMarks();
        ShapeIsBordered(dims, maze[..]);
        ShapeHasOnlyPassages(dims, maze[..]);
        if godMode {
          RemoveWalls();
        }
      }
    }

    /** Adds the first fruits, drawn nowhere; places says where each one stands. */
    method Furnish(fruitNumbers: seq<Fruit>) returns (ghost places: seq<int>)
      requires Ready() && Blank(maze[..]) && |fruitNumbers| < dims.xd * dims.yd
      requires forall k :: 0 <= k < |fruitNumbers| ==> fruitNumbers[k] != 0
      modifies maze, this`nFruits
      ensures Furnished(dims, old(maze[..]), maze[..])
      ensures nFruits == |fruitNumbers| == |Fruits(maze[..])|
      ensures forall n :: 0 <= n < maze.Length ==> !maze[n].exit
      ensures FruitsStand(maze[..], places, fruitNumbers)
    {
      ghost var g0 := maze[..];
      nFruits, places := 0, [];
      assert Fruits(maze[..]) == {};
      for k := 0 to |fruitNumbers|
        invariant nFruits == k == |Fruits(maze[..])|
        invariant Furnished(dims, g0, maze[..]) && (forall n :: 0 <= n < maze.Length ==> !maze[n].exit)
        invariant FruitsStand(maze[..], places, fruitNumbers[..k])
      {
        ghost var g := maze[..];
        var x, y := AddAFruitInternal(fruitNumbers[k]);
        OneMoreFruit(dims, g0, g, maze[..], x, y, fruitNumbers[k]);
        OneMoreStands(g, maze[..], places, fruitNumbers, k, dims.MazeIndex(x, y));
        places := places + [dims.MazeIndex(x, y)];
      }
      assert fruitNumbers[..|fruitNumbers|] == fruitNumbers;
    }

    /** Puts the exit on some lattice point without fruit. */
    method PlaceExit()
      requires Ready() && |Fruits(maze[..])| < dims.xd * dims.yd
      modifies maze, this`exitX, this`exitY
      ensures OddIn(dims, exitX, exitY) && 0 <= dims.MazeIndex(exitX, exitY) < MAZE_LEN
      ensures old(maze[..])[dims.MazeIndex(exitX, exitY)].fruit == 0
      ensures var n := dims.MazeIndex(exitX, exitY);
              maze[..] == old(maze[..])[n := old(maze[..])[n].(exit := true)]
    {
      ghost var g := maze[..];
      var x, y := PickUnfruited();
      var n := dims.MazeIndex(x, y);
      maze[n] := maze[n].(exit := true);
      exitX, exitY := x, y;
      assert maze[..] == g[n := g[n].(exit := true)];
    }

    /**
      Builds a maze, or refuses a size out of range and changes nothing.  On success every lattice point
      is joined to (1,1), the border is closed, the fruits are counted and the exit stands on a point
      without fruit.  `godMode` is the GOD_MODE of the build; `rnd` feeds the worm phase, and
      OutOfRandom means that this phase does not end within rnd.
    */
    method MakeMaze(xDim: int, yDim: int, godMode: bool, rnd: seq<nat>, fruitNumbers: seq<Fruit>)
      returns (result: MakeResult)
      requires maze.Length == MAZE_LEN
      requires Dims(xDim, yDim).Valid() ==> |fruitNumbers| < xDim * yDim
      requires forall k :: 0 <= k < |fruitNumbers| ==> fruitNumbers[k] != 0
      modifies this, maze
      ensures result == SizeRefused <==> !Dims(xDim, yDim).Valid()
      ensures result == Made <==> Suffices(Dims(xDim, yDim), rnd)
      ensures result == SizeRefused ==> maze[..] == old(maze[..]) && dims == old(dims) && nFruits == old(nFruits)
      ensures result == Made ==> dims == Dims(xDim, yDim) && nFruits == |fruitNumbers|
      ensures result == Made ==> Playable(dims, maze[..], nFruits, exitX, exitY) && AllJoined(dims, maze[..])
      ensures result == Made ==> ExitUnfruited(dims, maze[..], exitX, exitY) && Unseen(maze[..])
      ensures result == Made && godMode ==> forall n :: 0 <= n < maze.Length ==>
                (maze[n].wall <==> n !in Interior(dims))
      ensures result == Made && !godMode ==> OnlyPassagesOpen(dims, maze[..]) && EvenCellsWalled(dims, maze[..])
    {
      if xDim < MAZE_MIN_X_DIM || xDim > MAZE_MAX_X_DIM || yDim < MAZE_MIN_Y_DIM || yDim > MAZE_MAX_Y_DIM {
        return SizeRefused;
      }
      dims := Dims(xDim, yDim);
      var done := Layout(godMode, rnd);
      if !done {
        return OutOfRandom;
      }
      ghost var g0 := maze[..];
      ghost var places := Furnish(fruitNumbers);
      ghost var g1 := maze[..];
      PlaceExit();
      FinishedMaze(dims, g0, g1, maze[..], nFruits, exitX, exitY);
      if !godMode {
        SameWallsSamePassages(dims, g0, maze[..]);
        EvenCellsAreWalls(dims, maze[..]);
      }
      result := Made;
    }
  }
}
