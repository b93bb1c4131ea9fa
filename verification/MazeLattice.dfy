/**
  The maze array of mp2/maze.c as a graph.

  The array is flat and its rows are `2 * xd` cells wide, so column `2 * xd` of a
  row is column 0 of the next one.  A lattice point is an (odd,odd) position; two
  points are neighbours when their indices differ by 2 or by two rows, and the
  cell half way between them is the passage that may or may not be a wall.
  Working with indices instead of coordinates keeps the arithmetic linear.
*/
module MazeLattice {

  const MAZE_MIN_X_DIM := 14
  const MAZE_MAX_X_DIM := 50
  const MAZE_MIN_Y_DIM := 8
  const MAZE_MAX_Y_DIM := 30
  const MAZE_LEN := 2 * MAZE_MAX_X_DIM * (2 * MAZE_MAX_Y_DIM + 3) + 1

  type Fruit = n: int | 0 <= n < 8

  /** One byte of the array, field by field. */
  datatype Cell = Cell(wall: bool, fruit: Fruit, exit: bool, reach: bool)

  const NONE := Cell(false, 0, false, false)
  const WALL := Cell(true, 0, false, false)

  type Grid = seq<Cell>

  datatype Dims = Dims(xd: int, yd: int) {
    predicate Valid() {
      MAZE_MIN_X_DIM <= xd <= MAZE_MAX_X_DIM && MAZE_MIN_Y_DIM <= yd <= MAZE_MAX_Y_DIM
    }

    /** Distance between two vertically adjacent cells. */
    function Row(): int { 2 * xd }

    function MazeIndex(a: int, b: int): int { a + (b + 1) * xd * 2 }

    /** Index of the lattice point in column i and row j of the lattice. */
    function Point(i: int, j: int): int { MazeIndex(2 * i + 1, 2 * j + 1) }

    predicate InLattice(i: int, j: int) { 0 <= i < xd && 0 <= j < yd }

    ghost function Points(): set<int> {
      set i, j | 0 <= i < xd && 0 <= j < yd :: Point(i, j)
    }
  }

  // ----- arithmetic of the flat array -----

  lemma MulLe(a: int, b: int, c: int, d: int)
    requires 0 <= a <= c && 0 <= b <= d
    ensures 0 <= a * b <= c * d
  {
    assert a * b <= c * b <= c * d;
  }

  lemma Distribute(a: int, b: int, w: int)
    ensures (a + b) * w == a * w + b * w
  {
  }

  lemma PointForm(d: Dims, i: int, j: int)
    ensures d.Point(i, j) == 2 * i + 1 + (2 * j + 2) * d.Row()
  {
  }

  /** Row b starts at (b + 1) * Row(), and there is room for rows -1 to 2 * yd + 1. */
  lemma RowBounds(w: int, yd: int, b: int)
    requires 0 <= w <= 100 && 0 <= yd <= 30 && -1 <= b <= 2 * yd + 1
    ensures 0 <= (b + 1) * w <= 6300 - w
    ensures b <= 2 * yd ==> (b + 1) * w <= 6300 - 2 * w
    ensures b >= 0 ==> w <= (b + 1) * w
    ensures b >= 1 ==> 2 * w <= (b + 1) * w
  {
    MulLe(2 * yd + 3, w, 63, 100);
    var m := if b <= 2 * yd then 2 * yd + 1 else 2 * yd + 2;
    MulLe(b + 1, w, m, w);
    Distribute(m, 2 * yd + 3 - m, w);
    if b >= 0 { MulLe(1, w, b + 1, w); }
    if b >= 1 { MulLe(2, w, b + 1, w); }
  }

  /** Every cell the maze code touches around a displayed position is inside the array. */
  lemma IndexInRange(d: Dims, a: int, b: int)
    requires d.Valid()
    requires (-1 <= a <= d.Row() + 1 && 0 <= b <= 2 * d.yd) || (0 <= a <= d.Row() && -1 <= b <= 2 * d.yd + 1)
    ensures 0 <= d.MazeIndex(a, b) < MAZE_LEN
  {
    IndexForm(d, a, b);
    RowBounds(d.Row(), d.yd, b);
  }

  lemma IndexForm(d: Dims, a: int, b: int)
    ensures d.MazeIndex(a, b) == a + (b + 1) * d.Row()
  {
  }

  lemma PointBounds(d: Dims, n: int)
    requires d.Valid() && n in d.Points()
    ensures n % 2 == 1
    ensures 2 * d.Row() < n < MAZE_LEN - d.Row()
    ensures n - d.Row() !in d.Points() && n + d.Row() !in d.Points()
  {
    var i, j :| 0 <= i < d.xd && 0 <= j < d.yd && n == d.Point(i, j);
    PointForm(d, i, j);
    RowBounds(d.Row(), d.yd, 2 * j + 1);
    PointOdd(d, i, j);
    BetweenRows(d, i, j, -1);
    BetweenRows(d, i, j, 1);
  }

  /** The maze position of a lattice point. */
  lemma PointCoordinates(d: Dims, n: int) returns (x: int, y: int)
    requires d.Valid() && n in d.Points()
    ensures 0 < x < 2 * d.xd && 0 < y < 2 * d.yd && x % 2 == 1 && y % 2 == 1
    ensures n == d.MazeIndex(x, y) && 0 <= n < MAZE_LEN
  {
    var i, j :| 0 <= i < d.xd && 0 <= j < d.yd && n == d.Point(i, j);
    IndexInRange(d, 2 * i + 1, 2 * j + 1);
    x, y := 2 * i + 1, 2 * j + 1;
  }

  lemma PointOdd(d: Dims, i: int, j: int)
    ensures d.Point(i, j) % 2 == 1
  {
    var k := (2 * j + 2) * d.xd;
    assert d.Point(i, j) == 2 * i + 1 + 2 * k;
  }

  /** No multiple of w but 0 lies strictly between -w and w. */
  lemma SmallMultiple(w: int, k: int)
    requires -w < k * w < w
    ensures k == 0
  {
    if k > 0 { MulLe(1, w, k, w); }
    if k < 0 {
      assert (-k) * w == -(k * w);
      MulLe(1, w, -k, w);
    }
  }

  lemma BetweenRows(d: Dims, i: int, j: int, s: int)
    requires 0 <= i < d.xd && (s == 1 || s == -1)
    ensures d.Point(i, j) + s * d.Row() !in d.Points()
  {
    var w := d.Row();
    if d.Point(i, j) + s * w in d.Points() {
      var i', j' :| 0 <= i' < d.xd && 0 <= j' < d.yd && d.Point(i, j) + s * w == d.Point(i', j');
      PointForm(d, i, j);
      PointForm(d, i', j');
      var k := 2 * j + s - 2 * j';
      assert k * w == 2 * (i' - i) by {
        Distribute(2 * j + 2, s, w);
        Distribute(2 * j' + 2, k, w);
      }
      SmallMultiple(w, k);
      assert false;
    }
  }

  /** The passage beside a point leads to another point exactly when the lattice goes on there. */
  lemma LatticeStep(d: Dims, i: int, j: int)
    requires d.InLattice(i, j)
    ensures d.Point(i, j) in d.Points()
    ensures d.Point(i, j) + 2 == d.Point(i + 1, j) && d.Point(i, j) + 2 * d.Row() == d.Point(i, j + 1)
    ensures i + 1 < d.xd ==> d.Point(i, j) + 2 in d.Points()
    ensures i > 0 ==> d.Point(i, j) - 2 in d.Points()
    ensures j + 1 < d.yd ==> d.Point(i, j) + 2 * d.Row() in d.Points()
    ensures j > 0 ==> d.Point(i, j) - 2 * d.Row() in d.Points()
  {
    PointForm(d, i, j);
    PointForm(d, i + 1, j);
    PointForm(d, i - 1, j);
    PointForm(d, i, j + 1);
    PointForm(d, i, j - 1);
    assert d.Point(i, j) + 2 == d.Point(i + 1, j);
    assert d.Point(i, j) - 2 == d.Point(i - 1, j);
    assert d.Point(i, j) + 2 * d.Row() == d.Point(i, j + 1);
    assert d.Point(i, j) - 2 * d.Row() == d.Point(i, j - 1);
  }

  lemma PointInjective(d: Dims, i: int, j: int, i': int, j': int)
    requires 0 <= i < d.xd && 0 <= i' < d.xd && d.Point(i, j) == d.Point(i', j')
    ensures i == i' && j == j'
  {
    var w := d.Row();
    PointForm(d, i, j);
    PointForm(d, i', j');
    assert 2 * (i' - i) == 2 * (j - j') * w;
    if j > j' { MulLe(1, w, j - j', w); }
    if j' > j { MulLe(1, w, j' - j, w); }
  }

  lemma PointCount(d: Dims)
    requires d.xd >= 0 && d.yd >= 0
    ensures |d.Points()| == d.xd * d.yd
  {
    PointsAreRows(d);
    PointCountRows(d, d.yd);
    Commute(d.xd, d.yd);
  }

  lemma Commute(a: int, b: int)
    ensures a * b == b * a
  {
  }

  lemma PointsAreRows(d: Dims)
    ensures d.Points() == PointRows(d, d.yd)
  {
    forall n | n in d.Points() ensures n in PointRows(d, d.yd) {
      InRows(d, d.yd, n);
    }
    forall n | n in PointRows(d, d.yd) ensures n in d.Points() {
      InRows(d, d.yd, n);
    }
  }

  /** The first m points of row j. */
  ghost function PointRow(d: Dims, m: int, j: int): set<int> {
    if m <= 0 then {} else PointRow(d, m - 1, j) + {d.Point(m - 1, j)}
  }

  /** The points of the first m rows. */
  ghost function PointRows(d: Dims, m: int): set<int> {
    if m <= 0 then {} else PointRows(d, m - 1) + PointRow(d, d.xd, m - 1)
  }

  lemma {:induction false} InRow(d: Dims, m: int, j: int, n: int)
    ensures n in PointRow(d, m, j) <==> exists i :: 0 <= i < m && n == d.Point(i, j)
    decreases if m <= 0 then 0 else m
  {
    if m <= 0 {
    } else {
      InRow(d, m - 1, j, n);
    }
  }

  lemma {:induction false} InRows(d: Dims, m: int, n: int)
    ensures n in PointRows(d, m) <==> exists i, j :: 0 <= i < d.xd && 0 <= j < m && n == d.Point(i, j)
    decreases if m <= 0 then 0 else m
  {
    if m <= 0 {
    } else {
      InRows(d, m - 1, n);
      InRow(d, d.xd, m - 1, n);
    }
  }

  lemma {:induction false} PointRowCount(d: Dims, m: int, j: int)
    requires 0 <= m <= d.xd
    ensures |PointRow(d, m, j)| == m
  {
    if m == 0 {
    } else {
      PointRowCount(d, m - 1, j);
      InRow(d, m - 1, j, d.Point(m - 1, j));
      forall i | 0 <= i < m - 1 ensures d.Point(i, j) != d.Point(m - 1, j) {
        if d.Point(i, j) == d.Point(m - 1, j) { PointInjective(d, i, j, m - 1, j); }
      }
    }
  }

  lemma OneRowMore(d: Dims, m: int)
    requires 0 < m && d.xd >= 0
    ensures |PointRows(d, m)| == |PointRows(d, m - 1)| + d.xd
  {
    PointRowCount(d, d.xd, m - 1);
    RowsDisjoint(d, m - 1);
  }

  lemma {:induction false} PointCountRows(d: Dims, m: int)
    requires 0 <= m && d.xd >= 0
    ensures |PointRows(d, m)| == m * d.xd
  {
    if m == 0 {
    } else {
      PointCountRows(d, m - 1);
      OneRowMore(d, m);
      Distribute(m - 1, 1, d.xd);
    }
  }

  lemma RowsDisjoint(d: Dims, k: int)
    ensures PointRows(d, k) !! PointRow(d, d.xd, k)
  {
    forall n | n in PointRows(d, k) ensures n !in PointRow(d, d.xd, k) {
      InRows(d, k, n);
      InRow(d, d.xd, k, n);
      var i, j :| 0 <= i < d.xd && 0 <= j < k && n == d.Point(i, j);
      forall i' | 0 <= i' < d.xd ensures n != d.Point(i', k) {
        if n == d.Point(i', k) { PointInjective(d, i, j, i', k); }
      }
    }
  }

  // ----- reachability -----

  predicate Open(g: Grid, n: int) { 0 <= n < |g| && !g[n].wall }

  /** Two positions joined by an open passage. */
  predicate Edge(g: Grid, w: int, a: int, b: int) {
    || (b == a - 2 * w && Open(g, a - w))
    || (b == a + 2 && Open(g, a + 1))
    || (b == a + 2 * w && Open(g, a + w))
    || (b == a - 2 && Open(g, a - 1))
  }

  /** A walk from its first to its last element that enters no element of `avoid`. */
  ghost predicate Walk(g: Grid, w: int, avoid: set<int>, p: seq<int>) {
    && |p| > 0
    && (forall k :: 0 <= k < |p| - 1 ==> Edge(g, w, p[k], p[k + 1]))
    && (forall k :: 0 < k < |p| ==> p[k] !in avoid)
  }

  ghost predicate Reach(g: Grid, w: int, avoid: set<int>, s: int, t: int) {
    exists p :: Walk(g, w, avoid, p) && p[0] == s && p[|p| - 1] == t
  }

  lemma ReachSelf(g: Grid, w: int, avoid: set<int>, s: int)
    ensures Reach(g, w, avoid, s, s)
  {
    assert Walk(g, w, avoid, [s]);
  }

  lemma ReachStep(g: Grid, w: int, avoid: set<int>, s: int, a: int, b: int)
    requires Reach(g, w, avoid, s, a) && Edge(g, w, a, b) && b !in avoid
    ensures Reach(g, w, avoid, s, b)
  {
    var p :| Walk(g, w, avoid, p) && p[0] == s && p[|p| - 1] == a;
    assert Walk(g, w, avoid, p + [b]);
  }

  lemma ReachTrans(g: Grid, w: int, s: int, a: int, b: int)
    requires Reach(g, w, {}, s, a) && Reach(g, w, {}, a, b)
    ensures Reach(g, w, {}, s, b)
  {
    var p :| Walk(g, w, {}, p) && p[0] == s && p[|p| - 1] == a;
    var q :| Walk(g, w, {}, q) && q[0] == a && q[|q| - 1] == b;
    var r := p + q[1..];
    forall k | 0 <= k < |r| - 1 ensures Edge(g, w, r[k], r[k + 1]) {
      if k >= |p| - 1 {
        assert r[k] == q[k - (|p| - 1)] && r[k + 1] == q[k + 1 - (|p| - 1)];
      }
    }
    assert Walk(g, w, {}, r);
  }

  /** More open cells and fewer obstacles: everything stays reachable. */
  lemma ReachMono(g: Grid, g': Grid, w: int, avoid: set<int>, avoid': set<int>, s: int, t: int)
    requires Reach(g, w, avoid, s, t) && avoid' <= avoid
    requires |g| <= |g'| && forall n :: 0 <= n < |g| && !g[n].wall ==> !g'[n].wall
    ensures Reach(g', w, avoid', s, t)
  {
    var p :| Walk(g, w, avoid, p) && p[0] == s && p[|p| - 1] == t;
    assert Walk(g', w, avoid', p);
  }

  /** Induction principle: a set that contains s and is closed under steps contains all that s reaches. */
  lemma {:induction false} ReachClosed(g: Grid, w: int, avoid: set<int>, s: int, t: int, closed: set<int>)
    requires Reach(g, w, avoid, s, t) && s in closed
    requires forall a, b :: a in closed && Edge(g, w, a, b) && b !in avoid ==> b in closed
    ensures t in closed
  {
    var p :| Walk(g, w, avoid, p) && p[0] == s && p[|p| - 1] == t;
    var k := 0;
    while k < |p| - 1
      invariant 0 <= k < |p| && p[k] in closed
    {
      assert Edge(g, w, p[k], p[k + 1]);
      k := k + 1;
    }
  }

  // ----- shape of a maze under construction -----

  /** All that the graph lemmas need to know about the set of lattice points. */
  ghost predicate LatticePoints(pts: set<int>, w: int) {
    && w > 2 && w % 2 == 0
    && (forall n :: n in pts ==> n % 2 == 1 && 2 * w < n < MAZE_LEN - w)
    && (forall n, m :: n in pts && m in pts ==> m != n + w)
  }

  lemma PointsAreLattice(d: Dims)
    requires d.Valid()
    ensures LatticePoints(d.Points(), d.Row())
  {
    forall n | n in d.Points() ensures n % 2 == 1 && 2 * d.Row() < n < MAZE_LEN - d.Row() {
      PointBounds(d, n);
    }
    forall n, m | n in d.Points() && m in d.Points() ensures m != n + d.Row() {
      PointBounds(d, n);
    }
  }

  /** Only lattice points and passages between open points are ever open; only points are marked. */
  ghost predicate LatticeShape(pts: set<int>, w: int, g: Grid) {
    && |g| == MAZE_LEN
    && forall n :: 0 <= n < |g| ==> CellShape(pts, w, g, n)
  }

  ghost predicate CellShape(pts: set<int>, w: int, g: Grid, n: int)
    requires 0 <= n < |g|
  {
    && g[n].fruit == 0 && !g[n].exit
    && (g[n].reach ==> n in pts && !g[n].wall)
    && (!g[n].wall ==> n in pts || Passage(pts, g, n, 1) || Passage(pts, g, n, w))
  }

  ghost predicate Passage(pts: set<int>, g: Grid, n: int, s: int) {
    n - s in pts && n + s in pts && Open(g, n - s) && Open(g, n + s)
  }

  ghost function Walled(pts: set<int>, g: Grid): set<int> { set n | n in pts && 0 <= n < |g| && g[n].wall }

  ghost function Marked(pts: set<int>, g: Grid): set<int> { set n | n in pts && 0 <= n < |g| && g[n].reach }

  /** What mark_maze_area relies on: an open neighbour cell leads to a lattice point. */
  ghost predicate Fenced(pts: set<int>, w: int, g: Grid) {
    && |g| == MAZE_LEN
    && forall a, b :: a in pts && Edge(g, w, a, b) ==> b in pts
  }

  lemma EdgeEnds(pts: set<int>, w: int, g: Grid, a: int, b: int)
    requires LatticePoints(pts, w) && LatticeShape(pts, w, g) && a in pts && Edge(g, w, a, b)
    ensures b in pts
  {
    var s := if b == a + 2 then 1 else if b == a - 2 then -1 else if b == a + 2 * w then w else -w;
    assert b == a + 2 * s && Open(g, a + s);
    assert CellShape(pts, w, g, a + s);
  }

  lemma ShapeIsFenced(pts: set<int>, w: int, g: Grid)
    requires LatticePoints(pts, w) && LatticeShape(pts, w, g)
    ensures Fenced(pts, w, g)
  {
    forall a, b | a in pts && Edge(g, w, a, b) ensures b in pts {
      EdgeEnds(pts, w, g, a, b);
    }
  }

  // ----- joining components -----

  /** An unmarked point with a marked lattice neighbour. */
  ghost predicate Joinable(d: Dims, marked: set<int>, i: int, j: int) {
    && d.InLattice(i, j) && d.Point(i, j) !in marked
    && (   (j > 0 && d.Point(i, j - 1) in marked) || (i > 0 && d.Point(i - 1, j) in marked)
        || (i < d.xd - 1 && d.Point(i + 1, j) in marked) || (j < d.yd - 1 && d.Point(i, j + 1) in marked))
  }

  /** A partly marked lattice always has an unmarked point beside a marked one. */
  lemma {:induction false} JoinableExists(d: Dims, marked: set<int>, i: int, j: int) returns (i': int, j': int)
    requires d.InLattice(i, j) && d.Point(0, 0) in marked && d.Point(i, j) !in marked
    ensures Joinable(d, marked, i', j')
    decreases i + j
  {
    if i > 0 {
      if d.Point(i - 1, j) in marked { i', j' := i, j; } else { i', j' := JoinableExists(d, marked, i - 1, j); }
    } else {
      assert j > 0;
      if d.Point(i, j - 1) in marked { i', j' := i, j; } else { i', j' := JoinableExists(d, marked, i, j - 1); }
    }
  }

  /** The marked points are exactly those joined to root by open cells. */
  ghost predicate MarkedIsComponent(pts: set<int>, w: int, g: Grid, root: int) {
    forall n :: n in pts ==> (n in Marked(pts, g) <==> Reach(g, w, {}, root, n))
  }

  /** The points that mark_maze_area is to mark when it starts from s. */
  ghost function Area(pts: set<int>, w: int, g: Grid, s: int): set<int> {
    set n | n in pts && Reach(g, w, Marked(pts, g), s, n)
  }

  /** g is g0 with the cells of s marked. */
  ghost predicate MarkedBy(g0: Grid, g: Grid, s: set<int>) {
    && |g| == |g0|
    && forall n :: 0 <= n < |g| ==> g[n] == if n in s then g0[n].(reach := true) else g0[n]
  }

  /** Marking changes no wall, so it changes neither the graph nor the shape. */
  lemma MarkingKeepsShape(pts: set<int>, w: int, g0: Grid, g: Grid, s: set<int>)
    requires LatticeShape(pts, w, g0) && MarkedBy(g0, g, s) && s <= pts
    requires forall n :: n in s && 0 <= n < |g0| ==> !g0[n].wall
    ensures LatticeShape(pts, w, g)
  {
    forall n | 0 <= n < |g| ensures CellShape(pts, w, g, n) {
      assert CellShape(pts, w, g0, n);
    }
  }

  /** The cell between two points of an open edge. */
  function Middle(a: int, b: int): int { (a + b) / 2 }

  /** What a join starts from: g1 is g0 with the wall between the unmarked c and the marked m opened. */
  ghost predicate WallBroken(pts: set<int>, w: int, root: int, g0: Grid, g1: Grid, c: int, m: int) {
    && LatticePoints(pts, w) && Fenced(pts, w, g1) && |g0| == MAZE_LEN
    && MarkedIsComponent(pts, w, g0, root) && root in Marked(pts, g0)
    && c in pts && c !in Marked(pts, g0) && m in Marked(pts, g0)
    && Edge(g1, w, c, m) && Middle(c, m) !in pts && g1 == g0[Middle(c, m) := NONE]
  }

  /**
    Breaking the wall between an unmarked point c and a marked neighbour m, then marking all that c
    reaches without passing a marked point, keeps "marked = component of the root".
  */
  lemma JoinKeepsComponent(pts: set<int>, w: int, root: int, g0: Grid, g1: Grid, g2: Grid, c: int, m: int)
    requires WallBroken(pts, w, root, g0, g1, c, m) && MarkedBy(g1, g2, Area(pts, w, g1, c))
    ensures MarkedIsComponent(pts, w, g2, root)
  {
    var area := Area(pts, w, g1, c);
    assert Marked(pts, g1) == Marked(pts, g0);
    assert Marked(pts, g2) == Marked(pts, g0) + area;
    forall n | n in pts && n in Marked(pts, g2) ensures Reach(g2, w, {}, root, n) {
      JoinedReachable(pts, w, root, g0, g1, g2, c, m, n);
    }
    forall n | n in pts && Reach(g2, w, {}, root, n) ensures n in Marked(pts, g2) {
      forall a, b | a in Marked(pts, g2) && Edge(g2, w, a, b) ensures b in Marked(pts, g2) {
        assert Edge(g1, w, a, b);
        JoinClosed(pts, w, root, g0, g1, c, m, a, b);
      }
      ReachClosed(g2, w, {}, root, n, Marked(pts, g2));
    }
  }

  lemma JoinedReachable(pts: set<int>, w: int, root: int, g0: Grid, g1: Grid, g2: Grid, c: int, m: int, n: int)
    requires WallBroken(pts, w, root, g0, g1, c, m) && MarkedBy(g1, g2, Area(pts, w, g1, c))
    requires n in Marked(pts, g0) + Area(pts, w, g1, c)
    ensures Reach(g2, w, {}, root, n)
  {
    if n in Marked(pts, g0) {
      ReachMono(g0, g2, w, {}, {}, root, n);
    } else {
      ReachMono(g0, g2, w, {}, {}, root, m);
      assert Edge(g2, w, m, c);
      ReachStep(g2, w, {}, root, m, c);
      ReachMono(g1, g2, w, Marked(pts, g1), {}, c, n);
      ReachTrans(g2, w, root, c, n);
    }
  }

  /** The marked set after a join is closed under steps. */
  lemma JoinClosed(pts: set<int>, w: int, root: int, g0: Grid, g1: Grid, c: int, m: int, a: int, b: int)
    requires WallBroken(pts, w, root, g0, g1, c, m) && Marked(pts, g1) == Marked(pts, g0)
    requires a in Marked(pts, g0) + Area(pts, w, g1, c) && Edge(g1, w, a, b)
    ensures b in Marked(pts, g0) + Area(pts, w, g1, c)
  {
    assert b in pts;
    if b in Marked(pts, g0) {
    } else if a in Area(pts, w, g1, c) {
      ReachStep(g1, w, Marked(pts, g1), c, a, b);
    } else if Edge(g0, w, a, b) {
      ReachStep(g0, w, {}, root, a, b);
    } else {
      NewEdge(pts, w, g0, g1, c, m, a, b);
      ReachSelf(g1, w, Marked(pts, g1), c);
    }
  }

  /** Opening one cell between c and m adds no other edge between lattice points. */
  lemma NewEdge(pts: set<int>, w: int, g0: Grid, g1: Grid, c: int, m: int, a: int, b: int)
    requires LatticePoints(pts, w) && |g0| == MAZE_LEN && {a, b, c, m} <= pts
    requires Edge(g1, w, c, m) && g1 == g0[Middle(c, m) := NONE]
    requires Edge(g1, w, a, b) && !Edge(g0, w, a, b)
    ensures b == c || b == m
  {
    assert a in pts && b in pts && c in pts && m in pts;
    assert Middle(a, b) == Middle(c, m);
    if b == a + 2 || b == a - 2 {
      assert m == c + 2 || m == c - 2;
    } else {
      assert m == c + 2 * w || m == c - 2 * w;
    }
  }
}
