/** What a finished maze is: its border, its fruits and its exit. */
module MazePlay {
  import opened Finite
  import opened MazeLattice
  import opened MazeConnect

  predicate OddIn(d: Dims, x: int, y: int) {
    0 < x < 2 * d.xd && 0 < y < 2 * d.yd && x % 2 == 1 && y % 2 == 1
  }

  /** The cells strictly inside the border. */
  ghost function Interior(d: Dims): set<int> {
    set x, y | 0 < x < 2 * d.xd && 0 < y < 2 * d.yd :: d.MazeIndex(x, y)
  }

  /** Everything outside the interior is a wall. */
  ghost predicate Bordered(d: Dims, g: Grid) {
    forall n :: 0 <= n < |g| && !g[n].wall ==> n in Interior(d)
  }

  ghost function Fruits(g: Grid): set<int> { set n | 0 <= n < |g| && g[n].fruit != 0 }

  ghost predicate Blank(g: Grid) {
    forall n :: 0 <= n < |g| ==> g[n].fruit == 0 && !g[n].exit && !g[n].reach
  }

  /** Every lattice point is open and joined to (1,1). */
  ghost predicate AllJoined(d: Dims, g: Grid) {
    Walled(d.Points(), g) == {} && forall n :: n in d.Points() ==> Reach(g, d.Row(), {}, d.Point(0, 0), n)
  }

  ghost predicate SameWalls(g: Grid, g': Grid) {
    |g| == |g'| && forall n :: 0 <= n < |g| ==> g[n].wall == g'[n].wall
  }

  /** What stays true of the array while the maze is played. */
  ghost predicate Playable(d: Dims, g: Grid, nFruits: int, exitX: int, exitY: int) {
    && d.Valid() && |g| == MAZE_LEN
    && Bordered(d, g) && Walled(d.Points(), g) == {}
    && nFruits == |Fruits(g)| && Fruits(g) <= d.Points()
    && OddIn(d, exitX, exitY)
    && forall n :: 0 <= n < |g| ==> (g[n].exit <==> n == d.MazeIndex(exitX, exitY))
  }

  lemma PointInside(d: Dims, n: int)
    requires n in d.Points()
    ensures n in Interior(d)
  {
    var i, j :| 0 <= i < d.xd && 0 <= j < d.yd && n == d.Point(i, j);
    assert n == d.MazeIndex(2 * i + 1, 2 * j + 1);
  }

  /** The player starts in the open. */
  lemma FirstPointOpen(d: Dims, g: Grid)
    requires d.Valid() && |g| == MAZE_LEN && Walled(d.Points(), g) == {}
    ensures Open(g, d.MazeIndex(1, 1))
  {
    LatticeStep(d, 0, 0);
    IndexInRange(d, 1, 1);
    var n := d.Point(0, 0);
    assert n !in Walled(d.Points(), g);
  }

  lemma InsideIs(d: Dims, x: int, y: int, n: int)
    requires 0 < x < 2 * d.xd && 0 < y < 2 * d.yd && n == d.MazeIndex(x, y)
    ensures n in Interior(d)
  {
  }

  /** A point that has another point two cells to its right is not in the last column. */
  lemma RightNeighbourInside(d: Dims, i: int, j: int, i': int, j': int)
    requires 0 <= i < d.xd && 0 <= i' < d.xd && d.Point(i', j') == d.Point(i, j) + 2
    ensures i + 1 < d.xd
  {
    if i + 1 == d.xd {
      PointForm(d, i, j);
      PointForm(d, i', j');
      Distribute(2 * j + 2, 1, d.Row());
      Distribute(2 * j' + 2, 2 * j + 1 - 2 * j', d.Row());
      SmallMultiple(d.Row(), 2 * j + 1 - 2 * j');
    }
  }

  lemma BetweenColumns(d: Dims, i: int, j: int)
    ensures d.MazeIndex(2 * i + 2, 2 * j + 1) == d.Point(i, j) + 1
    ensures d.MazeIndex(2 * i + 1, 2 * j + 2) == d.Point(i, j) + d.Row()
    ensures d.Point(i, j + 1) == d.Point(i, j) + 2 * d.Row()
  {
    IndexForm(d, 2 * i + 2, 2 * j + 1);
    IndexForm(d, 2 * i + 1, 2 * j + 2);
    PointForm(d, i, j);
    PointForm(d, i, j + 1);
    Distribute(2 * j + 2, 1, d.Row());
    Distribute(2 * j + 2, 2, d.Row());
  }

  /** A cell between two horizontally or vertically neighbouring points is inside. */
  lemma PassageInside(d: Dims, n: int, s: int)
    requires d.Valid() && (s == 1 || s == d.Row())
    requires n - s in d.Points() && n + s in d.Points()
    ensures n in Interior(d)
  {
    var i, j :| 0 <= i < d.xd && 0 <= j < d.yd && n - s == d.Point(i, j);
    var i', j' :| 0 <= i' < d.xd && 0 <= j' < d.yd && n + s == d.Point(i', j');
    PassageCell(d, n, s, i, j, i', j');
  }

  lemma PassageCell(d: Dims, n: int, s: int, i: int, j: int, i': int, j': int)
    requires d.InLattice(i, j) && d.InLattice(i', j') && (s == 1 || s == d.Row())
    requires n - s == d.Point(i, j) && n + s == d.Point(i', j')
    ensures n in Interior(d)
  {
    BetweenColumns(d, i, j);
    if s == 1 {
      RightNeighbourInside(d, i, j, i', j');
      InsideIs(d, 2 * i + 2, 2 * j + 1, n);
    } else {
      PointInjective(d, i, j + 1, i', j');
      InsideIs(d, 2 * i + 1, 2 * j + 2, n);
    }
  }

  lemma ShapeIsBordered(d: Dims, g: Grid)
    requires d.Valid() && LatticeShape(d.Points(), d.Row(), g)
    ensures Bordered(d, g)
  {
    forall n | 0 <= n < |g| && !g[n].wall ensures n in Interior(d) {
      assert CellShape(d.Points(), d.Row(), g, n);
      if n in d.Points() { PointInside(d, n); }
      else if Passage(d.Points(), g, n, 1) { PassageInside(d, n, 1); }
      else { PassageInside(d, n, d.Row()); }
    }
  }

  /** The only open cells are lattice points and passages between two of them. */
  ghost predicate OnlyPassagesOpen(d: Dims, g: Grid) {
    forall n :: Open(g, n) ==> n in d.Points() || Passage(d.Points(), g, n, 1) || Passage(d.Points(), g, n, d.Row())
  }

  ghost predicate EvenCellsWalled(d: Dims, g: Grid) {
    forall x, y :: 0 <= x <= 2 * d.xd && x % 2 == 0 && y % 2 == 0 ==> !Open(g, d.MazeIndex(x, y))
  }

  lemma ShapeHasOnlyPassages(d: Dims, g: Grid)
    requires LatticeShape(d.Points(), d.Row(), g)
    ensures OnlyPassagesOpen(d, g)
  {
    forall n | Open(g, n) ensures n in d.Points() || Passage(d.Points(), g, n, 1)
        || Passage(d.Points(), g, n, d.Row()) {
      assert CellShape(d.Points(), d.Row(), g, n);
    }
  }

  lemma SameWallsSamePassages(d: Dims, g: Grid, g': Grid)
    requires OnlyPassagesOpen(d, g) && SameWalls(g, g')
    ensures OnlyPassagesOpen(d, g')
  {
    assert forall n :: Open(g, n) <==> Open(g', n);
  }

  /** The cell to the right of a point is in the same row. */
  lemma BesidePoint(d: Dims, x: int, y: int, i: int, j: int)
    requires 0 <= x <= 2 * d.xd && 0 <= i < d.xd - 1 && d.MazeIndex(x, y) == d.Point(i, j) + 1
    ensures y == 2 * j + 1
  {
    var w, k := d.Row(), y - 2 * j - 1;
    IndexForm(d, x, y);
    PointForm(d, i, j);
    Distribute(2 * j + 2, k, w);
    assert k * w == 2 * i + 2 - x;
    SmallMultiple(w, k);
  }

  lemma PointPosition(d: Dims, n: int) returns (i: int, j: int)
    requires n in d.Points()
    ensures d.InLattice(i, j) && n == d.Point(i, j)
  {
    i, j :| 0 <= i < d.xd && 0 <= j < d.yd && n == d.Point(i, j);
  }

  /** A cell between horizontal neighbours is in an odd row. */
  lemma HorizontalPassageRow(d: Dims, x: int, y: int, n: int)
    requires 0 <= x <= 2 * d.xd && n == d.MazeIndex(x, y) && n - 1 in d.Points() && n + 1 in d.Points()
    ensures y % 2 == 1
  {
    var i, j := PointPosition(d, n - 1);
    var i', j' := PointPosition(d, n + 1);
    RightNeighbourInside(d, i, j, i', j');
    BesidePoint(d, x, y, i, j);
  }

  /** The index of a cell in an even column is even. */
  lemma EvenIndex(d: Dims, x: int, y: int)
    requires x % 2 == 0
    ensures d.MazeIndex(x, y) % 2 == 0
  {
    assert d.MazeIndex(x, y) == 2 * (x / 2 + (y + 1) * d.xd);
  }

  lemma EvenCellIsWall(pts: set<int>, w: int, g: Grid, n: int)
    requires LatticePoints(pts, w) && n % 2 == 0 && !(n - 1 in pts && n + 1 in pts)
    requires Open(g, n) ==> n in pts || Passage(pts, g, n, 1) || Passage(pts, g, n, w)
    ensures !Open(g, n)
  {
    assert (n - w) % 2 == 0;
  }

  /** So every (even,even) cell, on the border and inside, is a wall. */
  lemma EvenCellsAreWalls(d: Dims, g: Grid)
    requires d.Valid() && OnlyPassagesOpen(d, g)
    ensures EvenCellsWalled(d, g)
  {
    PointsAreLattice(d);
    forall x, y | 0 <= x <= 2 * d.xd && x % 2 == 0 && y % 2 == 0 ensures !Open(g, d.MazeIndex(x, y)) {
      EvenIndex(d, x, y);
      var n := d.MazeIndex(x, y);
      if n - 1 in d.Points() && n + 1 in d.Points() {
        HorizontalPassageRow(d, x, y, n);
      }
      EvenCellIsWall(d.Points(), d.Row(), g, n);
    }
  }

  lemma JoinedWithFewerWalls(d: Dims, g: Grid, g': Grid)
    requires AllJoined(d, g) && |g| == |g'| && forall n :: 0 <= n < |g| && !g[n].wall ==> !g'[n].wall
    ensures AllJoined(d, g')
  {
    assert Walled(d.Points(), g') <= Walled(d.Points(), g);
    forall n | n in d.Points() ensures Reach(g', d.Row(), {}, d.Point(0, 0), n) {
      ReachMono(g, g', d.Row(), {}, {}, d.Point(0, 0), n);
    }
  }

  lemma ConnectedIsJoined(d: Dims, g: Grid)
    requires d.Valid() && Connecting(d.Points(), d.Row(), d.Point(0, 0), g, 0)
    ensures AllJoined(d, g)
  {
    Unfinished(d.Points(), d.Row(), d.Point(0, 0), g, 0);
  }

  lemma {:induction false} SetHasRoom(s: set<int>, t: set<int>)
    requires |s| < |t|
    ensures exists n :: n in t && n !in s
  {
    if forall n :: n in t ==> n in s {
      SubsetSize(t, s);
    }
  }

  /** A lattice point without fruit exists as long as there are fewer fruits than points. */
  lemma UnfruitedExists(d: Dims, g: Grid)
    requires d.Valid() && |g| == MAZE_LEN && |Fruits(g)| < d.xd * d.yd
    ensures exists x, y :: OddIn(d, x, y) && Unfruited(g, d.MazeIndex(x, y))
  {
    PointCount(d);
    SetHasRoom(Fruits(g), d.Points());
    var n :| n in d.Points() && n !in Fruits(g);
    var x, y := PointCoordinates(d, n);
    assert OddIn(d, x, y) && Unfruited(g, d.MazeIndex(x, y));
  }

  predicate Unfruited(g: Grid, n: int) { 0 <= n < |g| && g[n].fruit == 0 }

  /** Changing only the fruit of one cell. */
  lemma FruitAdded(g: Grid, n: int, f: Fruit)
    requires 0 <= n < |g| && g[n].fruit == 0 && f != 0
    ensures Fruits(g[n := g[n].(fruit := f)]) == Fruits(g) + {n}
    ensures |Fruits(g[n := g[n].(fruit := f)])| == |Fruits(g)| + 1
  {
    assert Fruits(g[n := g[n].(fruit := f)]) == Fruits(g) + {n};
  }

  lemma FruitRemoved(g: Grid, n: int)
    requires 0 <= n < |g| && g[n].fruit != 0
    ensures Fruits(g[n := g[n].(fruit := 0)]) == Fruits(g) - {n}
    ensures |Fruits(g[n := g[n].(fruit := 0)])| == |Fruits(g)| - 1
  {
    assert Fruits(g[n := g[n].(fruit := 0)]) == Fruits(g) - {n};
  }
}
