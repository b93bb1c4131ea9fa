/** How a worm of make_maze (mp2/maze.c) chooses its way and what it leaves behind, on values. */
module MazeWorms {
  import opened MazeLattice
  import opened MazeConnect
  import opened MazePlay

  // ----- coordinates of lattice points -----

  lemma OddPoint(d: Dims, x: int, y: int)
    requires d.Valid() && OddIn(d, x, y)
    ensures d.InLattice(x / 2, y / 2) && d.MazeIndex(x, y) == d.Point(x / 2, y / 2)
    ensures d.MazeIndex(x, y) in d.Points() && 0 <= d.MazeIndex(x, y) < MAZE_LEN
  {
    assert x == 2 * (x / 2) + 1 && y == 2 * (y / 2) + 1;
    LatticeStep(d, x / 2, y / 2);
    IndexInRange(d, x, y);
  }

  lemma IndexStep(d: Dims, x: int, y: int, dx: int, dy: int)
    requires -1 <= dx <= 1 && -1 <= dy <= 1
    ensures d.MazeIndex(x + dx, y + dy) == d.MazeIndex(x, y) + dx + dy * d.Row()
    ensures d.MazeIndex(x + 2 * dx, y + 2 * dy) == d.MazeIndex(x, y) + 2 * dx + 2 * dy * d.Row()
  {
    IndexForm(d, x, y);
    IndexForm(d, x + dx, y + dy);
    IndexForm(d, x + 2 * dx, y + 2 * dy);
    Distribute(y + 1, dy, d.Row());
    Distribute(y + 1, 2 * dy, d.Row());
    Distribute(dy, dy, d.Row());
  }

  lemma NeighbourCells(d: Dims, x: int, y: int)
    requires d.Valid() && OddIn(d, x, y)
    ensures y > 1 ==> 0 <= d.MazeIndex(x, y - 2) < MAZE_LEN
    ensures x > 1 ==> 0 <= d.MazeIndex(x - 2, y) < MAZE_LEN
    ensures x < 2 * d.xd - 1 ==> 0 <= d.MazeIndex(x + 2, y) < MAZE_LEN
    ensures y < 2 * d.yd - 1 ==> 0 <= d.MazeIndex(x, y + 2) < MAZE_LEN
  {
    if y > 1 { IndexInRange(d, x, y - 2); }
    if x > 1 { IndexInRange(d, x - 2, y); }
    if x < 2 * d.xd - 1 { IndexInRange(d, x + 2, y); }
    if y < 2 * d.yd - 1 { IndexInRange(d, x, y + 2); }
  }

  lemma Sides(d: Dims, x: int, y: int)
    requires OddIn(d, x, y)
    ensures OddIn(d, x, y - 2) <==> y > 1
    ensures OddIn(d, x - 2, y) <==> x > 1
    ensures OddIn(d, x + 2, y) <==> x < 2 * d.xd - 1
    ensures OddIn(d, x, y + 2) <==> y < 2 * d.yd - 1
  {
  }

  /** An odd coordinate drawn from m lattice columns or rows. */
  function Drawn(r: nat, m: int): (x: int)
    requires m > 0
    ensures 0 < x < 2 * m && x % 2 == 1
  {
    r % m * 2 + 1
  }

  // ----- directions of a worm -----

  function Dx(dir: int): int { if dir == 1 then 1 else if dir == 3 then -1 else 0 }

  function Dy(dir: int): int { if dir == 2 then 1 else if dir == 0 then -1 else 0 }

  /** Index distance to the next lattice point in a direction. */
  function Step(dir: int, w: int): int {
    if dir == 0 then -2 * w else if dir == 1 then 2 else if dir == 2 then 2 * w else -2
  }

  lemma NextPoint(d: Dims, x: int, y: int, dir: int)
    requires 0 <= dir < 4
    ensures d.MazeIndex(x + 2 * Dx(dir), y + 2 * Dy(dir)) == d.MazeIndex(x, y) + Step(dir, d.Row())
  {
    IndexStep(d, x, y, Dx(dir), Dy(dir));
  }

  ghost predicate LatticeGoesOn(d: Dims, x: int, y: int, dir: int) {
    OddIn(d, x + 2 * Dx(dir), y + 2 * Dy(dir))
  }

  /** The guards of make_maze ask whether the lattice goes on. */
  lemma GoesOnIff(d: Dims, x: int, y: int, dir: int)
    requires OddIn(d, x, y) && 0 <= dir < 4
    ensures LatticeGoesOn(d, x, y, dir) <==>
              if dir == 0 then y > 1 else if dir == 1 then x < d.xd * 2 - 1
              else if dir == 2 then y < d.yd * 2 - 1 else x > 1
  {
    Sides(d, x, y);
  }

  const TURN_WT: seq<seq<int>> := [[1, 84], [1, 9], [3, 3], [1, 9]]

  /** Weight of a turn by so many quarters, into a wall or into open space. */
  function TurnWeight(turn: int, wall: bool): (weight: int)
    requires 0 <= turn < 4
    ensures 0 < weight
  {
    TURN_WT[turn][if wall then 1 else 0]
  }

  /** Whether the next lattice point in a direction is still a wall. */
  ghost predicate WallAhead(d: Dims, g: Grid, x: int, y: int, dir: int)
    requires d.Valid() && |g| == MAZE_LEN && OddIn(d, x, y) && 0 <= dir < 4 && LatticeGoesOn(d, x, y, dir)
  {
    OddPoint(d, x + 2 * Dx(dir), y + 2 * Dy(dir));
    g[d.MazeIndex(x + 2 * Dx(dir), y + 2 * Dy(dir))] == WALL
  }

  /** The weight of a direction: 0 when the lattice ends there. */
  ghost function Weight(d: Dims, g: Grid, x: int, y: int, prefDir: int, dir: int): (weight: int)
    requires d.Valid() && |g| == MAZE_LEN && OddIn(d, x, y) && 0 <= prefDir < 4 && 0 <= dir < 4
    ensures weight >= 0 && (weight > 0 <==> LatticeGoesOn(d, x, y, dir))
  {
    if !LatticeGoesOn(d, x, y, dir) then 0
    else TurnWeight((prefDir - dir + 4) % 4, WallAhead(d, g, x, y, dir))
  }

  ghost function WeightSum(d: Dims, g: Grid, x: int, y: int, prefDir: int, k: int): int
    requires d.Valid() && |g| == MAZE_LEN && OddIn(d, x, y) && 0 <= prefDir < 4 && 0 <= k <= 4
  {
    if k == 0 then 0 else WeightSum(d, g, x, y, prefDir, k - 1) + Weight(d, g, x, y, prefDir, k - 1)
  }

  lemma WeightSums(d: Dims, g: Grid, x: int, y: int, prefDir: int)
    requires d.Valid() && |g| == MAZE_LEN && OddIn(d, x, y) && 0 <= prefDir < 4
    ensures WeightSum(d, g, x, y, prefDir, 0) == 0
    ensures WeightSum(d, g, x, y, prefDir, 1) == Weight(d, g, x, y, prefDir, 0)
    ensures WeightSum(d, g, x, y, prefDir, 2) == WeightSum(d, g, x, y, prefDir, 1) + Weight(d, g, x, y, prefDir, 1)
    ensures WeightSum(d, g, x, y, prefDir, 3) == WeightSum(d, g, x, y, prefDir, 2) + Weight(d, g, x, y, prefDir, 2)
    ensures WeightSum(d, g, x, y, prefDir, 4) == WeightSum(d, g, x, y, prefDir, 3) + Weight(d, g, x, y, prefDir, 3) > 0
  {
  }

  /** A worm goes straight on into a wall with four chances in five or more. */
  lemma WormsGoStraight(d: Dims, g: Grid, x: int, y: int, prefDir: int)
    requires d.Valid() && |g| == MAZE_LEN && OddIn(d, x, y) && 0 <= prefDir < 4
    requires LatticeGoesOn(d, x, y, prefDir) && WallAhead(d, g, x, y, prefDir)
    ensures 5 * Weight(d, g, x, y, prefDir, prefDir) >= 4 * WeightSum(d, g, x, y, prefDir, 4)
  {
    FourWeights(d, g, x, y, prefDir);
    WeightAtMost(d, g, x, y, prefDir, (prefDir + 1) % 4);
    WeightAtMost(d, g, x, y, prefDir, (prefDir + 2) % 4);
    WeightAtMost(d, g, x, y, prefDir, (prefDir + 3) % 4);
  }

  lemma FourWeights(d: Dims, g: Grid, x: int, y: int, prefDir: int)
    requires d.Valid() && |g| == MAZE_LEN && OddIn(d, x, y) && 0 <= prefDir < 4
    ensures WeightSum(d, g, x, y, prefDir, 4) ==
            Weight(d, g, x, y, prefDir, prefDir) + Weight(d, g, x, y, prefDir, (prefDir + 1) % 4)
          + Weight(d, g, x, y, prefDir, (prefDir + 2) % 4) + Weight(d, g, x, y, prefDir, (prefDir + 3) % 4)
  {
    WeightSums(d, g, x, y, prefDir);
    var w := seq(4, dir requires 0 <= dir < 4 => Weight(d, g, x, y, prefDir, dir));
    SumRoundFrom(w, prefDir);
  }

  lemma SumRoundFrom(w: seq<int>, k: int)
    requires |w| == 4 && 0 <= k < 4
    ensures w[k] + w[(k + 1) % 4] + w[(k + 2) % 4] + w[(k + 3) % 4] == w[0] + w[1] + w[2] + w[3]
  {
  }

  lemma WeightAtMost(d: Dims, g: Grid, x: int, y: int, prefDir: int, dir: int)
    requires d.Valid() && |g| == MAZE_LEN && OddIn(d, x, y) && 0 <= prefDir < 4 && 0 <= dir < 4 && dir != prefDir
    ensures Weight(d, g, x, y, prefDir, dir) <= if dir == (prefDir + 2) % 4 then 3 else 9
  {
    QuarterTurns(prefDir, dir);
  }

  /**
    A worm turns aside three times as readily as back if there is a wall to eat, and a third as readily if
    there is none; it does not prefer left to right.
  */
  lemma WormsPreferWalls(d: Dims, g: Grid, x: int, y: int, prefDir: int, dir: int, other: int)
    requires d.Valid() && |g| == MAZE_LEN && OddIn(d, x, y) && 0 <= prefDir < 4 && 0 <= dir < 4 && 0 <= other < 4
    requires LatticeGoesOn(d, x, y, dir) && LatticeGoesOn(d, x, y, other) && dir != (prefDir + 2) % 4
    ensures other == (prefDir + 2) % 4 && !WallAhead(d, g, x, y, dir) ==>
              3 * Weight(d, g, x, y, prefDir, dir) == Weight(d, g, x, y, prefDir, other)
    ensures other == (prefDir + 2) % 4 && dir != prefDir && WallAhead(d, g, x, y, dir) ==>
              Weight(d, g, x, y, prefDir, dir) == 3 * Weight(d, g, x, y, prefDir, other)
    ensures other == (2 * prefDir - dir + 4) % 4 && (WallAhead(d, g, x, y, other) <==> WallAhead(d, g, x, y, dir)) ==>
              Weight(d, g, x, y, prefDir, other) == Weight(d, g, x, y, prefDir, dir)
  {
    QuarterTurns(prefDir, dir);
    QuarterTurns(prefDir, other);
  }

  lemma QuarterTurns(prefDir: int, dir: int)
    requires 0 <= prefDir < 4 && 0 <= dir < 4
    ensures (prefDir - dir + 4) % 4 == if dir <= prefDir then prefDir - dir else prefDir - dir + 4
  {
  }

  lemma WeightSumIs(d: Dims, g: Grid, x: int, y: int, prefDir: int, wt: seq<int>)
    requires d.Valid() && |g| == MAZE_LEN && OddIn(d, x, y) && 0 <= prefDir < 4 && |wt| == 4
    requires wt[0] == Weight(d, g, x, y, prefDir, 0) && wt[1] == wt[0] + Weight(d, g, x, y, prefDir, 1)
    requires wt[2] == wt[1] + Weight(d, g, x, y, prefDir, 2) && wt[3] == wt[2] + Weight(d, g, x, y, prefDir, 3)
    ensures forall k :: 0 <= k < 4 ==> wt[k] == WeightSum(d, g, x, y, prefDir, k + 1)
    ensures forall k :: 0 <= k < 4 && wt[k] > (if k == 0 then 0 else wt[k - 1]) ==> LatticeGoesOn(d, x, y, k)
  {
    WeightSums(d, g, x, y, prefDir);
    assert wt[0] == WeightSum(d, g, x, y, prefDir, 1);
    assert wt[1] == WeightSum(d, g, x, y, prefDir, 2);
    assert wt[2] == WeightSum(d, g, x, y, prefDir, 3);
    assert wt[3] == WeightSum(d, g, x, y, prefDir, 4);
  }

  lemma DigBoth(pts: set<int>, w: int, g: Grid, remaining: int, a: int, b: int)
    requires LatticePoints(pts, w) && Digging(pts, w, g, remaining)
    requires a in pts && b in pts && !g[a].wall
    requires b == a - 2 * w || b == a + 2 || b == a + 2 * w || b == a - 2
    ensures 0 <= Middle(a, b) < |g| && Middle(a, b) != b && Middle(a, b) != a
    ensures g[b].wall <==> g[b] == WALL
    ensures Digging(pts, w, g[Middle(a, b) := NONE][b := NONE], if g[b].wall then remaining - 1 else remaining)
  {
    assert CellShape(pts, w, g, b);
    DigPoint(pts, w, g, remaining, b);
    var g' := g[b := NONE];
    var r := if g[b].wall then remaining - 1 else remaining;
    DigPassage(pts, w, g', r, a, b);
    assert g[Middle(a, b) := NONE][b := NONE] == g'[Middle(a, b) := NONE];
    assert b !in Marked(pts, g);
  }

  /** The passage between the neighbours a and b is open, and so is b; nothing else has changed. */
  ghost predicate Dug(a: int, b: int, w: int, g: Grid, g': Grid) {
    && (b == a - 2 * w || b == a + 2 || b == a + 2 * w || b == a - 2)
    && 0 <= Middle(a, b) < |g| && 0 <= b < |g| && g' == g[Middle(a, b) := NONE][b := NONE]
  }

  /** From g0 to g cells have only been emptied; the new open points, and cur, are joined to start. */
  ghost predicate Trail(d: Dims, g0: Grid, g: Grid, start: int, cur: int) {
    && |g| == |g0| && (forall n :: 0 <= n < |g| && g[n] != g0[n] ==> g[n] == NONE)
    && (forall n :: n in d.Points() && Open(g, n) && !Open(g0, n) ==> Reach(g, d.Row(), {}, start, n))
    && Reach(g, d.Row(), {}, start, cur)
  }

  lemma TrailGrows(d: Dims, g0: Grid, g: Grid, g': Grid, start: int, a: int, b: int)
    requires d.Valid() && a in d.Points() && b in d.Points() && Trail(d, g0, g, start, a) && Dug(a, b, d.Row(), g, g')
    ensures Trail(d, g0, g', start, b)
  {
    ReachMono(g, g', d.Row(), {}, {}, start, a);
    PointsAreLattice(d);
    PassageNoPoint(d.Points(), d.Row(), a, b);
    assert Edge(g', d.Row(), a, b);
    ReachStep(g', d.Row(), {}, start, a, b);
    forall n | n in d.Points() && Open(g', n) && !Open(g0, n) ensures Reach(g', d.Row(), {}, start, n) {
      if n != b {
        assert Open(g, n);
        ReachMono(g, g', d.Row(), {}, {}, start, n);
      }
    }
  }

  /** The cell between two neighbouring points is not a point. */
  lemma PassageNoPoint(pts: set<int>, w: int, a: int, b: int)
    requires LatticePoints(pts, w) && a in pts && b in pts
    requires b == a - 2 * w || b == a + 2 || b == a + 2 * w || b == a - 2
    ensures Middle(a, b) !in pts
  {
    var m := Middle(a, b);
    assert m == a - w || m == a + 1 || m == a + w || m == a - 1;
    assert a == (a - w) + w;
  }
}
