/**
  What the two phases of make_maze keep, on grid values: digging (worms) and joining.
*/
module MazeConnect {
  import opened Finite
  import opened MazeLattice

  // ----- worm phase -----

  /** Nothing is marked, only points and passages between open points are open, `remaining` points are walls. */
  ghost predicate Digging(pts: set<int>, w: int, g: Grid, remaining: int) {
    LatticeShape(pts, w, g) && Marked(pts, g) == {} && remaining == |Walled(pts, g)|
  }

  lemma AllWalls(pts: set<int>, w: int, g: Grid)
    requires LatticePoints(pts, w) && |g| == MAZE_LEN && forall n :: 0 <= n < |g| ==> g[n] == WALL
    ensures Digging(pts, w, g, |pts|)
  {
    assert Walled(pts, g) == pts;
  }

  lemma DigPoint(pts: set<int>, w: int, g: Grid, remaining: int, n: int)
    requires LatticePoints(pts, w) && Digging(pts, w, g, remaining) && n in pts
    ensures Digging(pts, w, g[n := NONE], if g[n].wall then remaining - 1 else remaining)
  {
    var g' := g[n := NONE];
    assert Walled(pts, g') == Walled(pts, g) - {n};
    forall k | 0 <= k < |g'| ensures CellShape(pts, w, g', k) {
      assert CellShape(pts, w, g, k);
    }
  }

  /** Opening the passage between two open points, neither of which is affected. */
  lemma DigPassage(pts: set<int>, w: int, g: Grid, remaining: int, a: int, b: int)
    requires LatticePoints(pts, w) && Digging(pts, w, g, remaining)
    requires a in pts && b in pts && !g[a].wall && !g[b].wall
    requires b == a - 2 * w || b == a + 2 || b == a + 2 * w || b == a - 2
    ensures Middle(a, b) !in pts && 0 <= Middle(a, b) < |g|
    ensures Digging(pts, w, g[Middle(a, b) := NONE], remaining)
  {
    OpenPassageShape(pts, w, g, a, b);
    var g' := g[Middle(a, b) := NONE];
    assert Walled(pts, g') == Walled(pts, g);
    assert Marked(pts, g') == Marked(pts, g);
  }

  lemma OpenPassageShape(pts: set<int>, w: int, g: Grid, a: int, b: int)
    requires LatticePoints(pts, w) && LatticeShape(pts, w, g)
    requires a in pts && b in pts && !g[a].wall && !g[b].wall
    requires b == a - 2 * w || b == a + 2 || b == a + 2 * w || b == a - 2
    ensures Middle(a, b) !in pts && 0 <= Middle(a, b) < |g|
    ensures LatticeShape(pts, w, g[Middle(a, b) := NONE])
  {
    var m := Middle(a, b);
    assert m !in pts;
    var g' := g[m := NONE];
    forall k | 0 <= k < |g'| ensures CellShape(pts, w, g', k) {
      assert CellShape(pts, w, g, k);
      if k == m {
        assert Passage(pts, g', m, 1) || Passage(pts, g', m, w);
      }
    }
  }

  // ----- joining phase -----

  /** All points are open, the marked ones are those joined to root, `remaining` are not marked yet. */
  ghost predicate Connecting(pts: set<int>, w: int, root: int, g: Grid, remaining: int) {
    && LatticeShape(pts, w, g) && Walled(pts, g) == {}
    && root in Marked(pts, g) && MarkedIsComponent(pts, w, g, root)
    && remaining == |pts| - |Marked(pts, g)|
  }

  lemma FirstMark(pts: set<int>, w: int, root: int, g0: Grid, g: Grid)
    requires LatticePoints(pts, w) && Digging(pts, w, g0, 0) && root in pts
    requires MarkedBy(g0, g, Area(pts, w, g0, root))
    ensures Connecting(pts, w, root, g, |pts| - |Area(pts, w, g0, root)|)
  {
    var area := Area(pts, w, g0, root);
    assert Walled(pts, g0) == {};
    forall n | n in area ensures !g0[n].wall { assert n !in Walled(pts, g0); }
    MarkingKeepsShape(pts, w, g0, g, area);
    assert Walled(pts, g) == {} by { assert Walled(pts, g) <= Walled(pts, g0); }
    assert Marked(pts, g) == area by { assert Marked(pts, g0) == {}; MarkedGrows(pts, g0, g, area); }
    ReachSelf(g0, w, {}, root);
    forall n | n in pts ensures Reach(g0, w, {}, root, n) <==> Reach(g, w, {}, root, n) {
      if Reach(g0, w, {}, root, n) { ReachMono(g0, g, w, {}, {}, root, n); }
      if Reach(g, w, {}, root, n) { ReachMono(g, g0, w, {}, {}, root, n); }
    }
  }

  lemma MarkedGrows(pts: set<int>, g0: Grid, g: Grid, s: set<int>)
    requires MarkedBy(g0, g, s) && s <= pts && forall n :: n in s ==> 0 <= n < |g0|
    ensures Marked(pts, g) == Marked(pts, g0) + s
  {
  }

  /** One successful turn of the joining loop. */
  lemma JoinStep(pts: set<int>, w: int, root: int, g0: Grid, g1: Grid, g2: Grid, remaining: int, c: int, m: int)
    requires LatticePoints(pts, w) && Connecting(pts, w, root, g0, remaining)
    requires c in pts && c !in Marked(pts, g0) && m in Marked(pts, g0)
    requires m == c - 2 * w || m == c + 2 || m == c + 2 * w || m == c - 2
    requires 0 <= Middle(c, m) < |g0| && g1 == g0[Middle(c, m) := NONE]
    requires MarkedBy(g1, g2, Area(pts, w, g1, c))
    ensures Connecting(pts, w, root, g2, remaining - |Area(pts, w, g1, c)|)
    ensures |Area(pts, w, g1, c)| > 0
  {
    var area := Area(pts, w, g1, c);
    BreakingKeepsShape(pts, w, root, g0, g1, remaining, c, m);
    JoinKeepsComponent(pts, w, root, g0, g1, g2, c, m);
    AreaIsNew(pts, w, g1, c);
    forall n | n in area ensures !g1[n].wall { assert n !in Walled(pts, g1); }
    MarkingKeepsShape(pts, w, g1, g2, area);
    assert Walled(pts, g2) == {} by { assert Walled(pts, g2) <= Walled(pts, g1); }
    MarkedGrows(pts, g1, g2, area);
  }

  lemma BreakingKeepsShape(pts: set<int>, w: int, root: int, g0: Grid, g1: Grid, remaining: int, c: int, m: int)
    requires LatticePoints(pts, w) && Connecting(pts, w, root, g0, remaining)
    requires c in pts && c !in Marked(pts, g0) && m in Marked(pts, g0)
    requires m == c - 2 * w || m == c + 2 || m == c + 2 * w || m == c - 2
    requires 0 <= Middle(c, m) < |g0| && g1 == g0[Middle(c, m) := NONE]
    ensures LatticeShape(pts, w, g1) && Walled(pts, g1) == {} && Marked(pts, g1) == Marked(pts, g0)
    ensures WallBroken(pts, w, root, g0, g1, c, m)
  {
    assert c !in Walled(pts, g0) && m !in Walled(pts, g0);
    OpenPassageShape(pts, w, g0, c, m);
    ShapeIsFenced(pts, w, g1);
    assert Walled(pts, g1) == {} by { assert Walled(pts, g1) <= Walled(pts, g0); }
  }

  /** The area of an unmarked point contains it and no marked point. */
  lemma AreaIsNew(pts: set<int>, w: int, g: Grid, c: int)
    requires c in pts && c !in Marked(pts, g)
    ensures c in Area(pts, w, g, c) && Marked(pts, g) !! Area(pts, w, g, c)
  {
    ReachSelf(g, w, Marked(pts, g), c);
    forall n | n in Area(pts, w, g, c) ensures n !in Marked(pts, g) { AreaUnmarked(pts, w, g, c, n); }
  }

  lemma AreaUnmarked(pts: set<int>, w: int, g: Grid, s: int, n: int)
    requires s !in Marked(pts, g) && n in Area(pts, w, g, s)
    ensures n !in Marked(pts, g)
  {
    var p :| Walk(g, w, Marked(pts, g), p) && p[0] == s && p[|p| - 1] == n;
  }

  lemma Unfinished(pts: set<int>, w: int, root: int, g: Grid, remaining: int)
    requires Connecting(pts, w, root, g, remaining)
    ensures remaining >= 0
    ensures remaining > 0 ==> exists n :: n in pts && n !in Marked(pts, g)
    ensures remaining == 0 ==> Marked(pts, g) == pts
  {
    SubsetSize(Marked(pts, g), pts);
    if forall n :: n in pts ==> n in Marked(pts, g) {
      assert Marked(pts, g) == pts;
    }
  }

  // ----- the cyclic scan -----

  function ScanIndex(d: Dims, i: int, j: int): int { i + j * d.xd }

  /** Turns of the scan until position t comes up, from position k. */
  function Turns(n: int, k: int, t: int): int { if t > k then t - k else t - k + n }

  lemma ScanRange(d: Dims, i: int, j: int)
    requires d.InLattice(i, j)
    ensures 0 <= ScanIndex(d, i, j) < d.xd * d.yd
  {
    MulLe(j, d.xd, d.yd - 1, d.xd);
    Distribute(d.yd - 1, 1, d.xd);
  }

  lemma ScanInjective(d: Dims, i: int, j: int, i': int, j': int)
    requires d.InLattice(i, j) && d.InLattice(i', j') && ScanIndex(d, i, j) == ScanIndex(d, i', j')
    ensures i == i' && j == j'
  {
    Distribute(j, j' - j, d.xd);
    SmallMultiple(d.xd, j' - j);
  }

  lemma ScanAdvance(d: Dims, i: int, j: int, i': int, j': int, ti: int, tj: int)
    requires d.InLattice(i, j) && d.InLattice(i', j') && d.InLattice(ti, tj)
    requires if i + 1 < d.xd then i' == i + 1 && j' == j else i' == 0 && j' == (if j + 1 < d.yd then j + 1 else 0)
    ensures (i', j') == (ti, tj)
         || 0 <= Turns(d.xd * d.yd, ScanIndex(d, i', j'), ScanIndex(d, ti, tj))
              < Turns(d.xd * d.yd, ScanIndex(d, i, j), ScanIndex(d, ti, tj))
  {
    ScanRange(d, i, j);
    ScanRange(d, i', j');
    ScanRange(d, ti, tj);
    if ScanIndex(d, i', j') == ScanIndex(d, ti, tj) { ScanInjective(d, i', j', ti, tj); }
    Distribute(j, 1, d.xd);
    Distribute(d.yd - 1, 1, d.xd);
    assert ScanIndex(d, i', j') == ScanIndex(d, i, j) + 1 || (ScanIndex(d, i', j') == 0
        && ScanIndex(d, i, j) == d.xd * d.yd - 1);
  }
}
