/**
  The worm phase of make_maze (mp2/maze.c) as a machine on values that consumes one random number a
  step.  A phase ends if the right numbers come, and whatever has come so far they can still come.
*/
module WormRun {
  import opened MazeLattice
  import opened MazeConnect
  import opened MazePlay
  import opened MazeWorms

  /** What the next random number is for. */
  datatype Stage = PickX | PickY | Prefer | Wander(prefDir: int) | Finished

  datatype Worms = Worms(g: Grid, stage: Stage, x: int, y: int, remaining: int)

  predicate Placed(d: Dims, s: Worms) {
    && d.Valid() && |s.g| == MAZE_LEN && OddIn(d, s.x, s.y)
    && (s.stage.Wander? ==> 0 <= s.stage.prefDir < 4)
  }

  /** Whether turning from one direction to the other is turning round. */
  predicate TurnsRound(prefDir: int, dir: int) { (dir - prefDir + 4) % 4 == 2 }

  /** The direction that the random number r chooses: the first whose cumulated weight exceeds r % total. */
  ghost function Chosen(d: Dims, g: Grid, x: int, y: int, prefDir: int, r: nat): (dir: int)
    requires d.Valid() && |g| == MAZE_LEN && OddIn(d, x, y) && 0 <= prefDir < 4
    ensures 0 <= dir < 4 && LatticeGoesOn(d, x, y, dir)
  {
    WeightSums(d, g, x, y, prefDir);
    var pick := r % WeightSum(d, g, x, y, prefDir, 4);
    if pick < WeightSum(d, g, x, y, prefDir, 1) then 0
    else if pick < WeightSum(d, g, x, y, prefDir, 2) then 1
    else if pick < WeightSum(d, g, x, y, prefDir, 3) then 2
    else 3
  }

  lemma ChosenIs(d: Dims, g: Grid, x: int, y: int, prefDir: int, r: nat, dir: int)
    requires d.Valid() && |g| == MAZE_LEN && OddIn(d, x, y) && 0 <= prefDir < 4 && 0 <= dir < 4
    requires 0 < WeightSum(d, g, x, y, prefDir, 4)
    requires WeightSum(d, g, x, y, prefDir, dir) <= r % WeightSum(d, g, x, y, prefDir, 4)
           < WeightSum(d, g, x, y, prefDir, dir + 1)
    ensures Chosen(d, g, x, y, prefDir, r) == dir
  {
    WeightSums(d, g, x, y, prefDir);
  }

  /** A worm moves on: the passage and the next point are emptied. */
  ghost function MoveOn(d: Dims, s: Worms, dir: int): (t: Worms)
    requires Placed(d, s) && 0 <= dir < 4 && LatticeGoesOn(d, s.x, s.y, dir)
    ensures Placed(d, t)
  {
    var x, y := s.x + 2 * Dx(dir), s.y + 2 * Dy(dir);
    OddPoint(d, x, y);
    IndexInRange(d, s.x + Dx(dir), s.y + Dy(dir));
    var passage, next := d.MazeIndex(s.x + Dx(dir), s.y + Dy(dir)), d.MazeIndex(x, y);
    Worms(s.g[passage := NONE][next := NONE], Wander(dir), x, y,
          if s.g[next] == WALL then s.remaining - 1 else s.remaining)
  }

  /** A worm is dropped on the point that has been drawn, if this is still a wall. */
  ghost function Drop(d: Dims, s: Worms): (t: Worms)
    requires Placed(d, s)
    ensures Placed(d, t)
  {
    OddPoint(d, s.x, s.y);
    if s.g[d.MazeIndex(s.x, s.y)].wall
    then Worms(s.g[d.MazeIndex(s.x, s.y) := NONE], Prefer, s.x, s.y, s.remaining - 1)
    else s.(stage := PickX)
  }

  ghost function WormStep(d: Dims, s: Worms, r: nat): (t: Worms)
    requires Placed(d, s)
    ensures Placed(d, t)
  {
    match s.stage
    case PickX => s.(x := Drawn(r, d.xd), stage := PickY)
    case PickY => Drop(d, s.(y := Drawn(r, d.yd)))
    case Prefer => s.(stage := Wander(r % 4))
    case Wander(prefDir) =>
      var dir := Chosen(d, s.g, s.x, s.y, prefDir, r);
      if !TurnsRound(prefDir, dir) then MoveOn(d, s, dir)
      else s.(stage := if s.remaining > 0 then PickX else Finished)
    case Finished => s
  }

  ghost function Run(d: Dims, s: Worms, rnd: seq<nat>): (t: Worms)
    requires Placed(d, s)
    ensures Placed(d, t)
  {
    if rnd == [] then s else WormStep(d, Run(d, s, rnd[..|rnd| - 1]), rnd[|rnd| - 1])
  }

  lemma {:induction false} RunConcat(d: Dims, s: Worms, a: seq<nat>, b: seq<nat>)
    requires Placed(d, s)
    ensures Run(d, s, a + b) == Run(d, Run(d, s, a), b)
  {
    if b == [] {
      assert a + b == a;
    } else {
      var front := b[..|b| - 1];
      RunConcat(d, s, a, front);
      assert (a + b)[..|a + b| - 1] == a + front;
    }
  }

  lemma RunOne(d: Dims, s: Worms, r: nat)
    requires Placed(d, s)
    ensures Run(d, s, [r]) == WormStep(d, s, r)
  {
    assert [r][..0] == [];
  }

  lemma RunNext(d: Dims, s: Worms, rnd: seq<nat>, k: nat)
    requires Placed(d, s) && k < |rnd|
    ensures Run(d, s, rnd[..k + 1]) == WormStep(d, Run(d, s, rnd[..k]), rnd[k])
  {
    assert rnd[..k + 1][..k] == rnd[..k];
  }

  lemma RunStep(d: Dims, s: Worms, r: nat, more: seq<nat>)
    requires Placed(d, s)
    ensures Run(d, s, [r] + more) == Run(d, WormStep(d, s, r), more)
  {
    RunConcat(d, s, [r], more);
    RunOne(d, s, r);
  }

  lemma {:induction false} FinishedStays(d: Dims, s: Worms, more: seq<nat>)
    requires Placed(d, s) && s.stage.Finished?
    ensures Run(d, s, more) == s
  {
    if more == [] {
    } else {
      FinishedStays(d, s, more[..|more| - 1]);
    }
  }

  // ----- the phase from its start -----

  function AllWalled(): (g: Grid)
    ensures |g| == MAZE_LEN && forall n :: 0 <= n < |g| ==> g[n] == WALL
  {
    seq(MAZE_LEN, _ => WALL)
  }

  function Started(d: Dims): Worms { Worms(AllWalled(), PickX, 1, 1, d.xd * d.yd) }

  /** The state after the first k numbers of rnd. */
  ghost function At(d: Dims, rnd: seq<nat>, k: nat): (s: Worms)
    requires d.Valid() && k <= |rnd|
    ensures Placed(d, s)
  {
    Run(d, Started(d), rnd[..k])
  }

  /** The worm phase of a maze ends within these random numbers. */
  ghost predicate Suffices(d: Dims, rnd: seq<nat>) {
    d.Valid() && At(d, rnd, |rnd|).stage.Finished?
  }

  lemma AtNext(d: Dims, rnd: seq<nat>, k: nat)
    requires d.Valid() && k < |rnd|
    ensures At(d, rnd, k + 1) == WormStep(d, At(d, rnd, k), rnd[k])
  {
    RunNext(d, Started(d), rnd, k);
  }

  /** The step of a worm that turns round. */
  lemma AtTurn(d: Dims, rnd: seq<nat>, k: nat, s: Worms, dir: int)
    requires d.Valid() && k < |rnd| && At(d, rnd, k) == s && s.stage.Wander?
    requires Chosen(d, s.g, s.x, s.y, s.stage.prefDir, rnd[k]) == dir && TurnsRound(s.stage.prefDir, dir)
    ensures At(d, rnd, k + 1) == s.(stage := if s.remaining > 0 then PickX else Finished)
  {
    AtNext(d, rnd, k);
  }

  /** The step of a worm that moves on. */
  lemma AtMove(d: Dims, rnd: seq<nat>, k: nat, s: Worms, dir: int)
    requires d.Valid() && k < |rnd| && At(d, rnd, k) == s && s.stage.Wander?
    requires Chosen(d, s.g, s.x, s.y, s.stage.prefDir, rnd[k]) == dir && !TurnsRound(s.stage.prefDir, dir)
    ensures At(d, rnd, k + 1) == MoveOn(d, s, dir)
  {
    AtNext(d, rnd, k);
  }

  lemma AtFinished(d: Dims, rnd: seq<nat>, k: nat)
    requires d.Valid() && k <= |rnd| && At(d, rnd, k).stage.Finished?
    ensures At(d, rnd, |rnd|) == At(d, rnd, k) && Suffices(d, rnd)
  {
    RunConcat(d, Started(d), rnd[..k], rnd[k..]);
    assert rnd[..k] + rnd[k..] == rnd[..|rnd|];
    FinishedStays(d, At(d, rnd, k), rnd[k..]);
  }

  /** Numbers that come after the end of the phase make no difference. */
  lemma MoreSuffices(d: Dims, rnd: seq<nat>, more: seq<nat>)
    requires Suffices(d, rnd)
    ensures Suffices(d, rnd + more) && At(d, rnd + more, |rnd + more|) == At(d, rnd, |rnd|)
  {
    assert (rnd + more)[..|rnd|] == rnd == rnd[..|rnd|];
    AtFinished(d, rnd + more, |rnd|);
  }

  // ----- what every step keeps -----

  /** While worms are dug, the count is that of the walled points, and a worm stands on an open one. */
  ghost predicate Sound(d: Dims, s: Worms) {
    && Placed(d, s) && Digging(d.Points(), d.Row(), s.g, s.remaining)
    && (s.stage.PickX? || s.stage.PickY? ==> s.remaining > 0)
    && (s.stage.Finished? ==> s.remaining == 0)
    && (s.stage.Prefer? || s.stage.Wander? ==> OpenAt(d, s.g, s.x, s.y))
  }

  ghost predicate OpenAt(d: Dims, g: Grid, x: int, y: int) {
    0 <= d.MazeIndex(x, y) < |g| && !g[d.MazeIndex(x, y)].wall
  }

  lemma PassageIsMiddle(d: Dims, x: int, y: int, dir: int)
    requires 0 <= dir < 4
    ensures Middle(d.MazeIndex(x, y), d.MazeIndex(x + 2 * Dx(dir), y + 2 * Dy(dir)))
         == d.MazeIndex(x + Dx(dir), y + Dy(dir))
  {
    IndexStep(d, x, y, Dx(dir), Dy(dir));
  }

  /** A move in terms of the two points, as DigBoth speaks of them. */
  lemma MoveIs(d: Dims, s: Worms, dir: int, a: int, b: int)
    requires Placed(d, s) && 0 <= dir < 4 && LatticeGoesOn(d, s.x, s.y, dir)
    requires a == d.MazeIndex(s.x, s.y) && b == d.MazeIndex(s.x + 2 * Dx(dir), s.y + 2 * Dy(dir))
    ensures a in d.Points() && b in d.Points() && 0 <= a < MAZE_LEN && 0 <= b < MAZE_LEN
    ensures b == a + Step(dir, d.Row()) && 0 <= Middle(a, b) < MAZE_LEN
    ensures Middle(a, b) == d.MazeIndex(s.x + Dx(dir), s.y + Dy(dir))
    ensures var t := MoveOn(d, s, dir);
            && t.g == s.g[Middle(a, b) := NONE][b := NONE] && d.MazeIndex(t.x, t.y) == b
            && t.remaining == if s.g[b] == WALL then s.remaining - 1 else s.remaining
  {
    OddPoint(d, s.x, s.y);
    OddPoint(d, s.x + 2 * Dx(dir), s.y + 2 * Dy(dir));
    NextPoint(d, s.x, s.y, dir);
    PassageIsMiddle(d, s.x, s.y, dir);
    IndexInRange(d, s.x + Dx(dir), s.y + Dy(dir));
  }

  lemma MoveSound(d: Dims, s: Worms, dir: int)
    requires Sound(d, s) && s.stage.Wander? && 0 <= dir < 4 && LatticeGoesOn(d, s.x, s.y, dir)
    ensures Sound(d, MoveOn(d, s, dir))
    ensures OpenAt(d, MoveOn(d, s, dir).g, s.x, s.y)
    ensures OpenAt(d, MoveOn(d, s, dir).g, s.x + Dx(dir), s.y + Dy(dir))
    ensures MoveOn(d, s, dir).remaining <= s.remaining
  {
    var a, b := d.MazeIndex(s.x, s.y), d.MazeIndex(s.x + 2 * Dx(dir), s.y + 2 * Dy(dir));
    PointsAreLattice(d);
    MoveIs(d, s, dir, a, b);
    DigBoth(d.Points(), d.Row(), s.g, s.remaining, a, b);
  }

  lemma DropSound(d: Dims, s: Worms)
    requires Placed(d, s) && Digging(d.Points(), d.Row(), s.g, s.remaining) && s.remaining > 0
    ensures Sound(d, Drop(d, s)) && Drop(d, s).remaining <= s.remaining
  {
    PointsAreLattice(d);
    OddPoint(d, s.x, s.y);
    DigPoint(d.Points(), d.Row(), s.g, s.remaining, d.MazeIndex(s.x, s.y));
  }

  lemma StepSound(d: Dims, s: Worms, r: nat)
    requires Sound(d, s)
    ensures Sound(d, WormStep(d, s, r)) && WormStep(d, s, r).remaining <= s.remaining
  {
    match s.stage
    case PickX =>
    case PickY => DropSound(d, s.(y := Drawn(r, d.yd)));
    case Prefer =>
    case Wander(prefDir) =>
      MoveSound(d, s, Chosen(d, s.g, s.x, s.y, prefDir, r));
    case Finished =>
  }

  /** Whatever numbers come, the maze under construction is sound; when the phase has ended, every point is open. */
  lemma {:induction false} RunSound(d: Dims, s: Worms, rnd: seq<nat>)
    requires Sound(d, s)
    ensures Sound(d, Run(d, s, rnd)) && Run(d, s, rnd).remaining <= s.remaining
  {
    if rnd == [] {
    } else {
      RunSound(d, s, rnd[..|rnd| - 1]);
      StepSound(d, Run(d, s, rnd[..|rnd| - 1]), rnd[|rnd| - 1]);
    }
  }

  lemma AtSound(d: Dims, rnd: seq<nat>, k: nat)
    requires d.Valid() && k <= |rnd|
    ensures Sound(d, At(d, rnd, k))
  {
    StartSound(d);
    RunSound(d, Started(d), rnd[..k]);
  }

  /** The trail of a worm that has just been dropped. */
  lemma NewTrail(d: Dims, rnd: seq<nat>, k: nat, s: Worms)
    requires d.Valid() && k <= |rnd| && At(d, rnd, k) == s && s.stage.Prefer?
    ensures Trail(d, s.g, s.g, d.MazeIndex(s.x, s.y), d.MazeIndex(s.x, s.y))
  {
    AtSound(d, rnd, k);
    ReachSelf(s.g, d.Row(), {}, d.MazeIndex(s.x, s.y));
  }

  lemma StartSound(d: Dims)
    requires d.Valid()
    ensures Sound(d, Started(d))
  {
    PointsAreLattice(d);
    AllWalls(d.Points(), d.Row(), AllWalled());
    PointCount(d);
    MulLe(1, 1, d.xd, d.yd);
  }

  // ----- every phase can still end -----

  /** Every direction in which the lattice goes on is chosen for some random number. */
  lemma EveryWayIsChosen(d: Dims, g: Grid, x: int, y: int, prefDir: int, dir: int) returns (r: nat)
    requires d.Valid() && |g| == MAZE_LEN && OddIn(d, x, y) && 0 <= prefDir < 4 && 0 <= dir < 4
    requires LatticeGoesOn(d, x, y, dir)
    ensures Chosen(d, g, x, y, prefDir, r) == dir
  {
    WeightSums(d, g, x, y, prefDir);
    r := WeightSum(d, g, x, y, prefDir, dir);
    assert 0 <= r < WeightSum(d, g, x, y, prefDir, dir + 1) <= WeightSum(d, g, x, y, prefDir, 4);
    SmallRemainder(r, WeightSum(d, g, x, y, prefDir, 4));
    ChosenIs(d, g, x, y, prefDir, r, dir);
  }

  lemma SmallRemainder(r: nat, m: int)
    requires r < m
    ensures r % m == r
  {
  }

  /**
    Wherever the lattice goes on, some random number makes the worm turn round and end if that is the way
    back, and dig on to the next point if it is not.
  */
  lemma EveryWayIsPossible(d: Dims, s: Worms, dir: int) returns (r: nat)
    requires Sound(d, s) && s.stage.Wander? && 0 <= dir < 4 && LatticeGoesOn(d, s.x, s.y, dir)
    ensures var t := WormStep(d, s, r);
            if TurnsRound(s.stage.prefDir, dir) then
              && t.g == s.g && (t.stage == if s.remaining > 0 then PickX else Finished)
            else
              && (t.x, t.y) == (s.x + 2 * Dx(dir), s.y + 2 * Dy(dir)) && t.stage == Wander(dir)
              && OpenAt(d, t.g, s.x + Dx(dir), s.y + Dy(dir)) && OpenAt(d, t.g, t.x, t.y)
  {
    r := EveryWayIsChosen(d, s.g, s.x, s.y, s.stage.prefDir, dir);
    MoveSound(d, s, dir);
  }

  /** A lattice has two columns and two rows at least, so that a worm can go on or back. */
  lemma WayBack(d: Dims, x: int, y: int, dir: int)
    requires d.Valid() && OddIn(d, x, y) && 0 <= dir < 4
    ensures TurnsRound(dir, (dir + 2) % 4)
    ensures LatticeGoesOn(d, x, y, dir) || LatticeGoesOn(d, x, y, (dir + 2) % 4)
    ensures LatticeGoesOn(d, x + 2 * Dx(dir), y + 2 * Dy(dir), (dir + 2) % 4)
  {
    Sides(d, x, y);
  }

  lemma EndWorm(d: Dims, s: Worms) returns (more: seq<nat>)
    requires Sound(d, s) && s.stage.Wander?
    ensures Run(d, s, more).stage == if Run(d, s, more).remaining > 0 then PickX else Finished
  {
    var dir := s.stage.prefDir;
    WayBack(d, s.x, s.y, dir);
    if LatticeGoesOn(d, s.x, s.y, (dir + 2) % 4) {
      var r := EveryWayIsPossible(d, s, (dir + 2) % 4);
      more := [r];
      RunOne(d, s, r);
    } else {
      var r := EveryWayIsPossible(d, s, dir);
      var t := WormStep(d, s, r);
      StepSound(d, s, r);
      var r' := EveryWayIsPossible(d, t, (dir + 2) % 4);
      more := [r] + [r'];
      RunStep(d, s, r, [r']);
      RunOne(d, t, r');
    }
  }

  lemma WalledMember(pts: set<int>, g: Grid) returns (n: int)
    requires |Walled(pts, g)| > 0
    ensures n in pts && 0 <= n < |g| && g[n].wall
  {
    n :| n in Walled(pts, g);
  }

  lemma WalledPoint(d: Dims, g: Grid) returns (x: int, y: int)
    requires d.Valid() && |Walled(d.Points(), g)| > 0
    ensures OddIn(d, x, y) && 0 <= d.MazeIndex(x, y) < |g| && g[d.MazeIndex(x, y)].wall
  {
    var n := WalledMember(d.Points(), g);
    x, y := PointCoordinates(d, n);
  }

  /** Every odd coordinate can be drawn. */
  lemma Draws(x: int, m: int) returns (r: nat)
    requires 0 < x < 2 * m && x % 2 == 1
    ensures Drawn(r, m) == x
  {
    r := x / 2;
    SmallRemainder(r, m);
  }

  /** On every point that is still a wall a worm can start, in every direction; three numbers do it. */
  lemma EveryStartIsPossible(d: Dims, s: Worms, x: int, y: int, dir: int) returns (more: seq<nat>)
    requires Sound(d, s) && s.stage.PickX? && OddIn(d, x, y) && 0 <= dir < 4
    requires 0 <= d.MazeIndex(x, y) < |s.g| && s.g[d.MazeIndex(x, y)].wall
    ensures var t := Run(d, s, more);
            && t.stage == Wander(dir) && (t.x, t.y) == (x, y) && t.remaining == s.remaining - 1
            && t.g == s.g[d.MazeIndex(x, y) := NONE]
  {
    var i := Draws(x, d.xd);
    var j := Draws(y, d.yd);
    SmallRemainder(dir, 4);
    var t := WormStep(d, s, i);
    var u := WormStep(d, t, j);
    more := [i] + ([j] + [dir]);
    RunStep(d, s, i, [j] + [dir]);
    RunStep(d, t, j, [dir]);
    RunOne(d, u, dir);
  }

  /** From any sound state in which a point is to be picked, worms that turn round at once end the phase. */
  lemma {:induction false} EndWorms(d: Dims, s: Worms) returns (more: seq<nat>)
    requires Sound(d, s) && s.stage.PickX?
    ensures Run(d, s, more).stage.Finished?
    decreases s.remaining, 0
  {
    var x, y := WalledPoint(d, s.g);
    var first := EveryStartIsPossible(d, s, x, y, 0);
    RunSound(d, s, first);
    more := EndFromWorm(d, Run(d, s, first));
    RunConcat(d, s, first, more);
    more := first + more;
  }

  lemma {:induction false} EndFromWorm(d: Dims, s: Worms) returns (more: seq<nat>)
    requires Sound(d, s) && s.stage.Wander?
    ensures Run(d, s, more).stage.Finished?
    decreases s.remaining, 1
  {
    more := EndWorm(d, s);
    RunSound(d, s, more);
    var t := Run(d, s, more);
    if t.remaining > 0 {
      var rest := EndWorms(d, t);
      RunConcat(d, s, more, rest);
      more := more + rest;
    }
  }

  lemma EndFrom(d: Dims, s: Worms) returns (more: seq<nat>)
    requires Sound(d, s)
    ensures Run(d, s, more).stage.Finished?
  {
    match s.stage
    case PickX => more := EndWorms(d, s);
    case PickY =>
      var t := WormStep(d, s, 0);
      StepSound(d, s, 0);
      if t.stage.PickX? {
        more := EndWorms(d, t);
      } else {
        more := EndFromPreference(d, t);
      }
      RunStep(d, s, 0, more);
      more := [0] + more;
    case Prefer => more := EndFromPreference(d, s);
    case Wander(_) => more := EndFromWorm(d, s);
    case Finished => more := [];
  }

  lemma EndFromPreference(d: Dims, s: Worms) returns (more: seq<nat>)
    requires Sound(d, s) && s.stage.Prefer?
    ensures Run(d, s, more).stage.Finished?
  {
    StepSound(d, s, 0);
    more := EndFromWorm(d, WormStep(d, s, 0));
    RunStep(d, s, 0, more);
    more := [0] + more;
  }

  /** For every valid size, and whatever numbers have been drawn, there are numbers that end the phase. */
  lemma EveryPhaseCanEnd(d: Dims, rnd: seq<nat>) returns (more: seq<nat>)
    requires d.Valid()
    ensures Suffices(d, rnd + more)
  {
    AtSound(d, rnd, |rnd|);
    more := EndFrom(d, At(d, rnd, |rnd|));
    RunConcat(d, Started(d), rnd[..|rnd|], more);
    assert rnd[..|rnd|] == rnd && (rnd + more)[..|rnd + more|] == rnd + more;
  }
}
