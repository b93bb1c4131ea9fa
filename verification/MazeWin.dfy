/**
  Every level can be won: where the generator has joined all lattice points, the player can walk from
  any square to any lattice point, and so eat every fruit and reach the exit.
*/
module MazeWin {
  import opened Finite
  import opened MazeLattice
  import opened MazeConnect
  import opened MazePlay
  import opened MazeGen
  import opened MazeWorms
  import opened ModeX
  import opened MazeImage
  import opened MazeView
  import opened Motion
  import opened MazeWorld

  // ----- walking one square -----

  function Hold(dir: Dir, k: nat): (keys: seq<Dir>)
    ensures |keys| == k
  {
    if k == 0 then [] else Hold(dir, k - 1) + [dir]
  }

  lemma {:induction false} RunOn(d: Dims, g: Grid, s: State, a: seq<Dir>, b: seq<Dir>)
    ensures Motion.Run(d, g, s, a + b) == Motion.Run(d, g, Motion.Run(d, g, s, a), b)
    decreases |a|
  {
    if a == [] {
      assert a + b == b;
    } else {
      assert (a + b)[1..] == a[1..] + b;
      RunOn(d, g, Motion.Tick(d, g, s, a[0]), a[1..], b);
    }
  }

  /** The player has gone k pixels in direction dir, and has cnt pixels to go. */
  ghost predicate Gone(s: State, s': State, dir: Dir, k: int, cnt: int) {
    s'.dir == dir && s'.x == s.x + Times(k, dir.Dx()) && s'.y == s.y + Times(k, dir.Dy()) && s'.cnt == cnt
  }

  /** k unit steps, each of -1, 0 or 1. */
  function Times(k: int, unit: int): int { if unit > 0 then k else if unit < 0 then -k else 0 }

  lemma FirstPixel(d: Dims, g: Grid, s: State, dir: Dir)
    requires s.cnt == 0 && dir != Stop && CanGo(d, g, s, dir)
    ensures Gone(s, Motion.Tick(d, g, s, dir), dir, 1, 11)
  {
    var r := Reverse(s, dir);
    assert CanGo(d, g, r, dir);
    assert Decide(d, g, r, dir) == r.(dir := dir, cnt := 12);
  }

  lemma NextPixel(d: Dims, g: Grid, s: State, dir: Dir)
    requires 0 < s.cnt && s.dir == dir != Stop
    ensures Gone(s, Motion.Tick(d, g, s, dir), dir, 1, s.cnt - 1)
  {
    assert Reverse(s, dir) == s;
  }

  /** Keeping a key held finishes the way to the next square. */
  lemma {:induction false} Finish(d: Dims, g: Grid, s: State, dir: Dir, k: nat)
    requires k <= s.cnt && s.dir == dir != Stop
    ensures Gone(s, Motion.Run(d, g, s, Hold(dir, k)), dir, k, s.cnt - k)
    decreases k
  {
    if k == 0 {
    } else {
      Finish(d, g, s, dir, k - 1);
      RunOn(d, g, s, Hold(dir, k - 1), [dir]);
      NextPixel(d, g, Motion.Run(d, g, s, Hold(dir, k - 1)), dir);
    }
  }

  /** Twelve ticks with a key held take the player to the next square, if that is open. */
  lemma OneSquare(d: Dims, g: Grid, s: State, dir: Dir)
    requires s.cnt == 0 && dir != Stop && CanGo(d, g, s, dir)
    ensures Gone(s, Motion.Run(d, g, s, [dir] + Hold(dir, 11)), dir, 12, 0)
  {
    FirstPixel(d, g, s, dir);
    RunOn(d, g, s, [dir], Hold(dir, 11));
    Finish(d, g, Motion.Tick(d, g, s, dir), dir, 11);
  }

  // ----- walking to a lattice point -----

  /** The player stands on square (x,y). */
  predicate StandsOn(s: State, x: int, y: int) { s.cnt == 0 && s.x == 12 * x && s.y == 12 * y }

  lemma StepSquare(d: Dims, g: Grid, s: State, x: int, y: int, dir: Dir) returns (keys: seq<Dir>)
    requires StandsOn(s, x, y) && dir != Stop && OpenCell(d, g, x + dir.Dx(), y + dir.Dy())
    ensures StandsOn(Motion.Run(d, g, s, keys), x + dir.Dx(), y + dir.Dy())
  {
    assert s.x / 12 == x && s.y / 12 == y;
    OneSquare(d, g, s, dir);
    keys := [dir] + Hold(dir, 11);
  }

  /** Behind an open neighbour cell of a lattice point there is another lattice point. */
  lemma OpenLeadsOn(d: Dims, g: Grid, x: int, y: int, dir: Dir)
    requires d.Valid() && |g| == MAZE_LEN && Bordered(d, g) && OddIn(d, x, y) && dir != Stop
    requires OpenCell(d, g, x + dir.Dx(), y + dir.Dy())
    ensures OddIn(d, x + 2 * dir.Dx(), y + 2 * dir.Dy())
  {
    OpenIsInside(d, g, x + dir.Dx(), y + dir.Dy());
    OddBeyond(d, x, y, dir);
  }

  lemma OddBeyond(d: Dims, x: int, y: int, dir: Dir)
    requires OddIn(d, x, y) && 0 < x + dir.Dx() < 2 * d.xd && 0 < y + dir.Dy() < 2 * d.yd
    ensures OddIn(d, x + 2 * dir.Dx(), y + 2 * dir.Dy())
  {
  }

  /** Index distance of a step in a direction. */
  function Offset(w: int, dir: Dir): int {
    match dir
    case Up => -w
    case Right => 1
    case Down => w
    case Left => -1
    case Stop => 0
  }

  lemma OffsetIs(d: Dims, x: int, y: int, dir: Dir)
    ensures d.MazeIndex(x + dir.Dx(), y + dir.Dy()) == d.MazeIndex(x, y) + Offset(d.Row(), dir)
    ensures d.MazeIndex(x + 2 * dir.Dx(), y + 2 * dir.Dy()) == d.MazeIndex(x, y) + 2 * Offset(d.Row(), dir)
  {
    IndexStep(d, x, y, dir.Dx(), dir.Dy());
  }

  lemma EdgeOffset(g: Grid, w: int, n: int, b: int) returns (dir: Dir)
    requires Edge(g, w, n, b)
    ensures dir != Stop && b == n + 2 * Offset(w, dir) && Open(g, n + Offset(w, dir))
  {
    dir := if b == n - 2 * w && Open(g, n - w) then Up
           else if b == n + 2 && Open(g, n + 1) then Right
           else if b == n + 2 * w && Open(g, n + w) then Down else Left;
  }

  /** Which way an edge of the lattice leads. */
  lemma EdgeDirection(d: Dims, g: Grid, x: int, y: int, b: int) returns (dir: Dir)
    requires d.Valid() && |g| == MAZE_LEN && Bordered(d, g) && OddIn(d, x, y)
    requires Edge(g, d.Row(), d.MazeIndex(x, y), b)
    ensures dir != Stop && OpenCell(d, g, x + dir.Dx(), y + dir.Dy())
    ensures OddIn(d, x + 2 * dir.Dx(), y + 2 * dir.Dy()) && b == d.MazeIndex(x + 2 * dir.Dx(), y + 2 * dir.Dy())
  {
    dir := EdgeOffset(g, d.Row(), d.MazeIndex(x, y), b);
    OffsetIs(d, x, y, dir);
    OpenLeadsOn(d, g, x, y, dir);
  }

  /** The player can follow a walk through the lattice. */
  lemma {:induction false} FollowWalk(d: Dims, g: Grid, s: State, x: int, y: int, p: seq<int>)
    returns (keys: seq<Dir>, x': int, y': int)
    requires d.Valid() && |g| == MAZE_LEN && Bordered(d, g) && Walled(d.Points(), g) == {}
    requires StandsOn(s, x, y) && OddIn(d, x, y) && Walk(g, d.Row(), {}, p) && p[0] == d.MazeIndex(x, y)
    ensures OddIn(d, x', y') && StandsOn(Motion.Run(d, g, s, keys), x', y') && d.MazeIndex(x', y') == p[|p| - 1]
    decreases |p|
  {
    if |p| == 1 {
      keys, x', y' := [], x, y;
    } else {
      var dir := EdgeDirection(d, g, x, y, p[1]);
      var keys1 := StepPoint(d, g, s, x, y, dir);
      var keys2;
      keys2, x', y' := FollowWalk(d, g, Motion.Run(d, g, s, keys1), x + 2 * dir.Dx(), y + 2 * dir.Dy(), p[1..]);
      RunOn(d, g, s, keys1, keys2);
      keys := keys1 + keys2;
    }
  }

  /** Two squares take the player to the next lattice point. */
  lemma StepPoint(d: Dims, g: Grid, s: State, x: int, y: int, dir: Dir) returns (keys: seq<Dir>)
    requires d.Valid() && |g| == MAZE_LEN && Walled(d.Points(), g) == {}
    requires StandsOn(s, x, y) && dir != Stop && OpenCell(d, g, x + dir.Dx(), y + dir.Dy())
    requires OddIn(d, x + 2 * dir.Dx(), y + 2 * dir.Dy())
    ensures StandsOn(Motion.Run(d, g, s, keys), x + 2 * dir.Dx(), y + 2 * dir.Dy())
  {
    var x1, y1 := x + dir.Dx(), y + dir.Dy();
    var keys1 := StepSquare(d, g, s, x, y, dir);
    PointOpen(d, g, x1 + dir.Dx(), y1 + dir.Dy());
    var keys2 := StepSquare(d, g, Motion.Run(d, g, s, keys1), x1, y1, dir);
    RunOn(d, g, s, keys1, keys2);
    keys := keys1 + keys2;
  }

  lemma PointOpen(d: Dims, g: Grid, x: int, y: int)
    requires d.Valid() && |g| == MAZE_LEN && Walled(d.Points(), g) == {} && OddIn(d, x, y)
    ensures OpenCell(d, g, x, y)
  {
    OddPoint(d, x, y);
    assert d.MazeIndex(x, y) !in Walled(d.Points(), g);
  }

  /** Edges lead both ways, and so do walks. */
  lemma {:induction false} ReachBack(g: Grid, w: int, s: int, t: int)
    requires Reach(g, w, {}, s, t)
    ensures Reach(g, w, {}, t, s)
  {
    var p :| Walk(g, w, {}, p) && p[0] == s && p[|p| - 1] == t;
    var q := seq(|p|, k requires 0 <= k < |p| => p[|p| - 1 - k]);
    forall k | 0 <= k < |q| - 1 ensures Edge(g, w, q[k], q[k + 1]) {
      assert Edge(g, w, p[|p| - 2 - k], p[|p| - 2 - k + 1]);
    }
    assert Walk(g, w, {}, q);
  }

  /** The player can walk from any lattice point to any other. */
  lemma GoTo(d: Dims, g: Grid, s: State, x: int, y: int, n: int)
    returns (keys: seq<Dir>, x': int, y': int)
    requires d.Valid() && |g| == MAZE_LEN && Bordered(d, g) && AllJoined(d, g)
    requires StandsOn(s, x, y) && OddIn(d, x, y) && n in d.Points()
    ensures OddIn(d, x', y') && StandsOn(Motion.Run(d, g, s, keys), x', y') && d.MazeIndex(x', y') == n
  {
    OddPoint(d, x, y);
    ReachBack(g, d.Row(), d.Point(0, 0), d.MazeIndex(x, y));
    ReachTrans(g, d.Row(), d.MazeIndex(x, y), d.Point(0, 0), n);
    var p :| Walk(g, d.Row(), {}, p) && p[0] == d.MazeIndex(x, y) && p[|p| - 1] == n;
    keys, x', y' := FollowWalk(d, g, s, x, y, p);
  }

  // ----- walking to a lattice point from anywhere -----

  /** Both forms of a made maze: everything inside is open, or only lattice points and passages are. */
  ghost predicate Made(d: Dims, g: Grid) {
    OnlyPassagesOpen(d, g) || forall n :: n in Interior(d) ==> Open(g, n)
  }

  /** From any inner square, one or two steps lead to a lattice point. */
  lemma ToPoint(d: Dims, g: Grid, s: State, x: int, y: int) returns (keys: seq<Dir>, x': int, y': int)
    requires d.Valid() && |g| == MAZE_LEN && Bordered(d, g) && Walled(d.Points(), g) == {} && Made(d, g)
    requires StandsOn(s, x, y) && Inside(d, g, x, y)
    ensures OddIn(d, x', y') && StandsOn(Motion.Run(d, g, s, keys), x', y')
  {
    if x % 2 == 1 && y % 2 == 1 {
      keys, x', y' := [], x, y;
    } else {
      PointBeside(d, x, y);
      if x % 2 == 1 {
        keys := StepOnto(d, g, s, x, y, Down);
        x', y' := x, y + 1;
      } else if y % 2 == 1 {
        keys := StepOnto(d, g, s, x, y, Right);
        x', y' := x + 1, y;
      } else {
        BothEven(d, g, x, y);
        keys := StepPointBeside(d, g, s, x, y);
        x', y' := x + 1, y + 1;
      }
    }
  }

  /** Where the next lattice point to the right and below is. */
  lemma PointBeside(d: Dims, x: int, y: int)
    requires 0 < x < 2 * d.xd && 0 < y < 2 * d.yd
    ensures OddIn(d, if x % 2 == 1 then x else x + 1, if y % 2 == 1 then y else y + 1)
  {
  }

  /** One step from beside a lattice point onto it. */
  lemma StepOnto(d: Dims, g: Grid, s: State, x: int, y: int, dir: Dir) returns (keys: seq<Dir>)
    requires d.Valid() && |g| == MAZE_LEN && Walled(d.Points(), g) == {}
    requires StandsOn(s, x, y) && dir != Stop && OddIn(d, x + dir.Dx(), y + dir.Dy())
    ensures StandsOn(Motion.Run(d, g, s, keys), x + dir.Dx(), y + dir.Dy())
  {
    PointOpen(d, g, x + dir.Dx(), y + dir.Dy());
    keys := StepSquare(d, g, s, x, y, dir);
  }

  /** From an (even,even) square, right and down. */
  lemma StepPointBeside(d: Dims, g: Grid, s: State, x: int, y: int) returns (keys: seq<Dir>)
    requires d.Valid() && |g| == MAZE_LEN && Walled(d.Points(), g) == {}
    requires StandsOn(s, x, y) && OpenCell(d, g, x + 1, y) && OddIn(d, x + 1, y + 1)
    ensures StandsOn(Motion.Run(d, g, s, keys), x + 1, y + 1)
  {
    var keys1 := StepSquare(d, g, s, x, y, Right);
    var keys2 := StepOnto(d, g, Motion.Run(d, g, s, keys1), x + 1, y, Down);
    RunOn(d, g, s, keys1, keys2);
    keys := keys1 + keys2;
  }

  /** An open (even,even) cell exists only where everything inside is open. */
  lemma BothEven(d: Dims, g: Grid, x: int, y: int)
    requires d.Valid() && |g| == MAZE_LEN && Made(d, g) && Inside(d, g, x, y) && x % 2 == 0 && y % 2 == 0
    ensures OpenCell(d, g, x + 1, y)
  {
    if OnlyPassagesOpen(d, g) {
      EvenCellsAreWalls(d, g);
      assert false;
    } else {
      InsideIs(d, x + 1, y, d.MazeIndex(x + 1, y));
    }
  }

  // ----- winning -----

  /** A level in play: the maze is joined, fruits and exit are on lattice points. */
  ghost predicate InPlay(d: Dims, exitX: int, exitY: int, w: World) {
    && Playing(d, w) && Made(d, w.grid) && AllJoined(d, w.grid)
    && Fruits(w.grid) <= d.Points() && OddIn(d, exitX, exitY)
  }

  ghost predicate CanBeWon(d: Dims, exit: (int, int), w: World)
    requires d.Valid() && |w.grid| == MAZE_LEN
  {
    exists keys :: RunWorld(d, exit, w, keys).won
  }

  lemma StillInPlay(d: Dims, exitX: int, exitY: int, w: World, w': World)
    requires InPlay(d, exitX, exitY, w) && Later(w, w') && Playing(d, w')
    ensures InPlay(d, exitX, exitY, w')
  {
    JoinedWithFewerWalls(d, w.grid, w'.grid);
    if OnlyPassagesOpen(d, w.grid) {
      SameWallsSamePassages(d, w.grid, w'.grid);
    }
  }

  /** Playing on keeps the level in play until it is won. */
  lemma PlayOn(d: Dims, exitX: int, exitY: int, w: World, keys: seq<Dir>)
    requires InPlay(d, exitX, exitY, w)
    ensures var w' := RunWorld(d, (exitX, exitY), w, keys);
            && Later(w, w')
            && (w'.won || (InPlay(d, exitX, exitY, w') && w'.player == Motion.Run(d, w.grid, w.player, keys)))
  {
    RunFollows(d, (exitX, exitY), w, keys);
    var w' := RunWorld(d, (exitX, exitY), w, keys);
    if !w'.won {
      StillInPlay(d, exitX, exitY, w, w');
    }
  }

  /** Standing on the exit with no fruit left, the next tick wins. */
  lemma OnExitWins(d: Dims, exitX: int, exitY: int, w: World)
    requires InPlay(d, exitX, exitY, w) && StandsOn(w.player, exitX, exitY) && Fruits(w.grid) == {}
    ensures RunWorld(d, (exitX, exitY), w, [Stop]).won
  {
    LookKeeps(d, w.grid, exitX, exitY);
    assert w.player.x / 12 == exitX && w.player.y / 12 == exitY;
    assert Reverse(w.player, Stop) == w.player;
    assert RunWorld(d, (exitX, exitY), w, [Stop]) == TickWorld(d, (exitX, exitY), w, Stop);
  }

  /** What is left of a level once the player stands on the fruit at n: that fruit is gone. */
  lemma FruitReached(d: Dims, exitX: int, exitY: int, w: World, x: int, y: int)
    requires InPlay(d, exitX, exitY, w) && StandsOn(w.player, x, y)
    ensures d.MazeIndex(x, y) !in Fruits(w.grid)
  {
    assert w.player.x / 12 == x && w.player.y / 12 == y;
  }

  /** From a lattice point: eat the fruits one after the other, then go to the exit. */
  lemma {:induction false} WinFromPoint(d: Dims, exitX: int, exitY: int, w: World, x: int, y: int)
    returns (keys: seq<Dir>)
    requires InPlay(d, exitX, exitY, w) && OddIn(d, x, y) && StandsOn(w.player, x, y)
    ensures RunWorld(d, (exitX, exitY), w, keys).won
    decreases |Fruits(w.grid)|
  {
    var exit := (exitX, exitY);
    OddPoint(d, exitX, exitY);
    var n := d.MazeIndex(exitX, exitY);
    if Fruits(w.grid) != {} {
      n :| n in Fruits(w.grid);
    }
    var x1, y1;
    keys, x1, y1 := GoTo(d, w.grid, w.player, x, y, n);
    var w1 := RunWorld(d, exit, w, keys);
    PlayOn(d, exitX, exitY, w, keys);
    if !w1.won {
      var more;
      if Fruits(w.grid) == {} {
        SamePoint(d, x1, y1, exitX, exitY);
        OnExitWins(d, exitX, exitY, w1);
        more := [Stop];
      } else {
        FruitReached(d, exitX, exitY, w1, x1, y1);
        SmallerFruits(w.grid, w1.grid, n);
        more := WinFromPoint(d, exitX, exitY, w1, x1, y1);
      }
      RunWorldOn(d, exit, w, keys, more);
      keys := keys + more;
    }
  }

  lemma SamePoint(d: Dims, x: int, y: int, x': int, y': int)
    requires d.Valid() && OddIn(d, x, y) && OddIn(d, x', y') && d.MazeIndex(x, y) == d.MazeIndex(x', y')
    ensures x == x' && y == y'
  {
    IndexInjective(d, x, y, x', y');
  }

  lemma SmallerFruits(g: Grid, g': Grid, n: int)
    requires Fruits(g') <= Fruits(g) && n in Fruits(g) && n !in Fruits(g')
    ensures |Fruits(g')| < |Fruits(g)|
  {
    SubsetSize(Fruits(g'), Fruits(g) - {n});
  }

  /** The player first finishes the way to the next square, if he is between two. */
  lemma Arrive(d: Dims, exitX: int, exitY: int, w: World) returns (keys: seq<Dir>)
    requires InPlay(d, exitX, exitY, w)
    ensures var w' := RunWorld(d, (exitX, exitY), w, keys);
            w'.won || (InPlay(d, exitX, exitY, w') && w'.player.cnt == 0)
  {
    keys := Hold(w.player.dir, w.player.cnt);
    PlayOn(d, exitX, exitY, w, keys);
    if w.player.cnt > 0 {
      Finish(d, w.grid, w.player, w.player.dir, w.player.cnt);
    }
  }

  /** From any square: to a lattice point, and on from there. */
  lemma WinFromSquare(d: Dims, exitX: int, exitY: int, w: World) returns (keys: seq<Dir>)
    requires InPlay(d, exitX, exitY, w) && w.player.cnt == 0
    ensures RunWorld(d, (exitX, exitY), w, keys).won
  {
    var exit, s := (exitX, exitY), w.player;
    StandsInside(d, w.grid, s);
    var x, y;
    keys, x, y := ToPoint(d, w.grid, s, s.x / 12, s.y / 12);
    PlayOn(d, exitX, exitY, w, keys);
    var w1 := RunWorld(d, exit, w, keys);
    if !w1.won {
      var more := WinFromPoint(d, exitX, exitY, w1, x, y);
      RunWorldOn(d, exit, w, keys, more);
      keys := keys + more;
    }
  }

  /** Wherever the player is, even between two squares, the level can still be won. */
  lemma AlwaysWinnable(d: Dims, exitX: int, exitY: int, w: World)
    requires InPlay(d, exitX, exitY, w)
    ensures CanBeWon(d, (exitX, exitY), w)
  {
    var exit := (exitX, exitY);
    var keys := Arrive(d, exitX, exitY, w);
    var w1 := RunWorld(d, exit, w, keys);
    if !w1.won {
      var more := WinFromSquare(d, exitX, exitY, w1);
      RunWorldOn(d, exit, w, keys, more);
      assert RunWorld(d, exit, w, keys + more).won;
    }
  }
}
