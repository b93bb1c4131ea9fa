/**
  A level as it is played, on values: the maze and the player, what a tick does to both, and the reason
  why a level can always be won.
*/
module MazeWorld {
  import opened MazeLattice
  import opened MazeConnect
  import opened MazePlay
  import opened MazeGen
  import opened MazeWorms
  import opened ModeX
  import opened MazeImage
  import opened MazeView
  import opened Motion

  datatype World = World(grid: Grid, player: State, won: bool)

  // ----- what the player does to the maze -----

  /** The fruit at (x,y), if there is one, is gone. */
  ghost function Eat(d: Dims, g: Grid, x: int, y: int): (r: Grid)
    requires d.Valid() && |g| == MAZE_LEN
    ensures |r| == MAZE_LEN
  {
    if InFruitRange(d, x, y) then
      IndexInRange(d, x, y);
      g[d.MazeIndex(x, y) := g[d.MazeIndex(x, y)].(fruit := 0)]
    else g
  }

  ghost function Mark(g: Grid, s: set<int>): (r: Grid)
    ensures |r| == |g| && MarkedBy(g, r, s)
  {
    seq(|g|, n requires 0 <= n < |g| => if n in s then g[n].(reach := true) else g[n])
  }

  lemma MarkedIsMark(g: Grid, g': Grid, s: set<int>)
    requires MarkedBy(g, g', s)
    ensures g' == Mark(g, s)
  {
  }

  /** What unveil_around_player does on square (x,y): eat, then look around. */
  ghost function Look(d: Dims, g: Grid, x: int, y: int): (r: Grid)
    requires d.Valid() && |g| == MAZE_LEN
    ensures |r| == MAZE_LEN
  {
    Mark(Eat(d, g, x, y), Cells(d, Surroundings(x, y)))
  }

  lemma EatKeeps(d: Dims, g: Grid, x: int, y: int)
    requires d.Valid() && |g| == MAZE_LEN
    ensures SameWalls(g, Eat(d, g, x, y)) && forall n :: 0 <= n < |g| ==> Eat(d, g, x, y)[n].exit == g[n].exit
    ensures Fruits(Eat(d, g, x, y)) == Fruits(g) - if InFruitRange(d, x, y) then {d.MazeIndex(x, y)} else {}
  {
    if InFruitRange(d, x, y) {
      IndexInRange(d, x, y);
    }
  }

  /** Looking around takes the fruit on the square, and no other, and moves no wall. */
  lemma LookKeeps(d: Dims, g: Grid, x: int, y: int)
    requires d.Valid() && |g| == MAZE_LEN
    ensures SameWalls(g, Look(d, g, x, y))
    ensures Fruits(Look(d, g, x, y)) == Fruits(g) - if InFruitRange(d, x, y) then {d.MazeIndex(x, y)} else {}
    ensures forall n :: 0 <= n < |g| ==> Look(d, g, x, y)[n].exit == g[n].exit
  {
    EatKeeps(d, g, x, y);
    assert Fruits(Look(d, g, x, y)) == Fruits(Eat(d, g, x, y));
  }

  /** The player sees two steps far. */
  lemma LookLiftsMist(d: Dims, g: Grid, nFruits: int, x: int, y: int, a: int, b: int)
    requires d.Valid() && |g| == MAZE_LEN && Near(x, y, a, b) && Displayed(d, a, b)
    ensures !Mist(FindBlock(d, Look(d, g, x, y), nFruits, a, b))
  {
    MistLifts(d, Eat(d, g, x, y), Look(d, g, x, y), nFruits, x, y);
  }

  // ----- ticks -----

  /** The square on which the player is rolling. */
  function RollX(s: State): int { (if s.dir == Left then s.x + 6 else s.x) / 12 }

  function RollY(s: State): int { (if s.dir == Up then s.y + 6 else s.y) / 12 }

  /** One pixel of motion, after which the player looks around. */
  ghost function Roll(d: Dims, g: Grid, s: State): (w: World)
    requires d.Valid() && |g| == MAZE_LEN
    ensures |w.grid| == MAZE_LEN
  {
    if s.dir == Stop then World(g, s, false)
    else
      var m := Move(d, s);
      World(Look(d, g, RollX(m), RollY(m)), m, false)
  }

  /** The level is won on the exit, once no fruit is left. */
  ghost predicate Wins(exit: (int, int), g: Grid, x: int, y: int) {
    Fruits(g) == {} && (x, y) == exit
  }

  /** A tick: turn back, look and decide on a square, then roll one pixel.  A level that is won stays as it is. */
  ghost function TickWorld(d: Dims, exit: (int, int), w: World, next: Dir): (r: World)
    requires d.Valid() && |w.grid| == MAZE_LEN
    ensures |r.grid| == MAZE_LEN
  {
    var s := Reverse(w.player, next);
    if w.won then w
    else if s.cnt != 0 then Roll(d, w.grid, s)
    else
      var g := Look(d, w.grid, s.x / 12, s.y / 12);
      if Wins(exit, g, s.x / 12, s.y / 12) then World(g, s, true) else Roll(d, g, Decide(d, g, s, next))
  }

  ghost function RunWorld(d: Dims, exit: (int, int), w: World, keys: seq<Dir>): (r: World)
    requires d.Valid() && |w.grid| == MAZE_LEN
    ensures |r.grid| == MAZE_LEN
    decreases |keys|
  {
    if keys == [] then w else RunWorld(d, exit, TickWorld(d, exit, w, keys[0]), keys[1..])
  }

  lemma {:induction false} WonForGood(d: Dims, exit: (int, int), w: World, keys: seq<Dir>)
    requires d.Valid() && |w.grid| == MAZE_LEN && w.won
    ensures RunWorld(d, exit, w, keys) == w
    decreases |keys|
  {
    if keys == [] {
    } else {
      WonForGood(d, exit, w, keys[1..]);
    }
  }

  lemma {:induction false} RunWorldOn(d: Dims, exit: (int, int), w: World, a: seq<Dir>, b: seq<Dir>)
    requires d.Valid() && |w.grid| == MAZE_LEN
    ensures RunWorld(d, exit, w, a + b) == RunWorld(d, exit, RunWorld(d, exit, w, a), b)
    decreases |a|
  {
    if a == [] {
      assert a + b == b;
    } else {
      assert (a + b)[1..] == a[1..] + b;
      RunWorldOn(d, exit, TickWorld(d, exit, w, a[0]), a[1..], b);
    }
  }

  lemma NextKey(d: Dims, exit: (int, int), w: World, keys: seq<Dir>, k: nat)
    requires d.Valid() && |w.grid| == MAZE_LEN && k < |keys|
    ensures RunWorld(d, exit, w, keys[k..]) == RunWorld(d, exit, TickWorld(d, exit, w, keys[k]), keys[k + 1..])
  {
    assert keys[k..][0] == keys[k] && keys[k..][1..] == keys[k + 1..];
  }

  /**
    A player rolling up or left looks around on the square ahead from half-way on; rolling right or down,
    when it is reached; and on the square behind before that.
  */
  lemma LooksAhead(d: Dims, g: Grid, s: State, a: int, b: int)
    requires OnTrack(d, g, s) && s.dir != Stop && s.cnt < 12
    requires 12 * a == s.x + s.cnt * s.dir.Dx() && 12 * b == s.y + s.cnt * s.dir.Dy()
    ensures (RollX(s), RollY(s)) ==
            if (if s.dir == Up || s.dir == Left then s.cnt < 6 else s.cnt == 0) then (a, b)
            else (a - s.dir.Dx(), b - s.dir.Dy())
  {
  }

  /** A tick wins the level exactly if the player stands on the exit and no fruit is left anywhere else. */
  lemma WinsOnExit(d: Dims, exit: (int, int), w: World, next: Dir)
    requires d.Valid() && |w.grid| == MAZE_LEN && !w.won && OnTrack(d, w.grid, w.player) && w.player.cnt < 12
    ensures TickWorld(d, exit, w, next).won <==>
            && w.player.cnt == 0 && (w.player.x, w.player.y) == (12 * exit.0, 12 * exit.1)
            && Fruits(w.grid) <= {d.MazeIndex(exit.0, exit.1)}
  {
    WonNow(d, exit, w, next);
    if w.player.cnt == 0 {
      var x, y := w.player.x / 12, w.player.y / 12;
      StandsOnSquare(d, w.grid, w.player, x, y);
      WinsHere(d, exit, w.grid, x, y);
      SamePlace(w.player.x, w.player.y, x, y, exit);
    }
  }

  lemma SamePlace(px: int, py: int, x: int, y: int, place: (int, int))
    requires (px, py) == (12 * x, 12 * y)
    ensures (x, y) == place <==> (px, py) == (12 * place.0, 12 * place.1)
  {
  }

  lemma WinsHere(d: Dims, exit: (int, int), g: Grid, x: int, y: int)
    requires d.Valid() && |g| == MAZE_LEN && InFruitRange(d, x, y)
    ensures Wins(exit, Look(d, g, x, y), x, y) <==>
            (x, y) == exit && Fruits(g) <= {d.MazeIndex(exit.0, exit.1)}
  {
    LookKeeps(d, g, x, y);
  }

  lemma StandsOnSquare(d: Dims, g: Grid, s: State, x: int, y: int)
    requires OnTrack(d, g, s) && s.cnt == 0 && x == s.x / 12 && y == s.y / 12
    ensures (s.x, s.y) == (12 * x, 12 * y) && InFruitRange(d, x, y)
  {
    assert TargetX(s) == s.x && TargetY(s) == s.y;
  }

  lemma WonNow(d: Dims, exit: (int, int), w: World, next: Dir)
    requires d.Valid() && |w.grid| == MAZE_LEN && !w.won && 0 <= w.player.cnt < 12
    ensures TickWorld(d, exit, w, next).won <==>
            && w.player.cnt == 0
            && Wins(exit, Look(d, w.grid, w.player.x / 12, w.player.y / 12), w.player.x / 12, w.player.y / 12)
  {
  }

  /** Looking around forgets nothing, and shows what is two steps away or less. */
  lemma LookSees(d: Dims, g: Grid, x: int, y: int, a: int, b: int)
    requires d.Valid() && |g| == MAZE_LEN && Displayed(d, a, b) && 0 <= d.MazeIndex(a, b) < MAZE_LEN
    ensures g[d.MazeIndex(a, b)].reach || Near(x, y, a, b) ==> Look(d, g, x, y)[d.MazeIndex(a, b)].reach
  {
    if Near(x, y, a, b) {
      SeesTwoSteps(x, y);
      assert d.MazeIndex((a, b).0, (a, b).1) in Cells(d, Surroundings(x, y));
    }
  }

  /**
    A tick shows what is around the square on which the player stands, and what is around the square on
    which the player is rolling afterwards, and eats the fruit there; nothing is forgotten.
  */
  lemma TickSees(d: Dims, exit: (int, int), w: World, next: Dir, a: int, b: int)
    requires d.Valid() && |w.grid| == MAZE_LEN && !w.won && 0 <= w.player.cnt < 12
    requires Displayed(d, a, b) && 0 <= d.MazeIndex(a, b) < MAZE_LEN
    ensures var r := TickWorld(d, exit, w, next);
            && (w.player.cnt == 0 && Near(w.player.x / 12, w.player.y / 12, a, b) ==> r.grid[d.MazeIndex(a, b)].reach)
            && (w.grid[d.MazeIndex(a, b)].reach ==> r.grid[d.MazeIndex(a, b)].reach)
            && (!r.won && r.player.dir != Stop && Near(RollX(r.player), RollY(r.player), a, b) ==>
                  r.grid[d.MazeIndex(a, b)].reach)
    ensures var r := TickWorld(d, exit, w, next);
            !r.won && r.player.dir != Stop && (RollX(r.player), RollY(r.player)) == (a, b) && InFruitRange(d, a, b) ==>
              r.grid[d.MazeIndex(a, b)].fruit == 0
  {
    var s := Reverse(w.player, next);
    var g := if s.cnt == 0 then Look(d, w.grid, s.x / 12, s.y / 12) else w.grid;
    LookSees(d, w.grid, s.x / 12, s.y / 12, a, b);
    RollSees(d, g, Decide(d, g, s, next), a, b);
  }

  lemma RollSees(d: Dims, g: Grid, s: State, a: int, b: int)
    requires d.Valid() && |g| == MAZE_LEN && Displayed(d, a, b) && 0 <= d.MazeIndex(a, b) < MAZE_LEN
    ensures var r := Roll(d, g, s);
            && (g[d.MazeIndex(a, b)].reach ==> r.grid[d.MazeIndex(a, b)].reach)
            && (r.player.dir != Stop && Near(RollX(r.player), RollY(r.player), a, b) ==>
                  r.grid[d.MazeIndex(a, b)].reach)
            && (r.player.dir != Stop && (RollX(r.player), RollY(r.player)) == (a, b) && InFruitRange(d, a, b) ==>
                  d.MazeIndex(a, b) !in Fruits(r.grid))
  {
    if s.dir != Stop {
      var m := Move(d, s);
      LookSees(d, g, RollX(m), RollY(m), a, b);
      LookKeeps(d, g, RollX(m), RollY(m));
    }
  }

  // ----- what a tick keeps -----

  /** A player who stands on a square has eaten its fruit. */
  ghost predicate Clean(d: Dims, g: Grid, s: State) {
    s.cnt == 0 ==> d.MazeIndex(s.x / 12, s.y / 12) !in Fruits(g)
  }

  ghost predicate Playing(d: Dims, w: World) {
    && d.Valid() && |w.grid| == MAZE_LEN && Bordered(d, w.grid)
    && Sound(d, w.grid, w.player) && !w.won && Clean(d, w.grid, w.player)
  }

  /** From w to w' the walls have stayed and no fruit has come. */
  ghost predicate Later(w: World, w': World) {
    SameWalls(w.grid, w'.grid) && Fruits(w'.grid) <= Fruits(w.grid)
  }

  lemma SameWallsCanGo(d: Dims, g: Grid, g': Grid, s: State, dir: Dir)
    requires SameWalls(g, g')
    ensures CanGo(d, g', s, dir) == CanGo(d, g, s, dir)
  {
  }

  lemma SameWallsDecide(d: Dims, g: Grid, g': Grid, s: State, next: Dir)
    requires SameWalls(g, g')
    ensures Decide(d, g', s, next) == Decide(d, g, s, next)
  {
    SameWallsCanGo(d, g, g', s, next);
    SameWallsCanGo(d, g, g', s, s.dir);
  }

  lemma SameWallsTick(d: Dims, g: Grid, g': Grid, s: State, next: Dir)
    requires SameWalls(g, g')
    ensures Motion.Tick(d, g', s, next) == Motion.Tick(d, g, s, next)
  {
    SameWallsDecide(d, g, g', Reverse(s, next), next);
  }

  lemma SameWallsSound(d: Dims, g: Grid, g': Grid, s: State)
    requires SameWalls(g, g') && Sound(d, g, s)
    ensures Sound(d, g', s)
  {
  }

  lemma SameWallsBordered(d: Dims, g: Grid, g': Grid)
    requires SameWalls(g, g') && Bordered(d, g)
    ensures Bordered(d, g')
  {
  }

  /** A player on track who stands is aligned with an inner square. */
  lemma StandsInside(d: Dims, g: Grid, s: State)
    requires d.Valid() && OnTrack(d, g, s) && s.cnt == 0
    ensures s.x % 12 == 0 && s.y % 12 == 0 && Inside(d, g, s.x / 12, s.y / 12) && InFruitRange(d, s.x / 12, s.y / 12)
  {
    assert TargetX(s) == s.x && TargetY(s) == s.y;
  }

  /** Rolling onto a square eats its fruit. */
  lemma RollClean(d: Dims, g: Grid, s: State)
    requires d.Valid() && |g| == MAZE_LEN && s.dir != Stop && OnTrack(d, g, Move(d, s))
    ensures Clean(d, Roll(d, g, s).grid, Roll(d, g, s).player)
    ensures SameWalls(g, Roll(d, g, s).grid) && Fruits(Roll(d, g, s).grid) <= Fruits(g)
  {
    var m := Move(d, s);
    LookKeeps(d, g, RollX(m), RollY(m));
    if m.cnt == 0 {
      StandsInside(d, g, m);
      assert RollX(m) == m.x / 12 && RollY(m) == m.y / 12;
    }
  }

  /** As long as the level is not won, a tick moves the player as the state machine does. */
  lemma TickFollows(d: Dims, exit: (int, int), w: World, next: Dir)
    requires Playing(d, w)
    ensures var w' := TickWorld(d, exit, w, next);
            Later(w, w') && (w'.won || (Playing(d, w') && w'.player == Motion.Tick(d, w.grid, w.player, next)))
  {
    var g, w' := w.grid, TickWorld(d, exit, w, next);
    var s := Reverse(w.player, next);
    var t := Decide(d, g, s, next);
    TickSound(d, g, w.player, next);
    ReverseOnTrack(d, g, w.player, next);
    DecideOnTrack(d, g, s, next);
    if s.cnt != 0 {
      MoveOnTrack(d, g, s);
      RollClean(d, g, s);
    } else {
      var g1 := Look(d, g, s.x / 12, s.y / 12);
      StandsInside(d, g, s);
      LookKeeps(d, g, s.x / 12, s.y / 12);
      SameWallsDecide(d, g, g1, s, next);
      if !Wins(exit, g1, s.x / 12, s.y / 12) && t.dir != Stop {
        MoveOnTrack(d, g, t);
        SameWallsSound(d, g, g1, Move(d, t));
        RollClean(d, g1, t);
      }
    }
    if !w'.won {
      SameWallsSound(d, g, w'.grid, w'.player);
      SameWallsBordered(d, g, w'.grid);
    }
  }

  /** The same over whole runs. */
  lemma {:induction false} RunFollows(d: Dims, exit: (int, int), w: World, keys: seq<Dir>)
    requires Playing(d, w)
    ensures var w' := RunWorld(d, exit, w, keys);
            Later(w, w') && (w'.won || (Playing(d, w') && w'.player == Motion.Run(d, w.grid, w.player, keys)))
    decreases |keys|
  {
    if keys == [] {
    } else {
      var w1 := TickWorld(d, exit, w, keys[0]);
      TickFollows(d, exit, w, keys[0]);
      if w1.won {
        WonForGood(d, exit, w1, keys[1..]);
      } else {
        RunFollows(d, exit, w1, keys[1..]);
        SameWallsRun(d, w.grid, w1.grid, w1.player, keys[1..]);
      }
    }
  }

  lemma {:induction false} SameWallsRun(d: Dims, g: Grid, g': Grid, s: State, keys: seq<Dir>)
    requires SameWalls(g, g')
    ensures Motion.Run(d, g', s, keys) == Motion.Run(d, g, s, keys)
    decreases |keys|
  {
    if keys == [] {
    } else {
      SameWallsTick(d, g, g', s, keys[0]);
      SameWallsRun(d, g, g', Motion.Tick(d, g, s, keys[0]), keys[1..]);
    }
  }
}
