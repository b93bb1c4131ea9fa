/**
  The maze game of mp2/mazegame.c: level setup, the tick body of rtc_thread and whole levels, with any
  key input.  The keyboard and Tux threads may set next_dir to any direction between two ticks.
*/
module MazeGame {
  import opened Arithmetic
  import opened MazeLattice
  import opened MazePlay
  import opened MazeGen
  import opened MazeWorms
  import WormRun
  import opened ModeX
  import opened MazeImage
  import opened MazeView
  import opened Motion
  import opened MazeWorld
  import opened MazeWin

  /** With the display framed around the player, a border column and its alias are never both in view. */
  lemma AliasesOutOfView(d: Dims, s: State, x: int)
    requires d.Valid() && Framed(d, s) && 12 <= s.x <= (2 * d.xd - 1) * 12
    requires x == s.x / 12 || x == (s.x + 6) / 12
    ensures AliasesHidden(d, s.mapX, x)
  {
    BordersInView(d, s, x);
    forall k | x - 2 <= k <= x + 2 ensures AliasHidden(d, s.mapX, k) {
      if k == 0 {
        VisibleAliasHidden(d, s.mapX, k, s.mapX);
      } else if k == 2 * d.xd {
        VisibleAliasHidden(d, s.mapX, k, s.mapX + SCROLL_X_DIM - 1);
      }
    }
  }

  /** A border column two squares or less from the player is in view. */
  lemma BordersInView(d: Dims, s: State, x: int)
    requires d.Valid() && Framed(d, s) && (x == s.x / 12 || x == (s.x + 6) / 12)
    ensures x <= 2 ==> s.mapX / 12 == 0
    ensures x >= 2 * d.xd - 2 ==> (s.mapX + SCROLL_X_DIM - 1) / 12 == 2 * d.xd
  {
  }

  /** If a pixel of a border column is in view, then the other position of that column is not. */
  lemma VisibleAliasHidden(d: Dims, sx: int, x: int, px: int)
    requires d.Valid() && 0 <= sx && sx <= px < sx + SCROLL_X_DIM && x == px / 12 && 0 <= x <= 2 * d.xd
    ensures AliasHidden(d, sx, x)
  {
    if x == 0 && sx + SCROLL_X_DIM > 2 * d.xd * BLOCK_X_DIM {
      BordersNeverTogether(d, sx, 0, px, 0, 2 * d.xd * BLOCK_X_DIM, 0);
      assert false;
    }
    if x == 2 * d.xd && sx < BLOCK_X_DIM {
      BordersNeverTogether(d, sx, 0, sx, 0, px, 0);
      assert false;
    }
  }

  lemma PlayerInside(d: Dims, g: Grid, s: State)
    requires OnTrack(d, g, s)
    ensures 12 <= s.x <= (2 * d.xd - 1) * 12 && 12 <= s.y <= (2 * d.yd - 1) * 12
  {
    TouchedSquaresOpen(d, g, s, s.x, s.y);
    TouchedSquaresOpen(d, g, s, s.x + 11, s.y + 11);
  }

  /** The windows that one pan can lead to are on the map. */
  lemma NextWindowOnMap(d: Dims, s: State)
    requires d.Valid() && Framed(d, s)
    ensures WindowOnMap(d, s.mapX, if s.mapY > SHOW_MIN then s.mapY - 1 else s.mapY)
    ensures WindowOnMap(d, s.mapX, if s.mapY < MaxMapY(d) then s.mapY + 1 else s.mapY)
    ensures WindowOnMap(d, if s.mapX > SHOW_MIN then s.mapX - 1 else s.mapX, s.mapY)
    ensures WindowOnMap(d, if s.mapX < MaxMapX(d) then s.mapX + 1 else s.mapX, s.mapY)
  {
  }

  lemma SameWallsOnTrack(d: Dims, g: Grid, g': Grid, s: State)
    requires SameWalls(g, g') && OnTrack(d, g, s)
    ensures OnTrack(d, g', s)
    ensures 12 <= s.x <= (2 * d.xd - 1) * 12 && 12 <= s.y
  {
    PlayerInside(d, g, s);
  }

  /** The maze after the first part of a tick. */
  ghost function AfterLook(d: Dims, g: Grid, s: State): (r: Grid)
    requires d.Valid() && |g| == MAZE_LEN
    ensures |r| == MAZE_LEN
  {
    if s.cnt == 0 then Look(d, g, s.x / 12, s.y / 12) else g
  }

  /** A tick from its stages. */
  lemma TickStages(d: Dims, exit: (int, int), g: Grid, s: State, next: Dir, g1: Grid)
    requires d.Valid() && |g| == MAZE_LEN && g1 == AfterLook(d, g, Reverse(s, next)) && SameWalls(g, g1)
    ensures var s1 := Reverse(s, next);
            TickWorld(d, exit, World(g, s, false), next) ==
            if s1.cnt == 0 && Wins(exit, g1, s1.x / 12, s1.y / 12) then World(g1, s1, true)
            else Roll(d, g1, Decide(d, g, s1, next))
  {
    SameWallsDecide(d, g, g1, Reverse(s, next), next);
  }

  /** What check_for_fruit leaves. */
  lemma EatenIsEat(d: Dims, g: Grid, g': Grid, x: int, y: int)
    requires d.Valid() && |g| == MAZE_LEN
    requires if InFruitRange(d, x, y) && FruitAt(d, g, x, y) != 0 then Eaten(d, g, g', x, y) else g' == g
    ensures g' == Eat(d, g, x, y)
  {
    if InFruitRange(d, x, y) && FruitAt(d, g, x, y) == 0 {
      var n := d.MazeIndex(x, y);
      IndexInRange(d, x, y);
      assert g[n].(fruit := 0) == g[n] && g[n := g[n]] == g;
    }
  }

  /** The three stages of a tick, each of them in order. */
  lemma TickSteps(d: Dims, g: Grid, s: State, next: Dir)
    requires d.Valid() && |g| == MAZE_LEN && Bordered(d, g) && Sound(d, g, s)
    ensures Sound(d, g, Reverse(s, next))
    ensures OnTrack(d, g, Decide(d, g, Reverse(s, next), next)) && Framed(d, Decide(d, g, Reverse(s, next), next))
    ensures Sound(d, g, Motion.Tick(d, g, s, next))
  {
    ReverseOnTrack(d, g, s, next);
    DecideOnTrack(d, g, Reverse(s, next), next);
    DecideFramed(d, g, s, next);
    TickSound(d, g, s, next);
  }

  /** What remains of a tick once the direction is settled; g' is the maze g with perhaps less fruit and mist. */
  lemma RestOfTick(d: Dims, g: Grid, g': Grid, s: State, next: Dir)
    requires d.Valid() && |g| == MAZE_LEN && SameWalls(g, g') && Bordered(d, g') && Sound(d, g, s)
    ensures Framed(d, Decide(d, g, Reverse(s, next), next))
    ensures OnTrack(d, g, Motion.Tick(d, g, s, next)) && Sound(d, g', Motion.Tick(d, g, s, next))
    ensures var t := Motion.Tick(d, g, s, next);
            0 < s.cnt && WayBack(s.dir, next) ==> Moved(s, t, next) && t.cnt == 11 - s.cnt
  {
    SameWallsBordered(d, g', g);
    TickSteps(d, g, s, next);
    SameWallsSound(d, g, g', Motion.Tick(d, g, s, next));
    if 0 < s.cnt && WayBack(s.dir, next) {
      BackwardsTurnsAtOnce(d, g, s, next);
    }
  }

  lemma DecideFramed(d: Dims, g: Grid, s: State, next: Dir)
    requires Framed(d, s)
    ensures Framed(d, Reverse(s, next)) && Framed(d, Decide(d, g, Reverse(s, next), next))
  {
  }

  /** The size of a level's maze: from the minimum, in steps of 2, up to the maximum. */
  function LevelDims(level: int): Dims {
    Dims(Min(MAZE_MIN_X_DIM + 2 * (level - 1), MAZE_MAX_X_DIM), Min(MAZE_MIN_Y_DIM + 2 * (level - 1), MAZE_MAX_Y_DIM))
  }

  lemma LevelSize(level: int)
    ensures LevelDims(level).Valid() <==> 1 <= level
    ensures LevelDims(level).Valid() ==> InitialFruits(level) < LevelDims(level).xd * LevelDims(level).yd
  {
    if 1 <= level {
      MulLe(MAZE_MIN_X_DIM, MAZE_MIN_Y_DIM, LevelDims(level).xd, LevelDims(level).yd);
    }
  }

  function InitialFruits(level: int): int {
    if level < 1 then 1 else Min(1 + (level - 1) / 2, 6)
  }

  /** A level has two columns and two rows more than the one before, up to the limits, and every other level a fruit. */
  lemma LevelsGrow(level: int)
    requires level >= 1
    ensures LevelDims(1) == Dims(14, 8) && InitialFruits(1) == InitialFruits(2) == 1
    ensures LevelDims(level + 1) ==
            Dims(if LevelDims(level).xd < 50 then LevelDims(level).xd + 2 else 50,
                 if LevelDims(level).yd < 30 then LevelDims(level).yd + 2 else 30)
    ensures InitialFruits(level + 2) == if InitialFruits(level) < 6 then InitialFruits(level) + 1 else 6
  {
  }

  /** What make_maze leaves has one of the two forms of a made maze. */
  lemma MadeIsMade(d: Dims, g: Grid, godMode: bool)
    requires d.Valid() && |g| == MAZE_LEN
    requires godMode ==> forall n :: 0 <= n < |g| ==> (g[n].wall <==> n !in Interior(d))
    requires !godMode ==> OnlyPassagesOpen(d, g)
    ensures MazeWin.Made(d, g)
  {
    forall n | n in Interior(d) ensures 0 <= n < MAZE_LEN {
      var x, y :| 0 < x < 2 * d.xd && 0 < y < 2 * d.yd && n == d.MazeIndex(x, y);
      IndexInRange(d, x, y);
    }
  }

  /** A made maze, once the player has looked around on (1,1), is a level in play. */
  lemma BegunInPlay(d: Dims, g: Grid, g': Grid, s: State, exitX: int, exitY: int)
    requires d.Valid() && |g| == MAZE_LEN && Bordered(d, g) && AllJoined(d, g) && MazeWin.Made(d, g)
    requires Fruits(g) <= d.Points() && OddIn(d, exitX, exitY)
    requires g' == Look(d, g, 1, 1) && Sound(d, g', s) && s.cnt == 0 && s.x == 12 && s.y == 12
    ensures MazeWin.InPlay(d, exitX, exitY, World(g', s, false))
  {
    LookKeeps(d, g, 1, 1);
    SameWallsBordered(d, g, g');
    JoinedWithFewerWalls(d, g, g');
    if OnlyPassagesOpen(d, g) {
      SameWallsSamePassages(d, g, g');
    }
  }

  class Game {
    const view: View
    var playX: int
    var playY: int
    var dir: Dir
    var moveCnt: int
    var mapX: int
    var mapY: int

    constructor (view: View)
      ensures this.view == view
    {
      this.view := view;
      playX, playY, dir, moveCnt, mapX, mapY := BLOCK_X_DIM, BLOCK_Y_DIM, Stop, 0, SHOW_MIN, SHOW_MIN;
    }

    function Now(): State
      reads this
    {
      State(playX, playY, dir, moveCnt, mapX, mapY)
    }

    /** Picture and maze agree, and the display is where the game thinks it is. */
    ghost predicate Synced()
      reads this, view, view.maze, view.maze.maze, view.screen, view.screen.build
    {
      view.Valid() && view.Agree() && view.screen.showX == mapX && view.screen.showY == mapY
    }

    ghost predicate Valid()
      reads this, view, view.maze, view.maze.maze, view.screen, view.screen.build
    {
      Synced() && Sound(view.maze.dims, view.maze.maze[..], Now())
    }

    /** find_open_directions for the square (x,y). */
    method FindOpenDirections(x: int, y: int) returns (op: seq<bool>)
      requires view.Valid() && Displayed(view.maze.dims, x, y)
      ensures |op| == 4
      ensures forall to: Dir :: to != Stop ==>
                op[DirNumber(to)] == OpenCell(view.maze.dims, view.maze.maze[..], x + to.Dx(), y + to.Dy())
    {
      StencilInRange(view.maze.dims, x, y);
      op := [!view.maze.maze[view.maze.dims.MazeIndex(x, y - 1)].wall,
             !view.maze.maze[view.maze.dims.MazeIndex(x + 1, y)].wall,
             !view.maze.maze[view.maze.dims.MazeIndex(x, y + 1)].wall,
             !view.maze.maze[view.maze.dims.MazeIndex(x - 1, y)].wall];
      forall to: Dir | to != Stop
        ensures op[DirNumber(to)] == OpenCell(view.maze.dims, view.maze.maze[..], x + to.Dx(), y + to.Dy())
      {
        match to case Up => case Right => case Down => case Left =>
      }
    }

    ghost function Exit(): (int, int)
      reads view.maze
    {
      (view.maze.exitX, view.maze.exitY)
    }

    /** The maze and the player as one value. */
    ghost function Level(won: bool): World
      reads this, view.maze.maze
    {
      World(view.maze.maze[..], Now(), won)
    }

    /** Eats the fruit at the square under pixel (px,py), unveils around it and tells whether the level is won. */
    method UnveilAroundPlayer(px: int, py: int) returns (win: bool)
      requires Synced() && 0 <= px && 0 <= py && AliasesHidden(view.maze.dims, mapX, px / 12)
      modifies view.maze.maze, view.maze`nFruits, view.screen.build
      ensures Synced() && view.maze.maze[..] == Look(view.maze.dims, old(view.maze.maze[..]), px / 12, py / 12)
      ensures win <==> Wins(Exit(), view.maze.maze[..], px / 12, py / 12)
    {
      var x, y := px / BLOCK_X_DIM, py / BLOCK_Y_DIM;
      ghost var d, g := view.maze.dims, view.maze.maze[..];
      var _ := view.CheckForFruit(x, y);
      EatenIsEat(d, g, view.maze.maze[..], x, y);
      ghost var g1 := view.maze.maze[..];
      view.UnveilAround(x, y);
      MarkedIsMark(g1, view.maze.maze[..], Cells(d, Surroundings(x, y)));
      win := view.CheckForWin(x, y);
    }

    /** A new direction that is exactly backwards is taken at once. */
    method TurnBack(next: Dir)
      modifies this`dir, this`moveCnt
      ensures Now() == Reverse(old(Now()), next)
      ensures if WayBack(old(dir), next)
              then dir == next && moveCnt == if old(moveCnt) > 0 then 12 - old(moveCnt) else old(moveCnt)
              else dir == old(dir) && moveCnt == old(moveCnt)
    {
      if next != dir {
        if (dir == Up && next == Down) || (dir == Down && next == Up) || (dir == Left && next == Right)
            || (dir == Right && next == Left) {
          if moveCnt > 0 {
            if dir == Up || dir == Down {
              moveCnt := BLOCK_Y_DIM - moveCnt;
            } else {
              moveCnt := BLOCK_X_DIM - moveCnt;
            }
          }
          dir := next;
        }
      }
    }

    /** On a new square: take next if it is open, stop if the way ahead is not. */
    method ChooseDirection(next: Dir)
      requires view.Valid() && moveCnt == 0 && Displayed(view.maze.dims, playX / 12, playY / 12)
      modifies this`dir, this`moveCnt
      ensures Now() == Decide(view.maze.dims, view.maze.maze[..], old(Now()), next)
    {
      var op := FindOpenDirections(playX / BLOCK_X_DIM, playY / BLOCK_Y_DIM);
      ghost var s := Now();
      assert forall to: Dir :: to != Stop ==> op[DirNumber(to)] == CanGo(view.maze.dims, view.maze.maze[..], s, to);
      if next != Stop && op[DirNumber(next)] {
        dir := next;
      }
      if dir != Stop {
        if !op[DirNumber(dir)] {
          dir := Stop;
        } else if dir == Up || dir == Down {
          moveCnt := BLOCK_Y_DIM;
        } else {
          moveCnt := BLOCK_X_DIM;
        }
      }
    }

    static function DirNumber(dir: Dir): (n: int)
      requires dir != Stop
      ensures 0 <= n < 4
    {
      match dir case Up => 0 case Right => 1 case Down => 2 case Left => 3
    }

    method MoveUp()
      requires Synced() && WindowOnMap(view.maze.dims, mapX, if mapY > SHOW_MIN then mapY - 1 else mapY)
      modifies this`playY, this`mapY, view.screen`img3Off, view.screen`showX, view.screen`showY, view.screen.build
      ensures Synced()
      ensures playY == old(playY) - 1
      ensures mapY == if playY < old(mapY) + BLOCK_Y_DIM * PAN_BORDER
                && old(mapY) > SHOW_MIN then old(mapY) - 1 else old(mapY)
    {
      playY := playY - 1;
      if playY < mapY + BLOCK_Y_DIM * PAN_BORDER && mapY > SHOW_MIN {
        mapY := mapY - 1;
        view.Pan(0, -1);
      }
    }

    method MoveRight()
      requires Synced() && WindowOnMap(view.maze.dims, if mapX < MaxMapX(view.maze.dims) then mapX + 1 else mapX, mapY)
      modifies this`playX, this`mapX, view.screen`img3Off, view.screen`showX, view.screen`showY, view.screen.build
      ensures Synced()
      ensures playX == old(playX) + 1
      ensures mapX == if playX > old(mapX) + SCROLL_X_DIM - BLOCK_X_DIM * (PAN_BORDER + 1)
                && old(mapX) < MaxMapX(view.maze.dims)
                      then old(mapX) + 1 else old(mapX)
    {
      playX := playX + 1;
      if playX > mapX + SCROLL_X_DIM - BLOCK_X_DIM * (PAN_BORDER + 1) &&
         mapX + SCROLL_X_DIM < (2 * view.maze.dims.xd + 1) * BLOCK_X_DIM - SHOW_MIN {
        mapX := mapX + 1;
        view.Pan(1, 0);
      }
    }

    method MoveDown()
      requires Synced() && WindowOnMap(view.maze.dims, mapX, if mapY < MaxMapY(view.maze.dims) then mapY + 1 else mapY)
      modifies this`playY, this`mapY, view.screen`img3Off, view.screen`showX, view.screen`showY, view.screen.build
      ensures Synced()
      ensures playY == old(playY) + 1
      ensures mapY == if playY > old(mapY) + SCROLL_Y_DIM - BLOCK_Y_DIM * (PAN_BORDER + 1)
                && old(mapY) < MaxMapY(view.maze.dims)
                      then old(mapY) + 1 else old(mapY)
    {
      playY := playY + 1;
      if playY > mapY + SCROLL_Y_DIM - BLOCK_Y_DIM * (PAN_BORDER + 1) &&
         mapY + SCROLL_Y_DIM < (2 * view.maze.dims.yd + 1) * BLOCK_Y_DIM - SHOW_MIN {
        mapY := mapY + 1;
        view.Pan(0, 1);
      }
    }

    method MoveLeft()
      requires Synced() && WindowOnMap(view.maze.dims, if mapX > SHOW_MIN then mapX - 1 else mapX, mapY)
      modifies this`playX, this`mapX, view.screen`img3Off, view.screen`showX, view.screen`showY, view.screen.build
      ensures Synced()
      ensures playX == old(playX) - 1
      ensures mapX == if playX < old(mapX) + BLOCK_X_DIM * PAN_BORDER
                && old(mapX) > SHOW_MIN then old(mapX) - 1 else old(mapX)
    {
      playX := playX - 1;
      if playX < mapX + BLOCK_X_DIM * PAN_BORDER && mapX > SHOW_MIN {
        mapX := mapX - 1;
        view.Pan(-1, 0);
      }
    }

    /** One pixel in the current direction. */
    method MovePlayer()
      requires Synced() && dir != Stop && Framed(view.maze.dims, Now())
      modifies this, view.screen`img3Off, view.screen`showX, view.screen`showY, view.screen.build
      ensures Synced()
      ensures Now() == Move(view.maze.dims, old(Now()))
    {
      NextWindowOnMap(view.maze.dims, Now());
      moveCnt := moveCnt - 1;
      if dir == Up {
        MoveUp();
      } else if dir == Right {
        MoveRight();
      } else if dir == Down {
        MoveDown();
      } else {
        MoveLeft();
      }
    }

    /** The picture of the square that the player is leaving; the player is aligned across its direction. */
    method RedrawBehind()
      requires Synced() && dir != Stop && OnTrack(view.maze.dims, view.maze.maze[..], Now())
      modifies view.screen.build
      ensures Synced()
    {
      PlayerInside(view.maze.dims, view.maze.maze[..], Now());
      var x, y := playX / BLOCK_X_DIM, playY / BLOCK_Y_DIM;
      if dir == Up {
        y := y + 1;
      } else if dir == Left {
        x := x + 1;
      }
      assert dir == Up || dir == Down ==> playX == x * BLOCK_X_DIM;
      assert dir == Left || dir == Right ==> playY == y * BLOCK_Y_DIM;
      view.DrawCell(x, y, {});
    }

    /** The part of a tick that happens only on a square. */
    method ArriveOnSquare(next: Dir) returns (won: bool)
      requires Synced() && moveCnt == 0 && OnTrack(view.maze.dims, view.maze.maze[..], Now())
      requires Framed(view.maze.dims, Now())
      modifies this`dir, this`moveCnt, view.maze.maze, view.maze`nFruits, view.screen.build
      ensures Synced()
      ensures view.maze.maze[..] == Look(view.maze.dims, old(view.maze.maze[..]), old(playX) / 12, old(playY) / 12)
      ensures won <==> Wins(Exit(), view.maze.maze[..], old(playX) / 12, old(playY) / 12)
      ensures Now() == if won then old(Now()) else Decide(view.maze.dims, view.maze.maze[..], old(Now()), next)
    {
      ghost var d, g, s := view.maze.dims, view.maze.maze[..], Now();
      PlayerInside(d, g, s);
      AliasesOutOfView(d, s, playX / 12);
      won := UnveilAroundPlayer(playX, playY);
      if !won {
        ChooseDirection(next);
      }
    }

    /** One tick: turn, unveil and decide on a square, then move one pixel and unveil again. */
    method Tick(next: Dir) returns (won: bool)
      requires Valid()
      modifies this, view.maze.maze, view.maze`nFruits
      modifies view.screen`img3Off, view.screen`showX, view.screen`showY, view.screen.build
      ensures Valid() && Level(won) == TickWorld(view.maze.dims, Exit(), old(Level(false)), next)
      ensures SameWalls(old(view.maze.maze[..]), view.maze.maze[..])
      ensures !won ==> Now() == Motion.Tick(view.maze.dims, old(view.maze.maze[..]), old(Now()), next)
      ensures 0 < old(moveCnt) && WayBack(old(dir), next) ==>
                !won && Moved(old(Now()), Now(), next) && moveCnt == 11 - old(moveCnt)
    {
      ghost var d, g, s := view.maze.dims, view.maze.maze[..], Now();
      TurnBack(next);
      won := Settle(next, s);
      if !won {
        Continue(next, g, s);
      }
    }

    /** On a square: look around and decide; between two squares nothing happens.  The tick began in state s. */
    method Settle(next: Dir, ghost s: State) returns (won: bool)
      requires Synced() && Sound(view.maze.dims, view.maze.maze[..], s) && Now() == Reverse(s, next)
      modifies this`dir, this`moveCnt, view.maze.maze, view.maze`nFruits, view.screen.build
      ensures Synced() && SameWalls(old(view.maze.maze[..]), view.maze.maze[..])
      ensures won ==> old(moveCnt) == 0 && Valid()
      ensures !won ==> Now() == Decide(view.maze.dims, old(view.maze.maze[..]), old(Now()), next)
      ensures TickWorld(view.maze.dims, Exit(), World(old(view.maze.maze[..]), s, false), next) ==
              if won then Level(true) else Roll(view.maze.dims, view.maze.maze[..], Now())
    {
      ghost var d, g, s1 := view.maze.dims, view.maze.maze[..], Now();
      TickSteps(d, g, s, next);
      won := false;
      if moveCnt == 0 {
        LookKeeps(d, g, playX / 12, playY / 12);
        won := ArriveOnSquare(next);
        SameWallsDecide(d, g, view.maze.maze[..], s1, next);
        SameWallsSound(d, g, view.maze.maze[..], s1);
      }
      TickStages(d, Exit(), g, s, next, view.maze.maze[..]);
    }

    /** The rest of a tick begun in state s, once the direction is settled; g has the walls of the maze. */
    method Continue(next: Dir, ghost g: Grid, ghost s: State)
      requires Synced() && SameWalls(g, view.maze.maze[..])
      requires Sound(view.maze.dims, g, s) && Now() == Decide(view.maze.dims, g, Reverse(s, next), next)
      modifies this, view.maze.maze, view.maze`nFruits
      modifies view.screen`img3Off, view.screen`showX, view.screen`showY, view.screen.build
      ensures Valid() && Level(false) == Roll(view.maze.dims, old(view.maze.maze[..]), old(Now()))
      ensures SameWalls(g, view.maze.maze[..]) && Now() == Motion.Tick(view.maze.dims, g, s, next)
      ensures 0 < s.cnt && WayBack(s.dir, next) ==> Moved(s, Now(), next) && moveCnt == 11 - s.cnt
    {
      RestOfTick(view.maze.dims, g, view.maze.maze[..], s, next);
      if dir != Stop {
        Advance(g, Now());
      }
      SameWallsSound(view.maze.dims, g, view.maze.maze[..], Now());
    }

    /** The part of a tick that happens while the player moves; g has the walls of the maze. */
    method Advance(ghost g: Grid, ghost s: State)
      requires Synced() && SameWalls(g, view.maze.maze[..]) && Now() == s && s.dir != Stop
      requires Framed(view.maze.dims, s) && OnTrack(view.maze.dims, g, Move(view.maze.dims, s))
      modifies this, view.maze.maze, view.maze`nFruits
      modifies view.screen`img3Off, view.screen`showX, view.screen`showY, view.screen.build
      ensures Synced() && Level(false) == Roll(view.maze.dims, old(view.maze.maze[..]), s)
      ensures SameWalls(g, view.maze.maze[..])
    {
      MoveFramed(view.maze.dims, Now());
      MovePlayer();
      SameWallsOnTrack(view.maze.dims, g, view.maze.maze[..], Now());
      RedrawBehind();
      LookKeeps(view.maze.dims, view.maze.maze[..], RollX(Now()), RollY(Now()));
      UnveilOnTheWay();
    }

    /** Rolling over a square: what is seen from half way on. */
    method UnveilOnTheWay()
      requires Synced() && Framed(view.maze.dims, Now())
      requires 12 <= playX <= (2 * view.maze.dims.xd - 1) * 12 && 12 <= playY
      modifies view.maze.maze, view.maze`nFruits, view.screen.build
      ensures Synced()
      ensures view.maze.maze[..] == Look(view.maze.dims, old(view.maze.maze[..]), RollX(Now()), RollY(Now()))
    {
      var px, py := playX, playY;
      if dir == Up {
        py := py + BLOCK_Y_DIM / 2;
      } else if dir == Left {
        px := px + BLOCK_X_DIM / 2;
      }
      AliasesOutOfView(view.maze.dims, Now(), px / 12);
      assert px / 12 == RollX(Now()) && py / 12 == RollY(Now());
      var _ := UnveilAroundPlayer(px, py);
    }

    /**
      A level in play: apart from what every tick keeps, the maze is joined and fruits and exit are
      within reach.
    */
    ghost predicate InPlay()
      reads this, view, view.maze, view.maze.maze, view.screen, view.screen.build
    {
      Valid() && MazeWin.InPlay(view.maze.dims, view.maze.exitX, view.maze.exitY, Level(false))
    }

    /** However it has been played so far, the level can still be won. */
    lemma CanStillBeWon()
      requires InPlay()
      ensures CanBeWon(view.maze.dims, Exit(), Level(false))
    {
      AlwaysWinnable(view.maze.dims, view.maze.exitX, view.maze.exitY, Level(false));
    }

    /**
      The whole of a level so far, for any sequence of keys: maze and player are what the run on values
      gives, and it ends early exactly when it is won.
    */
    method PlayKeys(keys: seq<Dir>) returns (won: bool)
      requires Valid()
      modifies this, view.maze.maze, view.maze`nFruits
      modifies view.screen`img3Off, view.screen`showX, view.screen`showY, view.screen.build
      ensures Valid() && Level(won) == RunWorld(view.maze.dims, Exit(), old(Level(false)), keys)
      ensures SameWalls(old(view.maze.maze[..]), view.maze.maze[..])
    {
      ghost var d, exit, w := view.maze.dims, Exit(), Level(false);
      won := false;
      assert keys[0..] == keys;
      for k := 0 to |keys|
        invariant Valid() && SameWalls(w.grid, view.maze.maze[..])
        invariant RunWorld(d, exit, Level(false), keys[k..]) == RunWorld(d, exit, w, keys)
      {
        NextKey(d, exit, Level(false), keys, k);
        won := Tick(keys[k]);
        if won {
          WonForGood(d, exit, Level(true), keys[k + 1..]);
          return;
        }
      }
    }

    /** A level in play stays in play until it is won, and the player moves as the state machine does. */
    method PlayLevel(keys: seq<Dir>) returns (won: bool)
      requires InPlay()
      modifies this, view.maze.maze, view.maze`nFruits
      modifies view.screen`img3Off, view.screen`showX, view.screen`showY, view.screen.build
      ensures Valid() && Level(won) == RunWorld(view.maze.dims, Exit(), old(Level(false)), keys)
      ensures won <==> RunWorld(view.maze.dims, Exit(), old(Level(false)), keys).won
      ensures !won ==> Now() == Motion.Run(view.maze.dims, old(view.maze.maze[..]), old(Now()), keys)
      ensures !won ==> InPlay() && CanBeWon(view.maze.dims, Exit(), Level(false))
    {
      PlayOn(view.maze.dims, view.maze.exitX, view.maze.exitY, Level(false), keys);
      won := PlayKeys(keys);
      if !won {
        CanStillBeWon();
      }
    }

    /**
      prepare_maze_level and the start of a level: a maze of the level's size, its first picture, and the
      player on (1,1).  Levels below 1 are refused; the others always have a valid size.
    */
    method StartLevel(level: int, godMode: bool, rnd: seq<nat>, fruitNumbers: seq<Fruit>) returns (result: MakeResult)
      requires view.maze.maze.Length == MAZE_LEN && view.screen.Valid() && view.screen.FencesIntact()
          && ValidBlocks(view.blocks)
      requires |fruitNumbers| == InitialFruits(level) && forall k :: 0 <= k < |fruitNumbers| ==> fruitNumbers[k] != 0
      modifies this, view.maze, view.maze.maze, view.screen, view.screen.build
      ensures result == SizeRefused <==> level < 1
      ensures result == MakeResult.Made <==> level >= 1 && WormRun.Suffices(LevelDims(level), rnd)
      ensures result == MakeResult.Made ==> InPlay() && CanBeWon(view.maze.dims, Exit(), Level(false))
      ensures result == MakeResult.Made ==> view.maze.dims == LevelDims(level)
      ensures result == MakeResult.Made ==> Now() == State(BLOCK_X_DIM, BLOCK_Y_DIM, Stop, 0, SHOW_MIN, SHOW_MIN)
    {
      var dims := LevelDims(level);
      LevelSize(level);
      result := view.maze.MakeMaze(dims.xd, dims.yd, godMode, rnd, fruitNumbers);
      if result == MakeResult.Made {
        ghost var g := view.maze.maze[..];
        MadeIsMade(view.maze.dims, g, godMode);
        Begin();
        BegunInPlay(view.maze.dims, g, view.maze.maze[..], Now(), view.maze.exitX, view.maze.exitY);
        CanStillBeWon();
      }
    }

    /** First picture, initial position and first look around. */
    method Begin()
      requires view.maze.maze.Length == MAZE_LEN && view.screen.Valid() && view.screen.FencesIntact()
          && ValidBlocks(view.blocks)
      requires Playable(view.maze.dims, view.maze.maze[..], view.maze.nFruits, view.maze.exitX, view.maze.exitY)
      modifies this, view.maze.maze, view.maze`nFruits, view.screen, view.screen.build
      ensures Valid() && view.maze.maze[..] == Look(view.maze.dims, old(view.maze.maze[..]), 1, 1)
      ensures Now() == State(BLOCK_X_DIM, BLOCK_Y_DIM, Stop, 0, SHOW_MIN, SHOW_MIN)
    {
      mapX, mapY := SHOW_MIN, SHOW_MIN;
      view.Setup(mapX, mapY);
      playX, playY, dir, moveCnt := BLOCK_X_DIM, BLOCK_Y_DIM, Stop, 0;
      FirstLook();
    }

    method FirstLook()
      requires Synced() && Now() == State(BLOCK_X_DIM, BLOCK_Y_DIM, Stop, 0, SHOW_MIN, SHOW_MIN)
      modifies view.maze.maze, view.maze`nFruits, view.screen.build
      ensures Valid() && view.maze.maze[..] == Look(view.maze.dims, old(view.maze.maze[..]), 1, 1)
    {
      ghost var d, g := view.maze.dims, view.maze.maze[..];
      LookKeeps(d, g, 1, 1);
      StartSound(d, g);
      AliasesOutOfView(d, Now(), 1);
      var _ := UnveilAroundPlayer(playX, playY);
      SameWallsSound(d, g, view.maze.maze[..], Now());
    }
  }
}
