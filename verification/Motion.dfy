/**
  The player's motion: the tick state machine of rtc_thread and the pans of move_up, move_right,
  move_down and move_left in mp2/mazegame.c, on values.
*/
module Motion {
  import opened MazeLattice
  import opened MazePlay
  import opened MazeImage
  import opened ModeX

  const SHOW_MIN := 6
  const PAN_BORDER := 5

  datatype Dir = Up | Right | Down | Left | Stop {
    function Dx(): int { if this == Right then 1 else if this == Left then -1 else 0 }
    function Dy(): int { if this == Down then 1 else if this == Up then -1 else 0 }
    function Opposite(): Dir {
      match this
      case Up => Down
      case Down => Up
      case Left => Right
      case Right => Left
      case Stop => Stop
    }
  }

  /** Player position in pixels, direction, pixels left to the next square, and upper left display pixel. */
  datatype State = State(x: int, y: int, dir: Dir, cnt: int, mapX: int, mapY: int)

  predicate OpenCell(d: Dims, g: Grid, x: int, y: int) { Open(g, d.MazeIndex(x, y)) }

  /** A new direction that is exactly backwards is taken at once, even between two squares. */
  function Reverse(s: State, next: Dir): State {
    if s.dir != Stop && next == s.dir.Opposite() then
      s.(dir := next, cnt := if s.cnt > 0 then 12 - s.cnt else s.cnt)
    else s
  }

  predicate CanGo(d: Dims, g: Grid, s: State, dir: Dir) {
    OpenCell(d, g, s.x / 12 + dir.Dx(), s.y / 12 + dir.Dy())
  }

  /** Turn to next if that way is open. */
  function Chosen(d: Dims, g: Grid, s: State, next: Dir): Dir {
    if next != Stop && CanGo(d, g, s, next) then next else s.dir
  }

  /** Set off in a direction if that way is open, stop otherwise. */
  function SetOff(d: Dims, g: Grid, s: State, dir: Dir): State {
    if dir != Stop && CanGo(d, g, s, dir) then s.(dir := dir, cnt := 12) else s.(dir := Stop)
  }

  /** On a square: turn to next if that way is open, go on if possible, stop otherwise. */
  function Decide(d: Dims, g: Grid, s: State, next: Dir): State {
    if s.cnt != 0 then s else SetOff(d, g, s, Chosen(d, g, s, next))
  }

  function MaxMapX(d: Dims): int { (2 * d.xd + 1) * BLOCK_X_DIM - SHOW_MIN - SCROLL_X_DIM }

  function MaxMapY(d: Dims): int { (2 * d.yd + 1) * BLOCK_Y_DIM - SHOW_MIN - SCROLL_Y_DIM }

  /** One pixel in the current direction; the display pans when the player passes its border. */
  function Move(d: Dims, s: State): State {
    match s.dir
    case Stop => s
    case Up => s.(cnt := s.cnt - 1, y := s.y - 1,
                  mapY := if s.y - 1 < s.mapY + BLOCK_Y_DIM * PAN_BORDER && s.mapY > SHOW_MIN then s.mapY - 1
                      else s.mapY)
    case Right => s.(cnt := s.cnt - 1, x := s.x + 1,
                     mapX := if s.x + 1 > s.mapX + SCROLL_X_DIM - BLOCK_X_DIM * (PAN_BORDER + 1) &&
                                s.mapX + SCROLL_X_DIM < (2 * d.xd + 1) * BLOCK_X_DIM - SHOW_MIN then s.mapX + 1
                                    else s.mapX)
    case Down => s.(cnt := s.cnt - 1, y := s.y + 1,
                    mapY := if s.y + 1 > s.mapY + SCROLL_Y_DIM - BLOCK_Y_DIM * (PAN_BORDER + 1) &&
                               s.mapY + SCROLL_Y_DIM < (2 * d.yd + 1) * BLOCK_Y_DIM - SHOW_MIN then s.mapY + 1
                                   else s.mapY)
    case Left => s.(cnt := s.cnt - 1, x := s.x - 1,
                    mapX := if s.x - 1 < s.mapX + BLOCK_X_DIM * PAN_BORDER && s.mapX > SHOW_MIN then s.mapX - 1
                        else s.mapX)
  }

  function Tick(d: Dims, g: Grid, s: State, next: Dir): State {
    Move(d, Decide(d, g, Reverse(s, next), next))
  }

  /** The square that the player will reach after cnt more pixels. */
  function TargetX(s: State): int { s.x + s.cnt * s.dir.Dx() }

  function TargetY(s: State): int { s.y + s.cnt * s.dir.Dy() }

  ghost predicate Inside(d: Dims, g: Grid, x: int, y: int) {
    0 < x < 2 * d.xd && 0 < y < 2 * d.yd && OpenCell(d, g, x, y)
  }

  /** The player is on the way between two open squares, or on one. */
  ghost predicate OnTrack(d: Dims, g: Grid, s: State) {
    && 0 <= s.cnt <= 12 && (s.dir == Stop ==> s.cnt == 0)
    && TargetX(s) % 12 == 0 && TargetY(s) % 12 == 0
    && Inside(d, g, TargetX(s) / 12, TargetY(s) / 12)
    && (s.cnt > 0 ==> Inside(d, g, TargetX(s) / 12 - s.dir.Dx(), TargetY(s) / 12 - s.dir.Dy()))
  }

  /** The display stays on the map and, away from the map's edges, keeps the pan border around the player. */
  ghost predicate Framed(d: Dims, s: State) {
    && SHOW_MIN <= s.mapX <= MaxMapX(d) && SHOW_MIN <= s.mapY <= MaxMapY(d)
    && (s.mapX == SHOW_MIN || s.mapX + 60 <= s.x) && (s.mapX == MaxMapX(d) || s.x <= s.mapX + 248)
    && (s.mapY == SHOW_MIN || s.mapY + 60 <= s.y) && (s.mapY == MaxMapY(d) || s.y <= s.mapY + 110)
  }

  ghost predicate Sound(d: Dims, g: Grid, s: State) {
    OnTrack(d, g, s) && s.cnt < 12 && Framed(d, s)
  }

  // ----- what one tick keeps -----

  /** An open neighbour of an inner position is an inner position: the border is closed. */
  lemma OpenIsInside(d: Dims, g: Grid, x: int, y: int)
    requires d.Valid() && |g| == MAZE_LEN && Bordered(d, g)
    requires 0 <= x <= 2 * d.xd && 0 <= y <= 2 * d.yd && OpenCell(d, g, x, y)
    ensures Inside(d, g, x, y)
  {
    assert d.MazeIndex(x, y) in Interior(d);
    var x', y' :| 0 < x' < 2 * d.xd && 0 < y' < 2 * d.yd && d.MazeIndex(x, y) == d.MazeIndex(x', y');
    IndexInjective(d, x', y', x, y);
  }

  lemma ReverseOnTrack(d: Dims, g: Grid, s: State, next: Dir)
    requires OnTrack(d, g, s) && s.cnt < 12
    ensures OnTrack(d, g, Reverse(s, next)) && Reverse(s, next).cnt < 12
    ensures Reverse(s, next).x == s.x && Reverse(s, next).y == s.y
  {
    match s.dir case Up => case Right => case Down => case Left => case Stop =>
  }

  lemma DecideOnTrack(d: Dims, g: Grid, s: State, next: Dir)
    requires d.Valid() && |g| == MAZE_LEN && Bordered(d, g)
    requires OnTrack(d, g, s) && s.cnt < 12
    ensures OnTrack(d, g, Decide(d, g, s, next))
    ensures Decide(d, g, s, next).dir != Stop ==> Decide(d, g, s, next).cnt > 0
    ensures Decide(d, g, s, next).x == s.x && Decide(d, g, s, next).y == s.y
  {
    if s.cnt == 0 {
      SetOffOnTrack(d, g, s, Chosen(d, g, s, next));
    }
  }

  /** Setting off from a square into an open neighbour, or staying there. */
  lemma SetOffOnTrack(d: Dims, g: Grid, s: State, dir: Dir)
    requires d.Valid() && |g| == MAZE_LEN && Bordered(d, g)
    requires OnTrack(d, g, s) && s.cnt == 0
    ensures OnTrack(d, g, SetOff(d, g, s, dir))
  {
    if dir != Stop && CanGo(d, g, s, dir) {
      OpenIsInside(d, g, s.x / 12 + dir.Dx(), s.y / 12 + dir.Dy());
      BetweenSquares(d, g, s.(dir := dir, cnt := 12), s.x / 12, s.y / 12);
    } else {
      Standing(d, g, s);
    }
  }

  lemma Standing(d: Dims, g: Grid, s: State)
    requires OnTrack(d, g, s) && s.cnt == 0
    ensures OnTrack(d, g, s.(dir := Stop))
  {
    assert TargetX(s) == s.x && TargetY(s) == s.y;
  }

  lemma BetweenSquares(d: Dims, g: Grid, s: State, cx: int, cy: int)
    requires s.dir != Stop && s.cnt == 12 && s.x == 12 * cx && s.y == 12 * cy
    requires Inside(d, g, cx, cy) && Inside(d, g, cx + s.dir.Dx(), cy + s.dir.Dy())
    ensures OnTrack(d, g, s)
  {
    assert TargetX(s) == 12 * (cx + s.dir.Dx()) && TargetY(s) == 12 * (cy + s.dir.Dy());
    assert TargetX(s) / 12 == cx + s.dir.Dx() && TargetY(s) / 12 == cy + s.dir.Dy();
  }

  lemma MoveOnTrack(d: Dims, g: Grid, s: State)
    requires OnTrack(d, g, s) && (s.dir != Stop ==> s.cnt > 0)
    ensures OnTrack(d, g, Move(d, s)) && Move(d, s).cnt < 12
  {
  }

  lemma MoveFramed(d: Dims, s: State)
    requires d.Valid() && Framed(d, s)
    ensures Framed(d, Move(d, s))
  {
  }

  /** Whatever key arrives, a tick keeps the player on track and the display around the player. */
  lemma TickSound(d: Dims, g: Grid, s: State, next: Dir)
    requires d.Valid() && |g| == MAZE_LEN && Bordered(d, g) && Sound(d, g, s)
    ensures Sound(d, g, Tick(d, g, s, next))
  {
    var r := Reverse(s, next);
    var t := Decide(d, g, r, next);
    ReverseOnTrack(d, g, s, next);
    DecideOnTrack(d, g, r, next);
    assert Framed(d, t);
    MoveOnTrack(d, g, t);
    MoveFramed(d, t);
    assert Tick(d, g, s, next) == Move(d, t);
  }

  // ----- what a key does -----

  predicate WayBack(dir: Dir, back: Dir) {
    dir != Stop && back.Dx() == -dir.Dx() && back.Dy() == -dir.Dy()
  }

  /** From s to t the player has moved one pixel in a direction. */
  predicate Moved(s: State, t: State, dir: Dir) {
    dir != Stop && t.dir == dir && t.x == s.x + dir.Dx() && t.y == s.y + dir.Dy()
  }

  /** Between two squares a backwards key turns the player at once. */
  lemma BackwardsTurnsAtOnce(d: Dims, g: Grid, s: State, next: Dir)
    requires 0 < s.cnt < 12 && WayBack(s.dir, next)
    ensures Moved(s, Tick(d, g, s, next), next) && Tick(d, g, s, next).cnt == 11 - s.cnt
  {
  }

  /** Between two squares any other key changes nothing. */
  lemma OtherKeysWait(d: Dims, g: Grid, s: State, next: Dir)
    requires 0 < s.cnt && s.dir != Stop && !WayBack(s.dir, next)
    ensures Moved(s, Tick(d, g, s, next), s.dir) && Tick(d, g, s, next).cnt == s.cnt - 1
  {
  }

  /** There is no wall next to the square in a direction. */
  predicate Free(d: Dims, g: Grid, s: State, dir: Dir) {
    dir != Stop && OpenCell(d, g, s.x / 12 + dir.Dx(), s.y / 12 + dir.Dy())
  }

  /**
    On a square the player takes the direction of the key if it is free, goes straight on if that is free
    and the key is not for the way back, and stops otherwise.
  */
  lemma OnSquareTakesKey(d: Dims, g: Grid, s: State, next: Dir)
    requires s.cnt == 0
    ensures var t := Tick(d, g, s, next);
            if Free(d, g, s, next) then Moved(s, t, next) && t.cnt == 11
            else if Free(d, g, s, s.dir) && !WayBack(s.dir, next) then Moved(s, t, s.dir) && t.cnt == 11
            else t == s.(dir := Stop)
  {
    var r := Reverse(s, next);
    assert r == if WayBack(s.dir, next) then s.(dir := next) else s;
    SetsOff(d, g, r, Chosen(d, g, r, next));
  }

  lemma SetsOff(d: Dims, g: Grid, s: State, dir: Dir)
    ensures var t := Move(d, SetOff(d, g, s, dir));
            if Free(d, g, s, dir) then Moved(s, t, dir) && t.cnt == 11 else t == s.(dir := Stop)
  {
  }

  /** Whatever key has moved the player, a backwards key moves the player back to the same pixel. */
  lemma ForthAndBack(d: Dims, g: Grid, s: State, next: Dir, back: Dir)
    requires d.Valid() && |g| == MAZE_LEN && Bordered(d, g) && Sound(d, g, s)
    requires WayBack(Tick(d, g, s, next).dir, back)
    ensures var t := Tick(d, g, Tick(d, g, s, next), back); (t.x, t.y) == (s.x, s.y) && t.dir == back
  {
    var r := Reverse(s, next);
    var m := Decide(d, g, r, next);
    var t := Tick(d, g, s, next);
    ReverseOnTrack(d, g, s, next);
    DecideOnTrack(d, g, r, next);
    assert Moved(s, t, m.dir) && t.cnt == m.cnt - 1;
    TurnsBack(d, g, m, t, back);
  }

  lemma TurnsBack(d: Dims, g: Grid, s: State, t: State, back: Dir)
    requires OnTrack(d, g, s) && s.cnt > 0 && Moved(s, t, s.dir) && t.cnt == s.cnt - 1 && WayBack(s.dir, back)
    ensures Moved(t, Tick(d, g, t, back), back)
  {
    if t.cnt > 0 {
      BackwardsTurnsAtOnce(d, g, t, back);
    } else {
      SquareBehind(d, g, s, t);
      OnSquareTakesKey(d, g, t, back);
    }
  }

  /** The square that a player has come from is free. */
  lemma SquareBehind(d: Dims, g: Grid, s: State, t: State)
    requires OnTrack(d, g, s) && s.cnt == 1 && Moved(s, t, s.dir)
    ensures forall back: Dir :: WayBack(s.dir, back) ==> Free(d, g, t, back)
  {
    assert TargetX(s) == t.x && TargetY(s) == t.y;
  }

  /** The display pans only when the player is at the pan border, and then the player stays there. */
  lemma PansOnlyAtBorder(d: Dims, s: State)
    requires Framed(d, s)
    ensures var t := Move(d, s);
            && (t.mapX, t.mapY) in {(s.mapX, s.mapY), (s.mapX + s.dir.Dx(), s.mapY + s.dir.Dy())}
            && (t.mapX > s.mapX ==> t.x == t.mapX + SCROLL_X_DIM - 72) && (t.mapX < s.mapX ==> t.x == t.mapX + 60)
            && (t.mapY > s.mapY ==> t.y == t.mapY + SCROLL_Y_DIM - 72) && (t.mapY < s.mapY ==> t.y == t.mapY + 60)
  {
  }

  // ----- whole runs -----

  function Run(d: Dims, g: Grid, s: State, keys: seq<Dir>): State
    decreases |keys|
  {
    if keys == [] then s else Run(d, g, Tick(d, g, s, keys[0]), keys[1..])
  }

  lemma {:induction false} RunSound(d: Dims, g: Grid, s: State, keys: seq<Dir>)
    requires d.Valid() && |g| == MAZE_LEN && Bordered(d, g) && Sound(d, g, s)
    ensures Sound(d, g, Run(d, g, s, keys))
    decreases |keys|
  {
    if keys == [] {
    } else {
      TickSound(d, g, s, keys[0]);
      RunSound(d, g, Tick(d, g, s, keys[0]), keys[1..]);
    }
  }

  /** A player who stands on an open inner square is on track. */
  lemma OnSquare(d: Dims, g: Grid, s: State, cx: int, cy: int)
    requires s.cnt == 0 && s.x == 12 * cx && s.y == 12 * cy && Inside(d, g, cx, cy)
    ensures OnTrack(d, g, s)
  {
    assert TargetX(s) == s.x && TargetY(s) == s.y;
    assert s.x / 12 == cx && s.y / 12 == cy;
  }

  /** The initial position is sound: point (1,1) is open. */
  lemma StartSound(d: Dims, g: Grid)
    requires d.Valid() && |g| == MAZE_LEN && Walled(d.Points(), g) == {}
    ensures Sound(d, g, State(BLOCK_X_DIM, BLOCK_Y_DIM, Stop, 0, SHOW_MIN, SHOW_MIN))
  {
    FirstPointOpen(d, g);
    OnSquare(d, g, State(BLOCK_X_DIM, BLOCK_Y_DIM, Stop, 0, SHOW_MIN, SHOW_MIN), 1, 1);
  }

  /** Every square that the player's 12x12 block touches is open. */
  lemma TouchedSquaresOpen(d: Dims, g: Grid, s: State, px: int, py: int)
    requires OnTrack(d, g, s) && s.x <= px < s.x + 12 && s.y <= py < s.y + 12
    ensures Inside(d, g, px / 12, py / 12)
  {
    match s.dir
    case Up => assert py / 12 == TargetY(s) / 12 || py / 12 == TargetY(s) / 12 + 1;
    case Down => assert py / 12 == TargetY(s) / 12 || py / 12 == TargetY(s) / 12 - 1;
    case Left => assert px / 12 == TargetX(s) / 12 || px / 12 == TargetX(s) / 12 + 1;
    case Right => assert px / 12 == TargetX(s) / 12 || px / 12 == TargetX(s) / 12 - 1;
    case Stop =>
  }

  /** The player's block is always completely on the screen. */
  lemma PlayerOnScreen(d: Dims, g: Grid, s: State)
    requires d.Valid() && Sound(d, g, s)
    ensures InWindow(s.mapX, s.mapY, s.x, s.y) && InWindow(s.mapX, s.mapY, s.x + 11, s.y + 11)
    ensures WindowOnMap(d, s.mapX, s.mapY)
  {
    TouchedSquaresOpen(d, g, s, s.x, s.y);
    TouchedSquaresOpen(d, g, s, s.x + 11, s.y + 11);
  }
}
