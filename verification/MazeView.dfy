/**
  The build buffer as a cache of the maze picture: line images of mp2/maze.c, line drawing of
  mp2/modex.c, and the operations that change the maze or the view and must keep the two in agreement.
*/
module MazeView {
  import opened MazeLattice
  import opened MazePlay
  import opened MazeGen
  import opened MazeWorms
  import opened Bytes
  import opened ModeX
  import opened MazeImage

  /** The other position that shows the same cell, if (x,y) is on the left or right border, is out of view. */
  predicate AliasHidden(d: Dims, sx: int, x: int) {
    && (x == 2 * d.xd ==> sx >= BLOCK_X_DIM)
    && (x == 0 ==> sx + SCROLL_X_DIM <= 2 * d.xd * BLOCK_X_DIM)
  }

  class View {
    const maze: Maze
    const screen: Screen
    const blocks: Blocks

    constructor (maze: Maze, screen: Screen, blocks: Blocks)
      ensures this.maze == maze && this.screen == screen && this.blocks == blocks
    {
      this.maze, this.screen, this.blocks := maze, screen, blocks;
    }

    ghost predicate Valid()
      reads this, maze, maze.maze, screen, screen.build
    {
      && screen.Valid() && screen.FencesIntact() && ValidBlocks(blocks)
      && maze.maze.Length == MAZE_LEN
      && Playable(maze.dims, maze.maze[..], maze.nFruits, maze.exitX, maze.exitY)
      && WindowOnMap(maze.dims, screen.showX, screen.showY)
    }

    /** The map pixel that find_block gives for (x,y). */
    ghost function Map(x: int, y: int): Byte
      requires ValidBlocks(blocks) && maze.dims.Valid() && maze.maze.Length == MAZE_LEN && OnMap(maze.dims, x, y)
      reads maze, maze.maze
    {
      MapPixel(blocks, maze.dims, maze.maze[..], maze.nFruits, x, y)
    }

    /** Every pixel of the window holds what find_block gives for it. */
    ghost predicate Agree()
      requires Valid()
      reads this, maze, maze.maze, screen, screen.build
    {
      forall x, y :: InWindow(screen.showX, screen.showY, x, y) ==> screen.Pixel(x, y) == Map(x, y)
    }

    // ----- line images -----

    method FillHorizBuffer(x: int, y: int, buf: array<Byte>)
      requires ValidBlocks(blocks) && maze.dims.Valid() && maze.maze.Length == MAZE_LEN
      requires buf.Length == SCROLL_X_DIM && OnMap(maze.dims, x, y) && OnMap(maze.dims, x + SCROLL_X_DIM - 1, y)
      modifies buf
      ensures forall i :: 0 <= i < SCROLL_X_DIM ==> buf[i] == Map(x + i, y)
    {
      var mapX, mapY := x / BLOCK_X_DIM, y / BLOCK_Y_DIM;
      var subX, subY := x - mapX * BLOCK_X_DIM, y - mapY * BLOCK_Y_DIM;
      var idx := 0;
      while idx < SCROLL_X_DIM
        invariant 0 <= idx <= SCROLL_X_DIM
        invariant idx < SCROLL_X_DIM ==> x + idx == mapX * 12 + subX && 0 <= subX < 12
        invariant forall i :: 0 <= i < idx ==> buf[i] == Map(x + i, y)
        decreases SCROLL_X_DIM - idx
      {
        var block := blocks[FindBlock(maze.dims, maze.maze[..], maze.nFruits, mapX, mapY)];
        var b := subY * BLOCK_X_DIM + subX;
        mapX := mapX + 1;
        ghost var idx0 := idx;
        while idx < SCROLL_X_DIM && subX < BLOCK_X_DIM
          invariant idx0 <= idx <= SCROLL_X_DIM && x + idx == (mapX - 1) * 12 + subX && 0 <= subX <= 12
          invariant subX == 12 || idx == SCROLL_X_DIM || b == subY * 12 + subX
          invariant idx == idx0 ==> subX < 12 && idx < SCROLL_X_DIM
          invariant forall i :: 0 <= i < idx ==> buf[i] == Map(x + i, y)
        {
          assert (x + idx) / 12 == mapX - 1 && (x + idx) % 12 == subX && y % 12 == subY;
          buf[idx] := block[b];
          b, idx, subX := b + 1, idx + 1, subX + 1;
        }
        subX := 0;
      }
    }

    method FillVertBuffer(x: int, y: int, buf: array<Byte>)
      requires ValidBlocks(blocks) && maze.dims.Valid() && maze.maze.Length == MAZE_LEN
      requires buf.Length == SCROLL_Y_DIM && OnMap(maze.dims, x, y) && OnMap(maze.dims, x, y + SCROLL_Y_DIM - 1)
      modifies buf
      ensures forall i :: 0 <= i < SCROLL_Y_DIM ==> buf[i] == Map(x, y + i)
    {
      var mapX, mapY := x / BLOCK_X_DIM, y / BLOCK_Y_DIM;
      var subX, subY := x - mapX * BLOCK_X_DIM, y - mapY * BLOCK_Y_DIM;
      var idx := 0;
      while idx < SCROLL_Y_DIM
        invariant 0 <= idx <= SCROLL_Y_DIM
        invariant idx < SCROLL_Y_DIM ==> y + idx == mapY * 12 + subY && 0 <= subY < 12
        invariant forall i :: 0 <= i < idx ==> buf[i] == Map(x, y + i)
        decreases SCROLL_Y_DIM - idx
      {
        var block := blocks[FindBlock(maze.dims, maze.maze[..], maze.nFruits, mapX, mapY)];
        var b := subY * BLOCK_X_DIM + subX;
        mapY := mapY + 1;
        ghost var idx0 := idx;
        while idx < SCROLL_Y_DIM && subY < BLOCK_Y_DIM
          invariant idx0 <= idx <= SCROLL_Y_DIM && y + idx == (mapY - 1) * 12 + subY && 0 <= subY <= 12
          invariant subY == 12 || idx == SCROLL_Y_DIM || b == subY * 12 + subX
          invariant idx == idx0 ==> subY < 12 && idx < SCROLL_Y_DIM
          invariant forall i :: 0 <= i < idx ==> buf[i] == Map(x, y + i)
        {
          assert (y + idx) / 12 == mapY - 1 && (y + idx) % 12 == subY && x % 12 == subX;
          buf[idx] := block[b];
          b, idx, subY := b + BLOCK_X_DIM, idx + 1, subY + 1;
        }
        subY := 0;
      }
    }

    // ----- line drawing -----

    /** Draws column x of the window; -1 and no change when x is not a column of the window. */
    method DrawVertLine(x: int) returns (result: int)
      requires Valid()
      modifies screen.build
      ensures Valid()
      ensures result == (if 0 <= x < SCROLL_X_DIM then 0 else -1)
      ensures forall x', y' :: InWindow(screen.showX, screen.showY, x', y') ==>
                screen.Pixel(x', y') == if x' == screen.showX + x then Map(x', y') else old(screen.Pixel(x', y'))
    {
      if x < 0 || x >= SCROLL_X_DIM {
        return -1;
      }
      var buf := new Byte[SCROLL_Y_DIM];
      FillVertBuffer(x + screen.showX, screen.showY, buf);
      screen.StoreVertLine(x, buf[..]);
      result := 0;
    }

    /** Draws row y of the window; -1 and no change when y is not a row of the window. */
    method DrawHorizLine(y: int) returns (result: int)
      requires Valid()
      modifies screen.build
      ensures Valid()
      ensures result == (if 0 <= y < SCROLL_Y_DIM then 0 else -1)
      ensures forall x', y' :: InWindow(screen.showX, screen.showY, x', y') ==>
                screen.Pixel(x', y') == if y' == screen.showY + y then Map(x', y') else old(screen.Pixel(x', y'))
    {
      if y < 0 || y >= SCROLL_Y_DIM {
        return -1;
      }
      var buf := new Byte[SCROLL_X_DIM];
      FillHorizBuffer(screen.showX, y + screen.showY, buf);
      screen.StoreHorizLine(y, buf[..]);
      result := 0;
    }

    /** show_screen: with picture and maze in agreement, video memory receives the picture of the maze. */
    method Show(vga: array2<Byte>)
      requires Valid() && Agree() && vga.Length0 == 4 && vga.Length1 == PLANE_BYTES
      modifies vga
      ensures forall i, r, k :: 0 <= i < 4 && 0 <= r < SCROLL_Y_DIM && 0 <= k < SCROLL_X_WIDTH ==>
                ShowsMap(vga, i, r, k)
    {
      screen.ShowScreen(vga);
      forall i, r, k | 0 <= i < 4 && 0 <= r < SCROLL_Y_DIM && 0 <= k < SCROLL_X_WIDTH ensures ShowsMap(vga, i, r, k) {
        assert screen.Shows(vga, i, r, k);
        assert InWindow(screen.showX, screen.showY, screen.showX + 4 * k + i, screen.showY + r);
      }
    }

    /** Byte 80 * r + k of the image in plane i is what find_block gives for that screen position. */
    ghost predicate ShowsMap(vga: array2<Byte>, i: int, r: int, k: int)
      requires Valid() && vga.Length0 == 4 && vga.Length1 == PLANE_BYTES
      requires 0 <= i < 4 && 0 <= r < SCROLL_Y_DIM && 0 <= k < SCROLL_X_WIDTH
      reads this, maze, maze.maze, screen, screen.build, vga
    {
      vga[i, TARGET_IMG + 80 * r + k] == Map(screen.showX + 4 * k + i, screen.showY + r)
    }

    // ----- operations that keep the agreement -----

    /** First picture of a level: the view is set and every line is drawn, whatever the buffer held. */
    method Setup(x: int, y: int)
      requires screen.Valid() && screen.FencesIntact() && ValidBlocks(blocks) && maze.maze.Length == MAZE_LEN
      requires Playable(maze.dims, maze.maze[..], maze.nFruits, maze.exitX, maze.exitY)
      requires WindowOnMap(maze.dims, x, y)
      modifies screen`img3Off, screen`showX, screen`showY, screen.build
      ensures Valid() && Agree() && screen.showX == x && screen.showY == y
    {
      screen.SetViewWindow(x, y);
      for i := 0 to SCROLL_Y_DIM
        invariant Valid() && screen.showX == x && screen.showY == y
        invariant forall x', y' :: InWindow(x, y, x', y') && y' < y + i ==> screen.Pixel(x', y') == Map(x', y')
      {
        var _ := DrawHorizLine(i);
      }
    }

    /** A pan by one pixel: the window moves and the one line that comes into view is drawn. */
    method Pan(dx: int, dy: int)
      requires Valid() && Agree()
      requires dx in {-1, 0, 1} && dy in {-1, 0, 1} && (dx == 0) != (dy == 0)
      requires WindowOnMap(maze.dims, screen.showX + dx, screen.showY + dy)
      modifies screen`img3Off, screen`showX, screen`showY, screen.build
      ensures Valid() && Agree()
      ensures screen.showX == old(screen.showX) + dx && screen.showY == old(screen.showY) + dy
    {
      screen.SetViewWindow(screen.showX + dx, screen.showY + dy);
      if dy == 0 {
        var _ := DrawVertLine(if dx < 0 then 0 else SCROLL_X_DIM - 1);
      } else {
        var _ := DrawHorizLine(if dy < 0 then 0 else SCROLL_Y_DIM - 1);
      }
    }

    /** Every pixel of the window is right, except perhaps in the positions of `stale`. */
    ghost predicate AgreesBut(stale: set<(int, int)>)
      requires Valid()
      reads this, maze, maze.maze, screen, screen.build
    {
      forall x, y :: InWindow(screen.showX, screen.showY, x, y) && (x / 12, y / 12) !in stale ==>
          screen.Pixel(x, y) == Map(x, y)
    }

    /** Draws the picture that find_block gives for the lattice position (x,y). */
    method DrawCell(x: int, y: int, ghost stale: set<(int, int)>)
      requires Valid() && Displayed(maze.dims, x, y) && AgreesBut(stale)
      modifies screen.build
      ensures Valid() && AgreesBut(stale - {(x, y)})
    {
      ghost var block := blocks[FindBlock(maze.dims, maze.maze[..], maze.nFruits, x, y)];
      screen.DrawFullBlock(x * BLOCK_X_DIM, y * BLOCK_Y_DIM,
                           blocks[FindBlock(maze.dims, maze.maze[..], maze.nFruits, x, y)]);
      forall x', y' | InWindow(screen.showX, screen.showY, x', y') && (x' / 12, y' / 12) !in stale - {(x, y)}
        ensures screen.Pixel(x', y') == Map(x', y')
      {
        PixelInBlock(x, y, x', y');
        if (x' / 12, y' / 12) == (x, y) {
          assert Map(x', y') == block[y' % 12 * 12 + x' % 12];
        } else {
          assert (x' / 12, y' / 12) !in stale;
        }
      }
    }

    /** Sets the mark of the cell at a displayed position. */
    method MarkSeen(x: int, y: int)
      requires Valid() && Agree() && AliasHidden(maze.dims, screen.showX, x) && Displayed(maze.dims, x, y)
      modifies maze.maze
      ensures Valid() && AgreesBut({(x, y)})
      ensures Unveiled(maze.dims, old(maze.maze[..]), maze.maze[..], x, y)
    {
      IndexInRange(maze.dims, x, y);
      var cur := maze.dims.MazeIndex(x, y);
      ghost var g := maze.maze[..];
      ghost var g' := g[cur := g[cur].(reach := true)];
      ReachKeepsPlayable(maze.dims, g, g', cur, maze.nFruits, maze.exitX, maze.exitY);
      OthersUnchanged(blocks, maze.dims, g, g', maze.nFruits, screen.showX, screen.showY, x, y);
      maze.maze[cur] := maze.maze[cur].(reach := true);
      assert maze.maze[..] == g';
    }

    /**
      Unveils the lattice position (x,y).  The picture stays right although a border cell is displayed
      in two places, because the other place is out of view.
    */
    method UnveilSpace(x: int, y: int)
      requires Valid() && Agree() && AliasHidden(maze.dims, screen.showX, x)
      modifies maze.maze, screen.build
      ensures Valid() && Agree()
      ensures Unveiled(maze.dims, old(maze.maze[..]), maze.maze[..], x, y)
      ensures SameWalls(old(maze.maze[..]), maze.maze[..])
    {
      if x < 0 || x > 2 * maze.dims.xd || y < 0 || y > 2 * maze.dims.yd {
        return;
      }
      IndexInRange(maze.dims, x, y);
      if maze.maze[maze.dims.MazeIndex(x, y)].reach {
        return;
      }
      MarkSeen(x, y);
      DrawCell(x, y, {(x, y)});
    }

    /** Takes the fruit at (x,y) out of the maze and counts it. */
    method TakeFruit(x: int, y: int)
      requires Valid() && Agree() && InFruitRange(maze.dims, x, y)
      requires FruitAt(maze.dims, maze.maze[..], x, y) != 0
      modifies maze.maze, maze`nFruits
      ensures Valid() && AgreesBut(if maze.nFruits == 0 then {(x, y), (maze.exitX, maze.exitY)} else {(x, y)})
      ensures Eaten(maze.dims, old(maze.maze[..]), maze.maze[..], x, y) && maze.nFruits == old(maze.nFruits) - 1
    {
      IndexInRange(maze.dims, x, y);
      var n := maze.dims.MazeIndex(x, y);
      ghost var g := maze.maze[..];
      ghost var g' := g[n := g[n].(fruit := 0)];
      EatingKeepsPlayable(maze.dims, g, g', x, y, maze.nFruits, maze.exitX, maze.exitY);
      FruitChange(blocks, maze.dims, g, g', maze.nFruits, maze.nFruits - 1, screen.showX, screen.showY, x, y,
          maze.exitX, maze.exitY);
      maze.maze[n] := maze.maze[n].(fruit := 0);
      maze.nFruits := maze.nFruits - 1;
      assert maze.maze[..] == g';
    }

    /** Eats the fruit at (x,y), if there is one, and returns its number, or 0. */
    method CheckForFruit(x: int, y: int) returns (fnum: int)
      requires Valid() && Agree()
      modifies maze.maze, maze`nFruits, screen.build
      ensures Valid() && Agree()
      ensures fnum == if InFruitRange(maze.dims, x, y) then FruitAt(maze.dims, old(maze.maze[..]), x, y) else 0
      ensures fnum == 0 ==> maze.maze[..] == old(maze.maze[..]) && maze.nFruits == old(maze.nFruits)
      ensures fnum != 0 ==> Eaten(maze.dims, old(maze.maze[..]), maze.maze[..], x, y)
      ensures fnum != 0 ==> maze.nFruits == old(maze.nFruits) - 1
      ensures SameWalls(old(maze.maze[..]), maze.maze[..])
    {
      if x < 0 || x >= 2 * maze.dims.xd || y < 0 || y >= 2 * maze.dims.yd {
        return 0;
      }
      IndexInRange(maze.dims, x, y);
      fnum := maze.maze[maze.dims.MazeIndex(x, y)].fruit;
      if fnum != 0 {
        TakeFruit(x, y);
        if maze.nFruits == 0 {
          DrawCell(maze.exitX, maze.exitY, {(x, y), (maze.exitX, maze.exitY)});
          DrawCell(x, y, {(x, y), (maze.exitX, maze.exitY)} - {(maze.exitX, maze.exitY)});
        } else {
          DrawCell(x, y, {(x, y)});
        }
      }
    }

    /** Unveils (x,y) as one of several positions; `seen` are those unveiled since grid g. */
    method UnveilOne(x: int, y: int, ghost g: Grid, ghost seen: set<(int, int)>)
      requires Valid() && Agree() && AliasHidden(maze.dims, screen.showX, x)
      requires |g| == MAZE_LEN && MarkedBy(g, maze.maze[..], Cells(maze.dims, seen))
      modifies maze.maze, screen.build
      ensures Valid() && Agree()
      ensures MarkedBy(g, maze.maze[..], Cells(maze.dims, seen + {(x, y)}))
    {
      ghost var g1 := maze.maze[..];
      UnveilSpace(x, y);
      OneMoreSeen(maze.dims, g, g1, maze.maze[..], seen, x, y);
    }

    /** The inner loop of unveil_around_player: column x + i. */
    method UnveilColumn(x: int, y: int, i: int, ghost g: Grid)
      requires Valid() && Agree() && -1 <= i <= 1 && AliasHidden(maze.dims, screen.showX, x + i)
      requires |g| == MAZE_LEN && MarkedBy(g, maze.maze[..], Cells(maze.dims, SquaresBefore(x, y, i, -1)))
      modifies maze.maze, screen.build
      ensures Valid() && Agree()
      ensures MarkedBy(g, maze.maze[..], Cells(maze.dims, SquaresBefore(x, y, i + 1, -1)))
    {
      for j := -1 to 2
        invariant Valid() && Agree()
        invariant MarkedBy(g, maze.maze[..], Cells(maze.dims, SquaresBefore(x, y, i, j)))
      {
        UnveilOne(x + i, y + j, g, SquaresBefore(x, y, i, j));
        NextSquare(x, y, i, j);
      }
      NextColumn(x, y, i);
    }

    /** Unveils the squares next to (x,y) and those two steps away in a straight line, and no others. */
    method UnveilAround(x: int, y: int)
      requires Valid() && Agree() && AliasesHidden(maze.dims, screen.showX, x)
      modifies maze.maze, screen.build
      ensures Valid() && Agree()
      ensures MarkedBy(old(maze.maze[..]), maze.maze[..], Cells(maze.dims, Surroundings(x, y)))
      ensures forall a, b :: Near(x, y, a, b) && Displayed(maze.dims, a, b) ==>
                !Mist(FindBlock(maze.dims, maze.maze[..], maze.nFruits, a, b))
    {
      ghost var g := maze.maze[..];
      NoCells(maze.dims, g, x, y);
      for i := -1 to 2
        invariant Valid() && Agree()
        invariant MarkedBy(g, maze.maze[..], Cells(maze.dims, SquaresBefore(x, y, i, -1)))
      {
        UnveilColumn(x, y, i, g);
      }
      AllSurroundings(x, y);
      UnveilStraight(x, y, g, SquaresBefore(x, y, 2, -1));
      MistLifts(maze.dims, g, maze.maze[..], maze.nFruits, x, y);
    }

    /** The four squares two steps away. */
    method UnveilStraight(x: int, y: int, ghost g: Grid, ghost seen: set<(int, int)>)
      requires Valid() && Agree() && AliasesHidden(maze.dims, screen.showX, x)
      requires |g| == MAZE_LEN && MarkedBy(g, maze.maze[..], Cells(maze.dims, seen))
      modifies maze.maze, screen.build
      ensures Valid() && Agree()
      ensures var straight := seen + {(x, y - 2)} + {(x + 2, y)} + {(x, y + 2)} + {(x - 2, y)};
              MarkedBy(g, maze.maze[..], Cells(maze.dims, straight))
    {
      UnveilOne(x, y - 2, g, seen);
      UnveilOne(x + 2, y, g, seen + {(x, y - 2)});
      UnveilOne(x, y + 2, g, seen + {(x, y - 2)} + {(x + 2, y)});
      UnveilOne(x - 2, y, g, seen + {(x, y - 2)} + {(x + 2, y)} + {(x, y + 2)});
    }

    /** The level is won exactly at the exit, once the last fruit has been eaten. */
    method CheckForWin(x: int, y: int) returns (win: bool)
      requires Valid()
      ensures win <==> maze.nFruits == 0 && x == maze.exitX && y == maze.exitY
    {
      if x < 0 || x >= 2 * maze.dims.xd || y < 0 || y >= 2 * maze.dims.yd {
        return false;
      }
      IndexInRange(maze.dims, x, y);
      ExitIsUnique(maze.dims, x, y, maze.exitX, maze.exitY);
      win := maze.nFruits == 0 && maze.maze[maze.dims.MazeIndex(x, y)].exit;
    }

    /** Puts a fruit somewhere, where the buffer does not show it yet. */
    method PlaceFruit(f: Fruit) returns (x: int, y: int)
      requires Valid() && Agree() && f != 0 && maze.nFruits < maze.dims.xd * maze.dims.yd
      modifies maze.maze, maze`nFruits
      ensures Valid() && InFruitRange(maze.dims, x, y) && maze.nFruits == old(maze.nFruits) + 1
      ensures AgreesBut(if maze.nFruits == 1 then {(x, y), (maze.exitX, maze.exitY)} else {(x, y)})
      ensures OddIn(maze.dims, x, y) && FruitAt(maze.dims, old(maze.maze[..]), x, y) == 0
      ensures Fruited(maze.dims, old(maze.maze[..]), maze.maze[..], x, y, f)
    {
      ghost var g := maze.maze[..];
      x, y := maze.AddAFruitInternal(f);
      OddPoint(maze.dims, x, y);
      AddingKeepsPlayable(maze.dims, g, maze.maze[..], x, y, f, maze.nFruits - 1, maze.exitX, maze.exitY);
      FruitChange(blocks, maze.dims, g, maze.maze[..], maze.nFruits - 1, maze.nFruits, screen.showX, screen.showY,
          x, y, maze.exitX, maze.exitY);
    }

    /**
      Adds a fruit at a lattice point (x,y) that had none and draws it; the exit disappears with the
      first one.
    */
    method AddAFruit(f: Fruit) returns (count: int, ghost x: int, ghost y: int)
      requires Valid() && Agree() && f != 0 && maze.nFruits < maze.dims.xd * maze.dims.yd
      modifies maze.maze, maze`nFruits, screen.build
      ensures Valid() && Agree()
      ensures count == maze.nFruits == old(maze.nFruits) + 1
      ensures OddIn(maze.dims, x, y) && FruitAt(maze.dims, old(maze.maze[..]), x, y) == 0
      ensures Fruited(maze.dims, old(maze.maze[..]), maze.maze[..], x, y, f)
    {
      var fx, fy := PlaceFruit(f);
      x, y := fx, fy;
      ghost var stale := if maze.nFruits == 1 then {(x, y), (maze.exitX, maze.exitY)} else {(x, y)};
      DrawCell(fx, fy, stale);
      if maze.nFruits == 1 {
        DrawCell(maze.exitX, maze.exitY, stale - {(x, y)});
        assert stale - {(x, y)} - {(maze.exitX, maze.exitY)} == {};
      }
      count := maze.nFruits;
    }
  }

  lemma PixelInBlock(x: int, y: int, x': int, y': int)
    ensures InBlock(x * BLOCK_X_DIM, y * BLOCK_Y_DIM, x', y') <==> (x' / 12, y' / 12) == (x, y)
    ensures InBlock(x * BLOCK_X_DIM, y * BLOCK_Y_DIM, x', y') ==>
              (y' - y * BLOCK_Y_DIM) * 12 + (x' - x * BLOCK_X_DIM) == y' % 12 * 12 + x' % 12
  {
  }

  predicate AliasesHidden(d: Dims, sx: int, x: int) {
    && AliasHidden(d, sx, x - 2) && AliasHidden(d, sx, x - 1) && AliasHidden(d, sx, x)
    && AliasHidden(d, sx, x + 1) && AliasHidden(d, sx, x + 2)
  }

  /** The nine squares around (x,y), up to offset (i,j) column by column. */
  ghost function SquaresBefore(x: int, y: int, i: int, j: int): set<(int, int)> {
    set a, b | x - 1 <= a <= x + 1 && y - 1 <= b <= y + 1 && (a < x + i || (a == x + i && b < y + j)) :: (a, b)
  }

  /** The squares that a player on (x,y) sees. */
  ghost function Surroundings(x: int, y: int): set<(int, int)> {
    (set a, b | x - 1 <= a <= x + 1 && y - 1 <= b <= y + 1 :: (a, b)) + {(x, y - 2), (x + 2, y), (x, y + 2), (x - 2, y)}
  }

  /** Two steps away or less. */
  predicate Near(x: int, y: int, a: int, b: int) {
    -2 <= (a - x) + (b - y) <= 2 && -2 <= (a - x) - (b - y) <= 2
  }

  /** The thirteen squares that a player sees are those two steps away or less. */
  lemma SeesTwoSteps(x: int, y: int)
    ensures forall a, b :: (a, b) in Surroundings(x, y) <==> Near(x, y, a, b)
  {
  }

  /** After looking around there is no mist two steps away or less, and the rest of the maze is as it was. */
  lemma MistLifts(d: Dims, g: Grid, g': Grid, nFruits: int, x: int, y: int)
    requires d.Valid() && |g| == MAZE_LEN && MarkedBy(g, g', Cells(d, Surroundings(x, y)))
    ensures forall a, b :: Near(x, y, a, b) && Displayed(d, a, b) ==> !Mist(FindBlock(d, g', nFruits, a, b))
    ensures forall n :: 0 <= n < |g| && g'[n] != g[n] ==> g'[n] == g[n].(reach := true)
    ensures forall n :: 0 <= n < |g| && g'[n] != g[n] ==>
              exists a, b :: Near(x, y, a, b) && Displayed(d, a, b) && n == d.MazeIndex(a, b)
  {
    SeesTwoSteps(x, y);
    forall a, b | Near(x, y, a, b) && Displayed(d, a, b) ensures !Mist(FindBlock(d, g', nFruits, a, b)) {
      IndexInRange(d, a, b);
      assert (a, b) in Surroundings(x, y);
      assert d.MazeIndex((a, b).0, (a, b).1) in Cells(d, Surroundings(x, y));
    }
    forall n | 0 <= n < |g| && g'[n] != g[n]
      ensures exists a, b :: Near(x, y, a, b) && Displayed(d, a, b) && n == d.MazeIndex(a, b)
    {
      var p :| p in Surroundings(x, y) && Displayed(d, p.0, p.1) && d.MazeIndex(p.0, p.1) == n;
      assert (p.0, p.1) in Surroundings(x, y);
    }
  }

  lemma OneMoreSeen(d: Dims, g: Grid, g1: Grid, g2: Grid, seen: set<(int, int)>, x: int, y: int)
    requires d.Valid() && |g| == |g1| == MAZE_LEN && MarkedBy(g, g1, Cells(d, seen)) && Unveiled(d, g1, g2, x, y)
    ensures MarkedBy(g, g2, Cells(d, seen + {(x, y)}))
  {
    IndexInRangeIf(d, x, y);
    assert Cells(d, seen + {(x, y)}) == Cells(d, seen) + if Displayed(d, x, y) then {d.MazeIndex(x, y)} else {};
  }

  lemma IndexInRangeIf(d: Dims, x: int, y: int)
    requires d.Valid()
    ensures Displayed(d, x, y) ==> 0 <= d.MazeIndex(x, y) < MAZE_LEN
  {
    if Displayed(d, x, y) { IndexInRange(d, x, y); }
  }

  lemma NextSquare(x: int, y: int, i: int, j: int)
    requires -1 <= i <= 1 && -1 <= j <= 1
    ensures SquaresBefore(x, y, i, j) + {(x + i, y + j)} == SquaresBefore(x, y, i, j + 1)
  {
  }

  lemma NextColumn(x: int, y: int, i: int)
    ensures SquaresBefore(x, y, i, 2) == SquaresBefore(x, y, i + 1, -1)
  {
  }

  lemma NoCells(d: Dims, g: Grid, x: int, y: int)
    ensures MarkedBy(g, g, Cells(d, SquaresBefore(x, y, -1, -1)))
  {
    assert SquaresBefore(x, y, -1, -1) == {};
  }

  lemma AllSurroundings(x: int, y: int)
    ensures SquaresBefore(x, y, 2, -1) + {(x, y - 2)} + {(x + 2, y)} + {(x, y + 2)} + {(x - 2, y)} == Surroundings(x, y)
  {
  }

  /** The cells of the displayed positions of s. */
  ghost function Cells(d: Dims, s: set<(int, int)>): set<int> {
    set p | p in s && Displayed(d, p.0, p.1) :: d.MazeIndex(p.0, p.1)
  }

  predicate InFruitRange(d: Dims, x: int, y: int) { 0 <= x < 2 * d.xd && 0 <= y < 2 * d.yd }

  function FruitAt(d: Dims, g: Grid, x: int, y: int): Fruit
    requires d.Valid() && |g| == MAZE_LEN && InFruitRange(d, x, y)
  {
    IndexInRange(d, x, y);
    g[d.MazeIndex(x, y)].fruit
  }

  /** Fruit f is at (x,y); nothing else has changed. */
  ghost predicate Fruited(d: Dims, g: Grid, g': Grid, x: int, y: int, f: Fruit)
    requires d.Valid() && |g| == MAZE_LEN && InFruitRange(d, x, y)
  {
    IndexInRange(d, x, y);
    g' == g[d.MazeIndex(x, y) := g[d.MazeIndex(x, y)].(fruit := f)]
  }

  /** The fruit at (x,y) is gone; nothing else has changed. */
  ghost predicate Eaten(d: Dims, g: Grid, g': Grid, x: int, y: int)
    requires d.Valid() && |g| == MAZE_LEN && InFruitRange(d, x, y)
  {
    IndexInRange(d, x, y);
    g' == g[d.MazeIndex(x, y) := g[d.MazeIndex(x, y)].(fruit := 0)]
  }

  /** The cell of (x,y), if that is a displayed position, has been seen; nothing else has changed. */
  ghost predicate Unveiled(d: Dims, g: Grid, g': Grid, x: int, y: int)
    requires d.Valid() && |g| == MAZE_LEN
  {
    if Displayed(d, x, y) then
      IndexInRange(d, x, y);
      g' == g[d.MazeIndex(x, y) := g[d.MazeIndex(x, y)].(reach := true)]
    else g' == g
  }

  /** In the window at (sx,sy), only the pictures of the positions in s may differ. */
  ghost predicate SamePictureBut(blocks: Blocks, d: Dims, g: Grid, m: int, g': Grid, m': int, sx: int, sy: int,
      s: set<(int, int)>)
    requires d.Valid() && |g| == |g'| == MAZE_LEN && ValidBlocks(blocks) && WindowOnMap(d, sx, sy)
  {
    forall x', y' :: InWindow(sx, sy, x', y') && (x' / 12, y' / 12) !in s ==>
      MapPixel(blocks, d, g', m', x', y') == MapPixel(blocks, d, g, m, x', y')
  }

  lemma ReachKeepsPlayable(d: Dims, g: Grid, g': Grid, n: int, nFruits: int, exitX: int, exitY: int)
    requires Playable(d, g, nFruits, exitX, exitY) && 0 <= n < |g| && g' == g[n := g[n].(reach := true)]
    ensures Playable(d, g', nFruits, exitX, exitY)
  {
    assert Fruits(g') == Fruits(g);
    assert Walled(d.Points(), g') == Walled(d.Points(), g);
  }

  lemma EatingKeepsPlayable(d: Dims, g: Grid, g': Grid, x: int, y: int, nFruits: int, exitX: int, exitY: int)
    requires Playable(d, g, nFruits, exitX, exitY) && InFruitRange(d, x, y) && 0 <= d.MazeIndex(x, y) < |g|
    requires g[d.MazeIndex(x, y)].fruit != 0 && g' == g[d.MazeIndex(x, y) := g[d.MazeIndex(x, y)].(fruit := 0)]
    ensures Playable(d, g', nFruits - 1, exitX, exitY)
    ensures 0 < x && 0 < y
  {
    FruitRemoved(g, d.MazeIndex(x, y));
    assert Walled(d.Points(), g') == Walled(d.Points(), g);
    assert d.MazeIndex(x, y) in d.Points();
    PointPosition(d, x, y);
  }

  lemma AddingKeepsPlayable(d: Dims, g: Grid, g': Grid, x: int, y: int, f: Fruit, nFruits: int, exitX: int, exitY: int)
    requires Playable(d, g, nFruits, exitX, exitY) && OddIn(d, x, y) && 0 <= d.MazeIndex(x, y) < |g|
    requires g[d.MazeIndex(x, y)].fruit == 0 && f != 0
    requires g' == g[d.MazeIndex(x, y) := g[d.MazeIndex(x, y)].(fruit := f)]
    ensures Playable(d, g', nFruits + 1, exitX, exitY)
  {
    FruitAdded(g, d.MazeIndex(x, y), f);
    assert Walled(d.Points(), g') == Walled(d.Points(), g);
    OddPoint(d, x, y);
  }

  /** Only (odd,odd) positions show a lattice point. */
  lemma PointPosition(d: Dims, x: int, y: int)
    requires d.Valid() && 0 <= x < 2 * d.xd && 0 <= y && d.MazeIndex(x, y) in d.Points()
    ensures 0 < x && 0 < y
  {
    var i, j :| 0 <= i < d.xd && 0 <= j < d.yd && d.MazeIndex(x, y) == d.Point(i, j);
    IndexInjective(d, x, y, 2 * i + 1, 2 * j + 1);
  }

  lemma ExitIsUnique(d: Dims, x: int, y: int, exitX: int, exitY: int)
    requires d.Valid() && InFruitRange(d, x, y) && OddIn(d, exitX, exitY)
    ensures d.MazeIndex(x, y) == d.MazeIndex(exitX, exitY) <==> x == exitX && y == exitY
  {
    if d.MazeIndex(x, y) == d.MazeIndex(exitX, exitY) { IndexInjective(d, x, y, exitX, exitY); }
  }

  /** A change of fruit, exit or mark at (x,y) leaves the rest of the window's picture alone. */
  lemma OthersUnchanged(blocks: Blocks, d: Dims, g: Grid, g': Grid, nFruits: int, sx: int, sy: int, x: int, y: int)
    requires d.Valid() && |g| == |g'| == MAZE_LEN && ValidBlocks(blocks) && WindowOnMap(d, sx, sy)
    requires Displayed(d, x, y) && AliasHidden(d, sx, x)
    requires 0 <= d.MazeIndex(x, y) < |g| && g' == g[d.MazeIndex(x, y) := g'[d.MazeIndex(x, y)]]
    requires g'[d.MazeIndex(x, y)].wall == g[d.MazeIndex(x, y)].wall
    ensures SamePictureBut(blocks, d, g, nFruits, g', nFruits, sx, sy, {(x, y)})
  {
    forall x', y' | InWindow(sx, sy, x', y') && (x' / 12, y' / 12) !in {(x, y)}
      ensures MapPixel(blocks, d, g', nFruits, x', y') == MapPixel(blocks, d, g, nFruits, x', y')
    {
      if d.MazeIndex(x' / 12, y' / 12) == d.MazeIndex(x, y) {
        IndexInjective(d, x, y, x' / 12, y' / 12);
        assert false;
      }
      OneCellChanged(d, g, g', d.MazeIndex(x, y), nFruits, x' / 12, y' / 12);
    }
  }

  /** When a fruit comes or goes, its own position changes, and the exit with the last or first fruit. */
  lemma FruitChange(blocks: Blocks, d: Dims, g: Grid, g': Grid, m: int, m': int, sx: int, sy: int,
                    x: int, y: int, exitX: int, exitY: int)
    requires Playable(d, g, m, exitX, exitY) && ValidBlocks(blocks) && WindowOnMap(d, sx, sy)
    requires 0 < x < 2 * d.xd && 0 < y < 2 * d.yd
    requires 0 <= d.MazeIndex(x, y) < |g| == |g'| && (m' == m - 1 || m' == m + 1) && 0 <= m'
    requires g' == g[d.MazeIndex(x, y) := g[d.MazeIndex(x, y)].(fruit := g'[d.MazeIndex(x, y)].fruit)]
    ensures SamePictureBut(blocks, d, g, m, g', m', sx, sy, if m == 0 || m' == 0 then {(x, y), (exitX, exitY)}
              else {(x, y)})
  {
    OthersUnchanged(blocks, d, g, g', m, sx, sy, x, y);
    assert forall n :: 0 <= n < |g'| ==> g'[n].exit == g[n].exit;
    CountChange(blocks, d, g', m, m', sx, sy, exitX, exitY);
    var exit := if m == 0 || m' == 0 then {(exitX, exitY)} else {};
    ChangesAddUp(blocks, d, g, m, g', m, g', m', sx, sy, {(x, y)}, exit);
    assert {(x, y)} + exit == if m == 0 || m' == 0 then {(x, y), (exitX, exitY)} else {(x, y)};
  }

  lemma ChangesAddUp(blocks: Blocks, d: Dims, g: Grid, m: int, g': Grid, m': int, g'': Grid, m'': int, sx: int, sy: int,
                     s: set<(int, int)>, t: set<(int, int)>)
    requires d.Valid() && |g| == |g'| == |g''| == MAZE_LEN && ValidBlocks(blocks) && WindowOnMap(d, sx, sy)
    requires SamePictureBut(blocks, d, g, m, g', m', sx, sy, s)
    requires SamePictureBut(blocks, d, g', m', g'', m'', sx, sy, t)
    ensures SamePictureBut(blocks, d, g, m, g'', m'', sx, sy, s + t)
  {
  }

  /** A new number of fruits changes at most the picture of the exit. */
  lemma CountChange(blocks: Blocks, d: Dims, g: Grid, m: int, m': int, sx: int, sy: int, exitX: int, exitY: int)
    requires d.Valid() && |g| == MAZE_LEN && OddIn(d, exitX, exitY)
    requires forall n :: 0 <= n < |g| && g[n].exit ==> n == d.MazeIndex(exitX, exitY)
    requires ValidBlocks(blocks) && WindowOnMap(d, sx, sy)
    ensures SamePictureBut(blocks, d, g, m, g, m', sx, sy, if m == 0 || m' == 0 then {(exitX, exitY)} else {})
  {
    var s := if m == 0 || m' == 0 then {(exitX, exitY)} else {};
    forall x', y' | InWindow(sx, sy, x', y') && (x' / 12, y' / 12) !in s
      ensures MapPixel(blocks, d, g, m', x', y') == MapPixel(blocks, d, g, m, x', y')
    {
      if m == 0 || m' == 0 {
        NotTheExit(d, x' / 12, y' / 12, exitX, exitY);
        IndexInRange(d, x' / 12, y' / 12);
      }
      CountChanged(d, g, m, m', x' / 12, y' / 12);
    }
  }

  lemma NotTheExit(d: Dims, x: int, y: int, exitX: int, exitY: int)
    requires d.Valid() && Displayed(d, x, y) && OddIn(d, exitX, exitY) && (x, y) != (exitX, exitY)
    ensures d.MazeIndex(x, y) != d.MazeIndex(exitX, exitY)
  {
    if d.MazeIndex(x, y) == d.MazeIndex(exitX, exitY) { IndexInjective(d, exitX, exitY, x, y); }
  }
}
