/** The picture of a maze: find_block of mp2/maze.c and the map pixel it gives. */
module MazeImage {
  import opened MazeLattice
  import opened MazePlay
  import opened Bytes
  import opened ModeX

  const BLOCK_EMPTY := 16
  const BLOCK_SHADOW := 17
  const BLOCK_FRUIT_1 := 26
  const BLOCK_FRUIT_SHADOW := 33
  const BLOCK_EXIT := 34
  const NUM_BLOCKS := 35

  /** Block pictures, 12x12 bytes each; their contents play no role. */
  type Blocks = seq<seq<Byte>>

  ghost predicate ValidBlocks(blocks: Blocks) {
    |blocks| == NUM_BLOCKS && forall k :: 0 <= k < NUM_BLOCKS ==> |blocks[k]| == BLOCK_X_DIM * BLOCK_Y_DIM
  }

  /** Lattice positions that appear in the picture; column 2 * xd is the right border. */
  predicate Displayed(d: Dims, x: int, y: int) { 0 <= x <= 2 * d.xd && 0 <= y <= 2 * d.yd }

  predicate OnMap(d: Dims, x: int, y: int) {
    0 <= x < (2 * d.xd + 1) * BLOCK_X_DIM && 0 <= y < (2 * d.yd + 1) * BLOCK_Y_DIM
  }

  predicate WindowOnMap(d: Dims, sx: int, sy: int) {
    OnMap(d, sx, sy) && OnMap(d, sx + SCROLL_X_DIM - 1, sy + SCROLL_Y_DIM - 1)
  }

  function WallBit(g: Grid, n: int, bit: int): int
    requires 0 <= n < |g|
  {
    if g[n].wall then bit else 0
  }

  lemma StencilInRange(d: Dims, x: int, y: int)
    requires d.Valid() && Displayed(d, x, y)
    ensures 0 <= d.MazeIndex(x, y) < MAZE_LEN
    ensures 0 <= d.MazeIndex(x, y - 1) < MAZE_LEN && 0 <= d.MazeIndex(x + 1, y) < MAZE_LEN
    ensures 0 <= d.MazeIndex(x, y + 1) < MAZE_LEN && 0 <= d.MazeIndex(x - 1, y) < MAZE_LEN
  {
    IndexInRange(d, x, y);
    IndexInRange(d, x, y - 1);
    IndexInRange(d, x + 1, y);
    IndexInRange(d, x, y + 1);
    IndexInRange(d, x - 1, y);
  }

  /** The wall picture of a position: one bit for each neighbour that is a wall too. */
  function WallPattern(d: Dims, g: Grid, x: int, y: int): (k: int)
    requires d.Valid() && |g| == MAZE_LEN && Displayed(d, x, y)
    ensures 0 <= k < 16
  {
    StencilInRange(d, x, y);
    WallBit(g, d.MazeIndex(x, y - 1), 1) + WallBit(g, d.MazeIndex(x + 1, y), 2)
    + WallBit(g, d.MazeIndex(x, y + 1), 4) + WallBit(g, d.MazeIndex(x - 1, y), 8)
  }

  function FindBlock(d: Dims, g: Grid, nFruits: int, x: int, y: int): (k: int)
    requires d.Valid() && |g| == MAZE_LEN && Displayed(d, x, y)
    ensures 0 <= k < NUM_BLOCKS
  {
    IndexInRange(d, x, y);
    var c := g[d.MazeIndex(x, y)];
    if nFruits == 0 && c.exit then BLOCK_EXIT
    else if !c.reach then (if c.fruit != 0 then BLOCK_FRUIT_SHADOW else BLOCK_SHADOW)
    else if c.fruit != 0 then BLOCK_FRUIT_1 + c.fruit - 1
    else if !c.wall then BLOCK_EMPTY
    else WallPattern(d, g, x, y)
  }

  /** The colour of map pixel (x,y). */
  function MapPixel(blocks: Blocks, d: Dims, g: Grid, nFruits: int, x: int, y: int): Byte
    requires ValidBlocks(blocks) && d.Valid() && |g| == MAZE_LEN && OnMap(d, x, y)
  {
    blocks[FindBlock(d, g, nFruits, x / 12, y / 12)][y % 12 * 12 + x % 12]
  }

  // ----- what the picture shows -----

  predicate Mist(k: int) { k == BLOCK_SHADOW || k == BLOCK_FRUIT_SHADOW }

  /**
    The exit shows once the last fruit is gone.  Everything else is in mist until it has been seen, walls
    and floor alike, with a bump where a fruit is; after that floor is plain and a wall is a wall.
  */
  lemma PictureShowsCell(d: Dims, g: Grid, nFruits: int, x: int, y: int, c: Cell)
    requires d.Valid() && |g| == MAZE_LEN && Displayed(d, x, y)
    requires 0 <= d.MazeIndex(x, y) < |g| && g[d.MazeIndex(x, y)] == c
    ensures var k := FindBlock(d, g, nFruits, x, y);
            && (k == BLOCK_EXIT <==> nFruits == 0 && c.exit)
            && (k != BLOCK_EXIT ==> (Mist(k) <==> !c.reach))
            && (Mist(k) ==> (k == BLOCK_FRUIT_SHADOW <==> c.fruit != 0))
            && (k != BLOCK_EXIT && c.reach ==>
                  && (0 <= k < 16 <==> c.wall && c.fruit == 0)
                  && (k == BLOCK_EMPTY <==> !c.wall && c.fruit == 0))
  {
  }

  /** The wall picture says which of the four neighbours are walls. */
  lemma WallPictureShowsNeighbours(d: Dims, g: Grid, nFruits: int, x: int, y: int)
    requires d.Valid() && |g| == MAZE_LEN && Displayed(d, x, y) && FindBlock(d, g, nFruits, x, y) < 16
    ensures 0 <= d.MazeIndex(x, y - 1) < |g| && 0 <= d.MazeIndex(x + 1, y) < |g|
    ensures 0 <= d.MazeIndex(x, y + 1) < |g| && 0 <= d.MazeIndex(x - 1, y) < |g|
    ensures var k := FindBlock(d, g, nFruits, x, y);
            && (k % 2 == 1 <==> g[d.MazeIndex(x, y - 1)].wall)
            && (k / 2 % 2 == 1 <==> g[d.MazeIndex(x + 1, y)].wall)
            && (k / 4 % 2 == 1 <==> g[d.MazeIndex(x, y + 1)].wall)
            && (k / 8 % 2 == 1 <==> g[d.MazeIndex(x - 1, y)].wall)
  {
    StencilInRange(d, x, y);
  }

  /** A fruit that is seen has a picture of its own: that of its number, which nothing else has. */
  lemma FruitsLookDifferent(d: Dims, g: Grid, nFruits: int, x: int, y: int, x': int, y': int)
    requires d.Valid() && |g| == MAZE_LEN && Displayed(d, x, y) && Displayed(d, x', y')
    requires 0 <= d.MazeIndex(x, y) < |g| && 0 <= d.MazeIndex(x', y') < |g|
    requires g[d.MazeIndex(x, y)].reach && g[d.MazeIndex(x, y)].fruit != 0
    requires !(nFruits == 0 && g[d.MazeIndex(x, y)].exit)
    ensures FindBlock(d, g, nFruits, x', y') == FindBlock(d, g, nFruits, x, y) <==>
            var c := g[d.MazeIndex(x', y')];
            c.reach && c.fruit == g[d.MazeIndex(x, y)].fruit && !(nFruits == 0 && c.exit)
  {
  }

  /** A square shows its picture row by row, from the top left. */
  lemma SquareShowsPicture(blocks: Blocks, d: Dims, g: Grid, nFruits: int, x: int, y: int, i: int, j: int)
    requires ValidBlocks(blocks) && d.Valid() && |g| == MAZE_LEN && Displayed(d, x, y) && 0 <= i < 12 && 0 <= j < 12
    ensures MapPixel(blocks, d, g, nFruits, 12 * x + i, 12 * y + j)
         == blocks[FindBlock(d, g, nFruits, x, y)][12 * j + i]
  {
    assert (12 * x + i) / 12 == x && (12 * x + i) % 12 == i;
    assert (12 * y + j) / 12 == y && (12 * y + j) % 12 == j;
  }

  // ----- which cells change the picture of which positions -----

  lemma IndexInjective(d: Dims, a: int, b: int, x: int, y: int)
    requires d.Valid() && 0 <= a <= 2 * d.xd && 0 <= x <= 2 * d.xd && d.MazeIndex(a, b) == d.MazeIndex(x, y)
    ensures (a == x && b == y) || (a == 2 * d.xd && x == 0 && y == b + 1) || (a == 0 && x == 2 * d.xd && b == y + 1)
  {
    var w := d.Row();
    IndexForm(d, a, b);
    IndexForm(d, x, y);
    if a == w {
      Distribute(b + 1, 1, w);
      Distribute(y + 1, b + 1 - y, w);
      if x < w { SmallMultiple(w, b + 1 - y); } else { Distribute(y + 1, b - y, w); SmallMultiple(w, b - y); }
    } else if x == w {
      Distribute(y + 1, 1, w);
      Distribute(b + 1, y + 1 - b, w);
      SmallMultiple(w, y + 1 - b);
    } else {
      Distribute(y + 1, b - y, w);
      SmallMultiple(w, b - y);
    }
  }

  /** Column 2 * xd and column 0 never share a window. */
  lemma BordersNeverTogether(d: Dims, sx: int, sy: int, x: int, y: int, x': int, y': int)
    requires d.Valid() && InWindow(sx, sy, x, y) && InWindow(sx, sy, x', y')
    requires x / 12 == 0
    ensures x' / 12 != 2 * d.xd
  {
  }

  /** Changing fruit, exit or mark of one cell changes the picture only where that cell is displayed. */
  lemma OneCellChanged(d: Dims, g: Grid, g': Grid, n: int, nFruits: int, x: int, y: int)
    requires d.Valid() && |g| == |g'| == MAZE_LEN && Displayed(d, x, y)
    requires 0 <= n < |g| && g' == g[n := g'[n]] && g'[n].wall == g[n].wall
    requires d.MazeIndex(x, y) != n
    ensures FindBlock(d, g', nFruits, x, y) == FindBlock(d, g, nFruits, x, y)
  {
    StencilInRange(d, x, y);
  }

  /** The number of fruits matters only to the exit, and only whether it is 0. */
  lemma CountChanged(d: Dims, g: Grid, m: int, m': int, x: int, y: int)
    requires d.Valid() && |g| == MAZE_LEN && Displayed(d, x, y)
    requires (m == 0 <==> m' == 0) || (0 <= d.MazeIndex(x, y) < |g| && !g[d.MazeIndex(x, y)].exit)
    ensures FindBlock(d, g, m', x, y) == FindBlock(d, g, m, x, y)
  {
  }
}
