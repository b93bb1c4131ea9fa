/**
  The build buffer of mp2/modex.c: a 320x182 window of an unbounded logical image kept in four planes
  of one byte per pixel.  The planes are stored in reverse order and the window slides in the buffer.
*/
module ModeX {
  import opened Arithmetic
  import opened Bytes

  const SCROLL_X_DIM := 320
  const SCROLL_Y_DIM := 182
  const SCROLL_X_WIDTH := 80
  const SCROLL_SIZE := SCROLL_X_WIDTH * SCROLL_Y_DIM
  const SCREEN_SIZE := SCROLL_SIZE * 4 + 1
  const BUILD_BUF_SIZE := SCREEN_SIZE + 20000
  const BUILD_BASE_INIT := (BUILD_BUF_SIZE - SCREEN_SIZE) / 2
  const MEM_FENCE_WIDTH := 256
  const MEM_FENCE_MAGIC: Byte := 0xF3
  const BLOCK_X_DIM := 12
  const BLOCK_Y_DIM := 12
  const PLANE_BYTES := 65536
  const TARGET_IMG := 0x4000

  /** Index in `build` of the logical pixel (x,y); x / 4 and x % 4 are `x >> 2` and `x & 3`. */
  function Addr(off: int, x: int, y: int): int {
    off + 256 + x / 4 + y * 80 + (3 - x % 4) * 14560
  }

  predicate InWindow(sx: int, sy: int, x: int, y: int) {
    sx <= x < sx + SCROLL_X_DIM && sy <= y < sy + SCROLL_Y_DIM
  }

  /** The test of set_view_window: the window at (sx,sy) lies inside the build buffer. */
  predicate Fits(off: int, sx: int, sy: int) {
    && off + sx / 4 + sy * SCROLL_X_WIDTH >= 0
    && off + 3 * SCROLL_SIZE + (sx + SCROLL_X_DIM - 1) / 4 + (sy + SCROLL_Y_DIM - 1) * SCROLL_X_WIDTH < BUILD_BUF_SIZE
  }

  predicate InBuffer(a: int) { MEM_FENCE_WIDTH <= a < MEM_FENCE_WIDTH + BUILD_BUF_SIZE }

  lemma AddrInBuffer(off: int, sx: int, sy: int, x: int, y: int)
    requires Fits(off, sx, sy) && InWindow(sx, sy, x, y)
    ensures InBuffer(Addr(off, x, y))
  {
  }

  /** No two pixels of a window share a byte, although some planes are shifted by one. */
  lemma AddrInjective(off: int, sx: int, sy: int, x: int, y: int, x': int, y': int)
    requires InWindow(sx, sy, x, y) && InWindow(sx, sy, x', y')
    requires Addr(off, x, y) == Addr(off, x', y')
    ensures x == x' && y == y'
  {
    var p, p' := 3 - x % 4, 3 - x' % 4;
    var u, u' := x / 4 - sx / 4, x' / 4 - sx / 4;
    var s, s' := if x % 4 < sx % 4 then 1 else 0, if x' % 4 < sx % 4 then 1 else 0;
    assert 0 <= u - s < 80 && 0 <= u' - s' < 80;
    var c, c' := (y - sy) * 80 + (u - s), (y' - sy) * 80 + (u' - s');
    assert 0 <= c < 14560 && 0 <= c' < 14560;
    assert p * 14560 + c + s == p' * 14560 + c' + s';
  }

  /** After a repositioning the window always lies inside the buffer. */
  lemma RepositionedFits(sx: int, sy: int)
    ensures Fits(BUILD_BASE_INIT - sx / 4 - sy * SCROLL_X_WIDTH, sx, sy)
  {
  }

  predicate Overlap(oldX: int, oldY: int, scrX: int, scrY: int) {
    oldX - SCROLL_X_DIM < scrX < oldX + SCROLL_X_DIM && oldY - SCROLL_Y_DIM < scrY < oldY + SCROLL_Y_DIM
  }

  /** Offset of the first common pixel of two windows, relative to img3. */
  function StartOff(oldX: int, oldY: int, scrX: int, scrY: int): int {
    Max(scrX, oldX) / 4 + Max(scrY, oldY) * 80
  }

  /** Number of bytes from there to the last common pixel of plane 0. */
  function MoveLength(oldX: int, oldY: int, scrX: int, scrY: int): int {
    (Min(oldX, scrX) + 319) / 4 + (Min(oldY, scrY) + 181) * 80 + 1 - StartOff(oldX, oldY, scrX, scrY) + 43680
  }

  /** Source and target of the move lie inside the buffer. */
  lemma MoveInBuffer(off: int, oldX: int, oldY: int, scrX: int, scrY: int)
    requires Fits(off, oldX, oldY) && Overlap(oldX, oldY, scrX, scrY)
    ensures var start, length := off + 256 + StartOff(oldX, oldY, scrX, scrY), MoveLength(oldX, oldY, scrX, scrY);
            0 < length && InBuffer(start) && InBuffer(start + length - 1)
  {
  }

  lemma OverlapSymmetric(oldX: int, oldY: int, scrX: int, scrY: int)
    ensures Overlap(oldX, oldY, scrX, scrY) <==> Overlap(scrX, scrY, oldX, oldY)
    ensures StartOff(oldX, oldY, scrX, scrY) == StartOff(scrX, scrY, oldX, oldY)
    ensures MoveLength(oldX, oldY, scrX, scrY) == MoveLength(scrX, scrY, oldX, oldY)
  {
  }

  /** The bytes moved include every pixel of both windows. */
  lemma CommonPixelMoved(off: int, oldX: int, oldY: int, scrX: int, scrY: int, x: int, y: int)
    requires InWindow(oldX, oldY, x, y) && InWindow(scrX, scrY, x, y)
    ensures 0 <= Addr(off, x, y) - (off + 256 + StartOff(oldX, oldY, scrX, scrY)) < MoveLength(oldX, oldY, scrX, scrY)
  {
  }

  lemma AddrShift(off: int, off': int, x: int, y: int)
    ensures Addr(off', x, y) - Addr(off, x, y) == off' - off
  {
  }

  predicate InBlock(posX: int, posY: int, x: int, y: int) {
    posX <= x < posX + BLOCK_X_DIM && posY <= y < posY + BLOCK_Y_DIM
  }

  /** Start of the bytes shown in display plane i: the buffer plane of the columns sx + i, sx + i + 4, ... */
  function PlaneByte(off: int, sx: int, sy: int, i: int): int {
    Addr(off, sx + i, sy)
  }

  lemma PlaneInBuffer(off: int, sx: int, sy: int, i: int)
    requires Fits(off, sx, sy) && 0 <= i < 4
    ensures InBuffer(PlaneByte(off, sx, sy, i)) && InBuffer(PlaneByte(off, sx, sy, i) + SCROLL_SIZE - 1)
    ensures PlaneByte(off, sx, sy, i)
         == off + 256 + sx / 4 + sy * 80 + (3 - sx % 4 - i + 4) % 4 * 14560 + (if 3 - sx % 4 < i then 1 else 0)
  {
  }

  lemma PlanePixel(off: int, sx: int, sy: int, i: int, r: int, k: int)
    requires 0 <= i < 4 && 0 <= r < SCROLL_Y_DIM && 0 <= k < SCROLL_X_WIDTH
    ensures InWindow(sx, sy, sx + 4 * k + i, sy + r)
    ensures Addr(off, sx + 4 * k + i, sy + r) == PlaneByte(off, sx, sy, i) + 80 * r + k
  {
  }

  class Screen {
    const build: array<Byte>
    var img3Off: int
    var showX: int
    var showY: int

    ghost predicate Valid()
      reads this
    {
      build.Length == BUILD_BUF_SIZE + 2 * MEM_FENCE_WIDTH && Fits(img3Off, showX, showY)
    }

    /** The byte stored for the logical pixel (x,y) of the window. */
    ghost function Pixel(x: int, y: int): Byte
      requires Valid() && InWindow(showX, showY, x, y)
      reads this, build
    {
      AddrInBuffer(img3Off, showX, showY, x, y);
      build[Addr(img3Off, x, y)]
    }

    /** What clear_mode_X checks at the end of the program. */
    ghost predicate FencesIntact()
      reads this, build
    {
      forall a :: 0 <= a < build.Length && !InBuffer(a) ==> build[a] == MEM_FENCE_MAGIC
    }

    ghost predicate FencesKept(before: seq<Byte>)
      reads this, build
    {
      && build.Length == |before| == BUILD_BUF_SIZE + 2 * MEM_FENCE_WIDTH
      && forall a :: 0 <= a < build.Length && !InBuffer(a) ==> build[a] == before[a]
    }

    /** What set_mode_X leaves: the window at (0,0) and both fences filled. */
    constructor ()
      ensures Valid() && showX == 0 && showY == 0 && fresh(build)
      ensures FencesIntact()
    {
      build := new Byte[BUILD_BUF_SIZE + 2 * MEM_FENCE_WIDTH];
      showX, showY := 0, 0;
      img3Off := BUILD_BASE_INIT;
      new;
      for i := 0 to MEM_FENCE_WIDTH
        invariant showX == 0 && showY == 0 && img3Off == BUILD_BASE_INIT
        invariant forall a :: 0 <= a < i ==> build[a] == MEM_FENCE_MAGIC
        invariant forall a :: BUILD_BUF_SIZE + MEM_FENCE_WIDTH <= a < BUILD_BUF_SIZE + MEM_FENCE_WIDTH + i ==>
            build[a] == MEM_FENCE_MAGIC
      {
        build[i] := MEM_FENCE_MAGIC;
        build[BUILD_BUF_SIZE + MEM_FENCE_WIDTH + i] := MEM_FENCE_MAGIC;
      }
    }

    /** Copies `length` bytes inside the buffer; the areas may overlap, so the direction matters. */
    method Move(start: int, target: int, length: int)
      requires 0 <= start && 0 <= target && 0 <= length
      requires start + length <= build.Length && target + length <= build.Length
      modifies build
      ensures forall a :: target <= a < target + length ==> build[a] == old(build[a - target + start])
      ensures forall a :: 0 <= a < build.Length && !(target <= a < target + length) ==> build[a] == old(build[a])
    {
      if start < target {
        var i := length;
        while i > 0
          invariant 0 <= i <= length
          invariant forall a :: target + i <= a < target + length ==> build[a] == old(build[a - target + start])
          invariant forall a :: 0 <= a < build.Length && !(target + i <= a < target + length) ==>
              build[a] == old(build[a])
        {
          i := i - 1;
          build[target + i] := build[start + i];
        }
      } else {
        for i := 0 to length
          invariant forall a :: target <= a < target + i ==> build[a] == old(build[a - target + start])
          invariant forall a :: 0 <= a < build.Length && !(target <= a < target + i) ==> build[a] == old(build[a])
        {
          build[target + i] := build[start + i];
        }
      }
    }

    /** The move itself, once its addresses are known: the common pixels arrive at their new addresses. */
    method MoveCommon(start: int, target: int, length: int, ghost off: int, ghost oldX: int, ghost oldY: int)
      requires Valid() && Overlap(oldX, oldY, showX, showY)
      requires length == MoveLength(oldX, oldY, showX, showY)
      requires start == off + 256 + StartOff(oldX, oldY, showX, showY)
      requires target == img3Off + 256 + StartOff(oldX, oldY, showX, showY)
      requires 0 < length && InBuffer(start) && InBuffer(start + length - 1)
      requires InBuffer(target) && InBuffer(target + length - 1)
      modifies build
      ensures FencesKept(old(build[..]))
      ensures forall x, y :: InWindow(oldX, oldY, x, y) && InWindow(showX, showY, x, y) ==>
                InBuffer(Addr(off, x, y)) && InBuffer(Addr(img3Off, x, y))
                && build[Addr(img3Off, x, y)] == old(build[Addr(off, x, y)])
    {
      Move(start, target, length);
      forall x, y | InWindow(oldX, oldY, x, y) && InWindow(showX, showY, x, y)
        ensures InBuffer(Addr(off, x, y)) && InBuffer(Addr(img3Off, x, y))
        ensures build[Addr(img3Off, x, y)] == old(build[Addr(off, x, y)])
      {
        CommonPixelMoved(off, oldX, oldY, showX, showY, x, y);
        AddrShift(off, img3Off, x, y);
      }
    }

    /** Puts the common part of the windows at (oldX,oldY) and (showX,showY) into the middle of the buffer. */
    method KeepOverlap(oldX: int, oldY: int)
      requires build.Length == BUILD_BUF_SIZE + 2 * MEM_FENCE_WIDTH
      requires Fits(img3Off, oldX, oldY) && Overlap(oldX, oldY, showX, showY)
      modifies this`img3Off, build
      ensures Valid() && FencesKept(old(build[..]))
      ensures forall x, y :: InWindow(oldX, oldY, x, y) && InWindow(showX, showY, x, y) ==>
                InBuffer(Addr(old(img3Off), x, y)) && InBuffer(Addr(img3Off, x, y))
                && build[Addr(img3Off, x, y)] == old(build[Addr(img3Off, x, y)])
    {
      var scrX, scrY := showX, showY;
      ghost var off := img3Off;
      var startX, endX := if scrX > oldX then scrX else oldX, if scrX > oldX then oldX else scrX;
      endX := endX + SCROLL_X_DIM - 1;
      var startY, endY := if scrY > oldY then scrY else oldY, if scrY > oldY then oldY else scrY;
      endY := endY + SCROLL_Y_DIM - 1;
      var startOff := startX / 4 + startY * SCROLL_X_WIDTH;
      var startAddr := img3Off + MEM_FENCE_WIDTH + startOff;
      var length := endX / 4 + endY * SCROLL_X_WIDTH + 1 - startOff + 3 * SCROLL_SIZE;
      MoveInBuffer(img3Off, oldX, oldY, scrX, scrY);
      img3Off := BUILD_BASE_INIT - showX / 4 - showY * SCROLL_X_WIDTH;
      RepositionedFits(scrX, scrY);
      OverlapSymmetric(oldX, oldY, scrX, scrY);
      MoveInBuffer(img3Off, scrX, scrY, oldX, oldY);
      var targetAddr := img3Off + MEM_FENCE_WIDTH + startOff;
      MoveCommon(startAddr, targetAddr, length, off, oldX, oldY);
    }

    /**
      Moves the window to (scrX,scrY).  Every pixel that is in the old and in the new window keeps its
      value, whether or not the data had to be moved inside the buffer, and the fences are not touched.
    */
    method SetViewWindow(scrX: int, scrY: int)
      requires Valid()
      modifies this`img3Off, this`showX, this`showY, build
      ensures Valid() && showX == scrX && showY == scrY
      ensures FencesKept(old(build[..]))
      ensures forall x, y :: InWindow(old(showX), old(showY), x, y) && InWindow(showX, showY, x, y) ==>
                Pixel(x, y) == old(Pixel(x, y))
    {
      var oldX, oldY := showX, showY;
      showX, showY := scrX, scrY;
      if img3Off + scrX / 4 + scrY * SCROLL_X_WIDTH >= 0 &&
         img3Off + 3 * SCROLL_SIZE + (scrX + SCROLL_X_DIM - 1) / 4 +
         (scrY + SCROLL_Y_DIM - 1) * SCROLL_X_WIDTH < BUILD_BUF_SIZE {
        return;
      }
      if scrX <= oldX - SCROLL_X_DIM || scrX >= oldX + SCROLL_X_DIM ||
         scrY <= oldY - SCROLL_Y_DIM || scrY >= oldY + SCROLL_Y_DIM {
        img3Off := BUILD_BASE_INIT - scrX / 4 - scrY * SCROLL_X_WIDTH;
        RepositionedFits(scrX, scrY);
        return;
      }
      KeepOverlap(oldX, oldY);
    }

    /** Writes the byte of one pixel of the window. */
    method Store(a: int, c: Byte, ghost x: int, ghost y: int)
      requires Valid() && InWindow(showX, showY, x, y) && a == Addr(img3Off, x, y)
      modifies build
      ensures FencesKept(old(build[..]))
      ensures forall x', y' :: InWindow(showX, showY, x', y') ==>
                Pixel(x', y') == if x' == x && y' == y then c else old(Pixel(x', y'))
    {
      AddrInBuffer(img3Off, showX, showY, x, y);
      build[a] := c;
      forall x', y' | InWindow(showX, showY, x', y')
        ensures Pixel(x', y') == if x' == x && y' == y then c else old(Pixel(x', y'))
      {
        if Addr(img3Off, x', y') == a { AddrInjective(img3Off, showX, showY, x, y, x', y'); }
      }
    }

    /** Draws column x of the window from the image of that line. */
    method StoreVertLine(x: int, buf: seq<Byte>)
      requires Valid() && 0 <= x < SCROLL_X_DIM && |buf| == SCROLL_Y_DIM
      modifies build
      ensures FencesKept(old(build[..]))
      ensures forall x', y' :: InWindow(showX, showY, x', y') ==>
                Pixel(x', y') == if x' == showX + x then buf[y' - showY] else old(Pixel(x', y'))
    {
      var lx := x + showX;
      var addr := img3Off + MEM_FENCE_WIDTH + lx / 4 + showY * SCROLL_X_WIDTH;
      var pOff := 3 - lx % 4;
      for i := 0 to SCROLL_Y_DIM
        invariant addr + pOff * SCROLL_SIZE == Addr(img3Off, lx, showY + i)
        invariant FencesKept(old(build[..]))
        invariant forall x', y' :: InWindow(showX, showY, x', y') ==>
                    Pixel(x', y') == if x' == lx && y' < showY + i then buf[y' - showY] else old(Pixel(x', y'))
      {
        Store(addr + pOff * SCROLL_SIZE, buf[i], lx, showY + i);
        addr := addr + SCROLL_X_WIDTH;
      }
    }

    /** Draws row y of the window from the image of that line. */
    method StoreHorizLine(y: int, buf: seq<Byte>)
      requires Valid() && 0 <= y < SCROLL_Y_DIM && |buf| == SCROLL_X_DIM
      modifies build
      ensures FencesKept(old(build[..]))
      ensures forall x', y' :: InWindow(showX, showY, x', y') ==>
                Pixel(x', y') == if y' == showY + y then buf[x' - showX] else old(Pixel(x', y'))
    {
      var ly := y + showY;
      var addr := img3Off + MEM_FENCE_WIDTH + showX / 4 + ly * SCROLL_X_WIDTH;
      var pOff := 3 - showX % 4;
      for i := 0 to SCROLL_X_DIM
        invariant 0 <= pOff <= 3 && addr + pOff * SCROLL_SIZE == Addr(img3Off, showX + i, ly)
            && pOff == 3 - (showX + i) % 4
        invariant FencesKept(old(build[..]))
        invariant forall x', y' :: InWindow(showX, showY, x', y') ==>
                    Pixel(x', y') == if y' == ly && x' < showX + i then buf[x' - showX] else old(Pixel(x', y'))
      {
        Store(addr + pOff * SCROLL_SIZE, buf[i], showX + i, ly);
        pOff := pOff - 1;
        if pOff < 0 {
          pOff := 3;
          addr := addr + 1;
        }
      }
    }

    /** Draws the part of the 12x12 block at (posX,posY) that lies in the window, and nothing else. */
    method DrawFullBlock(posX: int, posY: int, blk: seq<Byte>)
      requires Valid() && |blk| == BLOCK_X_DIM * BLOCK_Y_DIM
      modifies build
      ensures FencesKept(old(build[..]))
      ensures forall x, y :: InWindow(showX, showY, x, y) ==>
                Pixel(x, y) == if InBlock(posX, posY, x, y) then blk[(y - posY) * 12 + (x - posX)] else old(Pixel(x, y))
    {
      if posX + BLOCK_X_DIM <= showX || posX >= showX + SCROLL_X_DIM ||
         posY + BLOCK_Y_DIM <= showY || posY >= showY + SCROLL_Y_DIM {
        return;
      }
      var xLeft := if showX - posX < 0 then 0 else showX - posX;
      var xRight := if showX + SCROLL_X_DIM - posX > BLOCK_X_DIM then BLOCK_X_DIM else showX + SCROLL_X_DIM - posX;
      var px, b := posX + xLeft, xLeft;
      xRight := xRight - xLeft;
      xLeft := BLOCK_X_DIM - xRight;
      var yTop := if showY - posY < 0 then 0 else showY - posY;
      var yBottom := if showY + SCROLL_Y_DIM - posY > BLOCK_Y_DIM then BLOCK_Y_DIM else showY + SCROLL_Y_DIM - posY;
      var py := posY + yTop;
      b := b + yTop * BLOCK_X_DIM;
      yBottom := yBottom - yTop;
      ghost var x0, y0 := px, py;
      for dy := 0 to yBottom
        invariant px == x0 && py == y0 + dy && b == (py - posY) * 12 + (x0 - posX)
        invariant FencesKept(old(build[..]))
        invariant forall x, y :: InWindow(showX, showY, x, y) ==>
                    Pixel(x, y) == if InBlock(posX, posY, x, y)
                        && y < py then blk[(y - posY) * 12 + (x - posX)] else old(Pixel(x, y))
      {
        DrawBlockRow(posX, posY, px, py, xRight, b, blk);
        px, b := px + xRight, b + xRight;
        py := py + 1;
        px := px - xRight;
        b := b + xLeft;
      }
    }

    /** One row of the clipped image: n pixels from (px,py), taken from position b of the block. */
    method DrawBlockRow(ghost posX: int, ghost posY: int, px: int, py: int, n: int, b: int, blk: seq<Byte>)
      requires Valid() && |blk| == BLOCK_X_DIM * BLOCK_Y_DIM && 0 <= n
      requires posX <= px && px + n <= posX + 12 && posY <= py < posY + 12 && b == (py - posY) * 12 + (px - posX)
      requires n > 0 ==> InWindow(showX, showY, px, py) && InWindow(showX, showY, px + n - 1, py)
      modifies build
      ensures FencesKept(old(build[..]))
      ensures forall x, y :: InWindow(showX, showY, x, y) ==>
                Pixel(x, y) == if px <= x < px + n && y == py then blk[(y - posY) * 12 + (x - posX)]
                    else old(Pixel(x, y))
    {
      for dx := 0 to n
        invariant FencesKept(old(build[..]))
        invariant forall x, y :: InWindow(showX, showY, x, y) ==>
                    Pixel(x, y) == if px <= x < px + dx && y == py then blk[(y - posY) * 12 + (x - posX)]
                        else old(Pixel(x, y))
      {
        Store(img3Off + MEM_FENCE_WIDTH + (px + dx) / 4 + py * SCROLL_X_WIDTH + (3 - (px + dx) % 4) * SCROLL_SIZE,
            blk[b + dx], px + dx, py);
      }
    }

    /** Byte 80 * r + k of the image in plane i holds the logical pixel of that screen position. */
    ghost predicate Shows(vga: array2<Byte>, i: int, r: int, k: int)
      requires Valid() && vga.Length0 == 4 && vga.Length1 == PLANE_BYTES
      requires 0 <= i < 4 && 0 <= r < SCROLL_Y_DIM && 0 <= k < SCROLL_X_WIDTH
      reads this, build, vga
    {
      vga[i, TARGET_IMG + 80 * r + k] == Pixel(showX + 4 * k + i, showY + r)
    }

    ghost predicate PlaneCopied(vga: array2<Byte>, i: int)
      requires Valid() && vga.Length0 == 4 && vga.Length1 == PLANE_BYTES && 0 <= i < 4
      reads this, build, vga
    {
      var src := PlaneByte(img3Off, showX, showY, i);
      && 0 <= src && src + SCROLL_SIZE <= build.Length
      && forall a :: TARGET_IMG <= a < TARGET_IMG + SCROLL_SIZE ==> vga[i, a] == build[a - TARGET_IMG + src]
    }

    /** Copies the window to video memory: plane i, byte 80 * r + k, receives pixel (showX + 4k + i, showY + r). */
    method ShowScreen(vga: array2<Byte>)
      requires Valid() && vga.Length0 == 4 && vga.Length1 == PLANE_BYTES
      modifies vga
      ensures forall i, r, k :: 0 <= i < 4 && 0 <= r < SCROLL_Y_DIM && 0 <= k < SCROLL_X_WIDTH ==> Shows(vga, i, r, k)
      ensures forall i, a :: 0 <= i < 4 && 0 <= a < PLANE_BYTES && !(TARGET_IMG <= a < TARGET_IMG + SCROLL_SIZE) ==>
                vga[i, a] == old(vga[i, a])
    {
      var pOff := 3 - showX % 4;
      var addr := img3Off + MEM_FENCE_WIDTH + showX / 4 + showY * SCROLL_X_WIDTH;
      for i := 0 to 4
        invariant forall i' :: 0 <= i' < i ==> PlaneCopied(vga, i')
        invariant forall i', a ::
                    0 <= i' < 4 && 0 <= a < PLANE_BYTES && !(i' < i && TARGET_IMG <= a < TARGET_IMG + SCROLL_SIZE) ==>
                      vga[i', a] == old(vga[i', a])
      {
        var src := addr + (pOff - i + 4) % 4 * SCROLL_SIZE + if pOff < i then 1 else 0;
        PlaneInBuffer(img3Off, showX, showY, i);
        assert src == PlaneByte(img3Off, showX, showY, i);
        label L:
        CopyImage(src, vga, i);
        forall i' | 0 <= i' <= i ensures PlaneCopied(vga, i') {
          assert i' < i ==> old@L(PlaneCopied(vga, i'));
        }
      }
      forall i, r, k | 0 <= i < 4 && 0 <= r < SCROLL_Y_DIM && 0 <= k < SCROLL_X_WIDTH
        ensures Shows(vga, i, r, k)
      {
        PlanePixel(img3Off, showX, showY, i, r, k);
        assert PlaneCopied(vga, i);
      }
    }

    /** copy_image: SCROLL_SIZE bytes from the buffer to plane i of video memory. */
    method CopyImage(src: int, vga: array2<Byte>, i: int)
      requires 0 <= src && src + SCROLL_SIZE <= build.Length
      requires vga.Length0 == 4 && vga.Length1 == PLANE_BYTES && 0 <= i < 4
      modifies vga
      ensures forall a :: TARGET_IMG <= a < TARGET_IMG + SCROLL_SIZE ==> vga[i, a] == build[a - TARGET_IMG + src]
      ensures forall i', a ::
                0 <= i' < 4 && 0 <= a < PLANE_BYTES && !(i' == i && TARGET_IMG <= a < TARGET_IMG + SCROLL_SIZE) ==>
                  vga[i', a] == old(vga[i', a])
    {
      for c := 0 to SCROLL_SIZE
        invariant forall a :: TARGET_IMG <= a < TARGET_IMG + c ==> vga[i, a] == build[a - TARGET_IMG + src]
        invariant forall i', a ::
                    0 <= i' < 4 && 0 <= a < PLANE_BYTES && !(i' == i && TARGET_IMG <= a < TARGET_IMG + c) ==>
                      vga[i', a] == old(vga[i', a])
      {
        vga[i, TARGET_IMG + c] := build[src + c];
      }
    }
  }
}
