/**
  The three virtual terminals of mp3/student-distrib/terminal.c: they share the video page at 0xB8000,
  and the terminals that are not displayed live in their storage pages.
*/
module Terminals {
  import opened Arithmetic
  import opened Bytes
  import opened KernelLimits
  import opened TextCanvas

  const VIDEO_BASE := 0xB8000
  const PAGE := 0x1000
  const TERMINAL_BUFFER_SIZE := 128
  const NEWLINE: Byte := 10

  /** Address of the storage page of terminal t. */
  function Storage(t: int): int { 0xB8000 + 0x1000 * (t + 1) }

  datatype Terminal = Terminal(videoStart: int, x: int, y: int, buffer: seq<Byte>, chars: int)

  /** The glyphs in the first 4000 bytes of a page. */
  ghost function Glyphs(page: seq<Byte>): (s: seq<Glyph>)
    requires |page| == PAGE
    ensures |s| == CELLS
  {
    seq(CELLS, i requires 0 <= i < CELLS => Glyph(page[2 * i], page[2 * i + 1]))
  }

  // ----- page table entries -----

  /** Bits 0 to 2 set: present, writable, user. */
  predicate Mapped(e: int) { e % 8 == 7 }

  function Frame(e: int): int { e - e % 0x1000 }

  class Console {
    const vram: array<Byte>
    var terms: seq<Terminal>
    var shown: int
    var cursorX: int
    var cursorY: int
    var pte: seq<int>

    ghost predicate Valid()
      reads this
    {
      && vram.Length == 4 * PAGE && |terms| == NUM_TERMINALS && |pte| == NUM_MAX_PROCESSES && 0 <= shown < NUM_TERMINALS
      && (forall t :: 0 <= t < NUM_TERMINALS ==>
            terms[t].videoStart == (if t == shown then VIDEO_BASE else Storage(t))
            && 0 <= terms[t].x < NUM_COLS && 0 <= terms[t].y < NUM_ROWS
            && |terms[t].buffer| == TERMINAL_BUFFER_SIZE && 0 <= terms[t].chars <= TERMINAL_BUFFER_SIZE)
      && cursorX == terms[shown].x && cursorY == terms[shown].y
    }

    /** Index in vram of terminal t's page. */
    function Start(t: int): int
      requires 0 <= t < |terms|
      reads this
    {
      terms[t].videoStart - VIDEO_BASE
    }

    ghost function Page(t: int): seq<Byte>
      requires Valid() && 0 <= t < NUM_TERMINALS
      reads this, vram
    {
      vram[Start(t)..Start(t) + PAGE]
    }

    /** What terminal t shows, or would show. */
    ghost function Screen(t: int): (s: Text)
      requires Valid() && 0 <= t < NUM_TERMINALS
      ensures s.Valid()
      reads this, vram
    {
      Text(Glyphs(Page(t)), terms[t].x, terms[t].y)
    }

    /** The typed characters waiting to be read. */
    ghost function Pending(t: int): seq<Byte>
      requires Valid() && 0 <= t < NUM_TERMINALS
      reads this
    {
      terms[t].buffer[..terms[t].chars]
    }

    /** The user page of process i shows terminal t. */
    ghost predicate Shows(i: int, t: int)
      requires Valid() && 0 <= i < NUM_MAX_PROCESSES && 0 <= t < NUM_TERMINALS
      reads this
    {
      Mapped(pte[i]) && Frame(pte[i]) == terms[t].videoStart
    }

    /** init_terminals: terminal 0 is displayed, the buffers are empty, the pages hold whatever was there. */
    constructor (memory: array<Byte>)
      requires memory.Length == 4 * PAGE
      ensures Valid() && vram == memory && shown == 0
      ensures forall t :: 0 <= t < NUM_TERMINALS ==> Pending(t) == [] && terms[t].x == terms[t].y == 0
    {
      vram := memory;
      terms := seq(NUM_TERMINALS, t => Terminal(if t == 0 then VIDEO_BASE
          else Storage(t), 0, 0, seq(TERMINAL_BUFFER_SIZE, _ => 0), 0));
      shown, cursorX, cursorY := 0, 0, 0;
      pte := seq(NUM_MAX_PROCESSES, _ => 0);
    }

    // ----- output -----

    /** Writes both bytes of a cell of terminal t's page. */
    method WriteCell(t: int, i: int, g: Glyph)
      requires Valid() && 0 <= t < NUM_TERMINALS && 0 <= i < CELLS
      modifies vram
      ensures Glyphs(Page(t)) == old(Glyphs(Page(t)))[i := g]
      ensures forall u :: 0 <= u < NUM_TERMINALS && u != t ==> Page(u) == old(Page(u))
    {
      vram[Start(t) + 2 * i] := g.ch;
      vram[Start(t) + 2 * i + 1] := g.attr;
    }

    /** Reads both bytes of a cell of terminal t's page. */
    method ReadCell(t: int, i: int) returns (g: Glyph)
      requires Valid() && 0 <= t < NUM_TERMINALS && 0 <= i < CELLS
      ensures g == Glyphs(Page(t))[i]
    {
      g := Glyph(vram[Start(t) + 2 * i], vram[Start(t) + 2 * i + 1]);
      assert Page(t)[2 * i] == vram[Start(t) + 2 * i] && Page(t)[2 * i + 1] == vram[Start(t) + 2 * i + 1];
    }

    /** Moves every row but the first one up. */
    method MoveRowsUp(t: int)
      requires Valid() && 0 <= t < NUM_TERMINALS
      modifies vram
      ensures forall j :: 0 <= j < 1920 ==> Glyphs(Page(t))[j] == old(Glyphs(Page(t)))[j + NUM_COLS]
      ensures forall u :: 0 <= u < NUM_TERMINALS && u != t ==> Page(u) == old(Page(u))
    {
      ghost var g := Glyphs(Page(t));
      ghost var cur := g;
      for i := 0 to NUM_COLS * (NUM_ROWS - 1)
        invariant Glyphs(Page(t)) == cur && |cur| == CELLS
        invariant forall j :: 0 <= j < i ==> cur[j] == g[j + NUM_COLS]
        invariant forall j :: i <= j < CELLS ==> cur[j] == g[j]
        invariant forall u :: 0 <= u < NUM_TERMINALS && u != t ==> Page(u) == old(Page(u))
      {
        var glyph := ReadCell(t, i + NUM_COLS);
        WriteCell(t, i, glyph);
        cur := cur[i := glyph];
      }
    }

    /** Writes spaces into the cells from `from` on. */
    method BlankFrom(t: int, from: int)
      requires Valid() && 0 <= t < NUM_TERMINALS && 0 <= from <= CELLS
      modifies vram
      ensures forall j :: 0 <= j < CELLS ==> Glyphs(Page(t))[j] == if j < from then old(Glyphs(Page(t)))[j] else BLANK
      ensures forall u :: 0 <= u < NUM_TERMINALS && u != t ==> Page(u) == old(Page(u))
    {
      ghost var g := Glyphs(Page(t));
      ghost var cur := g;
      for i := from to CELLS
        invariant Glyphs(Page(t)) == cur && |cur| == CELLS
        invariant forall j :: 0 <= j < CELLS ==> cur[j] == if from <= j < i then BLANK else g[j]
        invariant forall u :: 0 <= u < NUM_TERMINALS && u != t ==> Page(u) == old(Page(u))
      {
        WriteCell(t, i, BLANK);
        cur := cur[i := BLANK];
      }
    }

    /** Moves every row one up and blanks the last one. */
    method Scroll(t: int)
      requires Valid() && 0 <= t < NUM_TERMINALS
      modifies vram
      ensures Glyphs(Page(t)) == ScrollUp(old(Glyphs(Page(t))))
      ensures forall u :: 0 <= u < NUM_TERMINALS && u != t ==> Page(u) == old(Page(u))
    {
      MoveRowsUp(t);
      BlankFrom(t, NUM_COLS * (NUM_ROWS - 1));
    }

    method MoveCursor(x: int, y: int)
      modifies this`cursorX, this`cursorY
      ensures cursorX == x && cursorY == y
    {
      cursorX, cursorY := x, y;
    }

    /** Sets the cursor position of terminal t, and the hardware cursor if t is displayed. */
    method SetPosition(t: int, x: int, y: int)
      requires Valid() && 0 <= t < NUM_TERMINALS && 0 <= x < NUM_COLS && 0 <= y < NUM_ROWS
      modifies this`terms, this`cursorX, this`cursorY
      ensures Valid() && terms == old(terms)[t := old(terms)[t].(x := x, y := y)]
    {
      terms := terms[t := terms[t].(x := x, y := y)];
      if t == shown {
        MoveCursor(x, y);
      }
    }

    /** terminal_putc: one character on terminal t; the other terminals keep their screens. */
    method Putc(c: Byte, attribute: Byte, t: int)
      requires Valid() && 0 <= t < NUM_TERMINALS
      modifies this`terms, this`cursorX, this`cursorY, vram
      ensures Valid() && Screen(t) == Put(old(Screen(t)), Glyph(c, attribute))
      ensures terms == old(terms)[t := old(terms)[t].(x := terms[t].x, y := terms[t].y)]
      ensures forall u :: 0 <= u < NUM_TERMINALS && u != t ==> Screen(u) == old(Screen(u))
    {
      var x, y := terms[t].x, terms[t].y;
      if NewLine(c) {
        y := y + 1;
        x := 0;
      } else {
        WriteCell(t, NUM_COLS * y + x, Glyph(c, attribute));
        x := x + 1;
        if x >= NUM_COLS {
          y := y + 1;
          x := 0;
        }
      }
      Finish(t, x, y);
    }

    /** The end of terminal_putc: scroll if the cursor has left the screen, then move it. */
    method Finish(t: int, x: int, y0: int)
      requires Valid() && 0 <= t < NUM_TERMINALS && 0 <= x < NUM_COLS && 0 <= y0 <= NUM_ROWS
      modifies this`terms, this`cursorX, this`cursorY, vram
      ensures Valid() && Screen(t) == Settle(old(Glyphs(Page(t))), x, y0)
      ensures terms == old(terms)[t := old(terms)[t].(x := terms[t].x, y := terms[t].y)]
      ensures forall u :: 0 <= u < NUM_TERMINALS && u != t ==> Screen(u) == old(Screen(u))
    {
      var y := y0;
      if y >= NUM_ROWS {
        Scroll(t);
        y := NUM_ROWS - 1;
      }
      SetPosition(t, x, y);
    }

    /** terminal_write: the characters one after the other. */
    method Write(out: seq<Byte>, t: int)
      requires Valid() && 0 <= t < NUM_TERMINALS
      modifies this`terms, this`cursorX, this`cursorY, vram
      ensures Valid() && Screen(t) == PutAllFrom(old(Screen(t)), out)
      ensures forall u :: 0 <= u < NUM_TERMINALS && u != t ==> Screen(u) == old(Screen(u))
    {
      assert out[..0] == [];
      for k := 0 to |out|
        invariant Valid() && Screen(t) == PutAllFrom(old(Screen(t)), out[..k])
        invariant forall u :: 0 <= u < NUM_TERMINALS && u != t ==> Screen(u) == old(Screen(u))
      {
        Putc(out[k], ATTRIB, t);
        assert out[..k + 1][..k] == out[..k];
      }
      assert out[..|out|] == out;
    }

    /** clear_terminal */
    method Clear(t: int)
      requires Valid() && 0 <= t < NUM_TERMINALS
      modifies this`terms, this`cursorX, this`cursorY, vram
      ensures Valid() && Screen(t) == CLEARED && terms == old(terms)[t := old(terms)[t].(x := 0, y := 0)]
      ensures forall u :: 0 <= u < NUM_TERMINALS && u != t ==> Screen(u) == old(Screen(u))
    {
      BlankFrom(t, 0);
      assert Glyphs(Page(t)) == Blanks(CELLS);
      SetPosition(t, 0, 0);
    }

    // ----- switching -----

    /** The k-th of the four pages: the displayed one, then the storage pages. */
    ghost function PageAt(k: int): seq<Byte>
      requires vram.Length == 4 * PAGE && 0 <= k < 4
      reads vram
    {
      vram[0x1000 * k..0x1000 * k + 0x1000]
    }

    /** memcpy of one page. */
    method CopyPage(target: int, source: int)
      requires vram.Length == 4 * PAGE && 0 <= target < 4 && 0 <= source < 4 && source != target
      modifies vram
      ensures PageAt(target) == old(PageAt(source))
      ensures forall k :: 0 <= k < 4 && k != target ==> PageAt(k) == old(PageAt(k))
    {
      var to, from := 0x1000 * target, 0x1000 * source;
      for k := 0 to PAGE
        invariant forall a :: to <= a < to + k ==> vram[a] == old(vram[a - to + from])
        invariant forall a :: 0 <= a < vram.Length && !(to <= a < to + k) ==> vram[a] == old(vram[a])
      {
        vram[to + k] := vram[from + k];
      }
      assert vram[to..to + 0x1000] == old(vram[from..from + 0x1000]);
      forall k | 0 <= k < 4 && k != target ensures PageAt(k) == old(PageAt(k)) {
        assert forall a :: 0x1000 * k <= a < 0x1000 * k + 0x1000 ==> vram[a] == old(vram[a]);
      }
    }

    /** The loop that redirects the user pages of the two terminals that change places. */
    method Remap(next: int)
      requires Valid() && 0 <= next < NUM_TERMINALS && next != shown
      modifies this`pte
      ensures |pte| == NUM_MAX_PROCESSES
      ensures forall i :: 0 <= i < NUM_MAX_PROCESSES ==> pte[i] == Redirected(old(pte)[i], shown, next)
    {
      for i := 0 to NUM_MAX_PROCESSES
        invariant |pte| == NUM_MAX_PROCESSES
        invariant forall j :: 0 <= j < NUM_MAX_PROCESSES ==>
                    pte[j] == if j < i then Redirected(old(pte)[j], shown, next) else old(pte)[j]
      {
        if Mapped(pte[i]) {
          if Frame(pte[i]) == VIDEO_BASE {
            pte := pte[i := pte[i] % PAGE + Storage(shown)];
          } else if Frame(pte[i]) == Storage(next) {
            pte := pte[i := pte[i] % PAGE + VIDEO_BASE];
          }
        }
      }
    }

    /**
      switch_terminal: every terminal keeps its screen, the new one is at 0xB8000, and every mapped user
      page goes on showing the same terminal.  `running` says whether something runs on it, `slot`
      whether a process slot is free for a new shell.
    */
    method Switch(next: int, running: bool, slot: bool) returns (switched: bool)
      requires Valid()
      modifies this`terms, this`shown, this`cursorX, this`cursorY, this`pte, vram
      ensures Valid() && switched == (0 <= next < NUM_TERMINALS && next != old(shown) && (running || slot))
      ensures shown == if switched then next else old(shown)
      ensures forall t :: 0 <= t < NUM_TERMINALS ==> Screen(t) == old(Screen(t)) && Pending(t) == old(Pending(t))
      ensures forall i, t :: 0 <= i < NUM_MAX_PROCESSES && 0 <= t < NUM_TERMINALS && old(Shows(i, t)) ==> Shows(i, t)
      ensures forall i :: 0 <= i < NUM_MAX_PROCESSES ==>
                pte[i] == if switched then Redirected(old(pte)[i], old(shown), next) else old(pte)[i]
    {
      if next < 0 || next > 2 || next == shown {
        return false;
      }
      if !running && !slot {
        return false;
      }
      Exchange(next);
      switched := true;
    }

    /** The two copies: the displayed page is put away and the next terminal's page is brought in. */
    method SwapPages(next: int)
      requires Valid() && 0 <= next < NUM_TERMINALS && next != shown
      modifies vram
      ensures PageAt(0) == old(PageAt(next + 1)) && PageAt(shown + 1) == old(PageAt(0))
      ensures forall k :: 1 <= k < 4 && k != shown + 1 ==> PageAt(k) == old(PageAt(k))
    {
      CopyPage(shown + 1, 0);
      CopyPage(0, next + 1);
    }

    /** Where terminal t's page is. */
    lemma PageOf(t: int)
      requires Valid() && 0 <= t < NUM_TERMINALS
      ensures Page(t) == PageAt(if t == shown then 0 else t + 1)
    {
    }

    /** The bookkeeping of a switch. */
    method Relabel(next: int)
      requires Valid() && 0 <= next < NUM_TERMINALS && next != shown
      modifies this`terms, this`shown, this`cursorX, this`cursorY
      ensures Valid() && shown == next
      ensures forall t :: 0 <= t < NUM_TERMINALS ==> terms[t] == old(terms)[t].(videoStart := terms[t].videoStart)
    {
      terms := terms[shown := terms[shown].(videoStart := Storage(shown))];
      terms := terms[next := terms[next].(videoStart := VIDEO_BASE)];
      MoveCursor(terms[next].x, terms[next].y);
      shown := next;
    }

    /** Pages and bookkeeping together leave every terminal with its own page. */
    method ShowTerminal(next: int)
      requires Valid() && 0 <= next < NUM_TERMINALS && next != shown
      modifies this`terms, this`shown, this`cursorX, this`cursorY, vram
      ensures Valid() && shown == next
      ensures forall t :: 0 <= t < NUM_TERMINALS ==> Page(t) == old(Page(t))
      ensures forall t :: 0 <= t < NUM_TERMINALS ==> terms[t] == old(terms)[t].(videoStart := terms[t].videoStart)
    {
      PageOf(0);
      PageOf(1);
      PageOf(2);
      SwapPages(next);
      Relabel(next);
      PageOf(0);
      PageOf(1);
      PageOf(2);
    }

    method Exchange(next: int)
      requires Valid() && 0 <= next < NUM_TERMINALS && next != shown
      modifies this`terms, this`shown, this`cursorX, this`cursorY, this`pte, vram
      ensures Valid() && shown == next
      ensures forall t :: 0 <= t < NUM_TERMINALS ==> Screen(t) == old(Screen(t)) && Pending(t) == old(Pending(t))
      ensures forall i, t :: 0 <= i < NUM_MAX_PROCESSES && 0 <= t < NUM_TERMINALS && old(Shows(i, t)) ==> Shows(i, t)
      ensures forall i :: 0 <= i < NUM_MAX_PROCESSES ==> pte[i] == Redirected(old(pte)[i], old(shown), next)
    {
      ghost var was := shown;
      Remap(next);
      ShowTerminal(next);
      forall i, t | 0 <= i < NUM_MAX_PROCESSES && 0 <= t < NUM_TERMINALS
        ensures old(Shows(i, t)) ==> Shows(i, t)
      {
        RedirectKeeps(old(pte)[i], was, next, t);
      }
    }

    /** vidmap: the caller's user page gets the physical screen. */
    method Vidmap(process: int, t: int)
      requires Valid() && 0 <= process < NUM_MAX_PROCESSES && 0 <= t < NUM_TERMINALS
      modifies this`pte
      ensures Valid() && pte == old(pte)[process := VIDEO_BASE + 7]
      ensures Shows(process, t) <==> t == shown
    {
      pte := pte[process := VIDEO_BASE + 7];
    }

    // ----- keyboard -----

    /** A typed character is shown and kept if there is room (the last place is for a newline). */
    method KeyPress(c: Byte) returns (kept: bool)
      requires Valid()
      modifies this`terms, this`cursorX, this`cursorY, vram
      ensures Valid() && kept == (|old(Pending(shown))| < 127 || (c == NEWLINE && |old(Pending(shown))| < 128))
      ensures Pending(shown) == old(Pending(shown)) + (if kept then [c] else [])
      ensures Screen(shown) == if kept then Put(old(Screen(shown)), Glyph(c, ATTRIB)) else old(Screen(shown))
      ensures forall u :: 0 <= u < NUM_TERMINALS && u != shown ==>
                Screen(u) == old(Screen(u)) && Pending(u) == old(Pending(u))
    {
      var n := terms[shown].chars;
      kept := n < TERMINAL_BUFFER_SIZE - 1 || (c == NEWLINE && n < TERMINAL_BUFFER_SIZE);
      if kept {
        Putc(c, ATTRIB, shown);
        terms := terms[shown := terms[shown].(buffer := terms[shown].buffer[n := c], chars := n + 1)];
      }
    }

    /** Backspace takes back the last waiting character and blanks the cell before the cursor. */
    method Backspace()
      requires Valid()
      modifies this`terms, this`cursorX, this`cursorY, vram
      ensures Valid()
      ensures Pending(shown) == if old(Pending(shown)) == [] then [] else old(Pending(shown)[..|Pending(shown)| - 1])
      ensures Screen(shown) == if old(Pending(shown)) == [] then old(Screen(shown)) else Erase(old(Screen(shown)))
      ensures forall u :: 0 <= u < NUM_TERMINALS && u != shown ==>
                Screen(u) == old(Screen(u)) && Pending(u) == old(Pending(u))
    {
      var n := terms[shown].chars;
      if n == 0 {
        return;
      }
      TakeBack();
      EraseBack();
    }

    /** The last waiting character is dropped; the screens do not change. */
    method TakeBack()
      requires Valid() && terms[shown].chars > 0
      modifies this`terms
      ensures Valid() && Pending(shown) == old(Pending(shown)[..|Pending(shown)| - 1])
      ensures var kept := terms[shown];
              terms == old(terms)[shown := old(terms)[shown].(buffer := kept.buffer, chars := kept.chars)]
      ensures forall u :: 0 <= u < NUM_TERMINALS ==> Screen(u) == old(Screen(u))
    {
      var n := terms[shown].chars;
      terms := terms[shown := terms[shown].(buffer := terms[shown].buffer[n - 1 := 0], chars := n - 1)];
      assert forall u :: 0 <= u < NUM_TERMINALS ==> Start(u) == old(Start(u));
      assert forall u :: 0 <= u < NUM_TERMINALS ==> Page(u) == old(Page(u));
    }

    /** The cursor of the displayed terminal goes back over a blanked cell, unless it is at the top left. */
    method EraseBack()
      requires Valid()
      modifies this`terms, this`cursorX, this`cursorY, vram
      ensures Valid() && Screen(shown) == Erase(old(Screen(shown)))
      ensures terms == old(terms)[shown := old(terms)[shown].(x := terms[shown].x, y := terms[shown].y)]
      ensures forall u :: 0 <= u < NUM_TERMINALS && u != shown ==> Screen(u) == old(Screen(u))
    {
      var x, y := terms[shown].x, terms[shown].y;
      if x == 0 {
        if y == 0 {
          return;
        }
        y := y - 1;
        x := NUM_COLS - 1;
      } else {
        x := x - 1;
      }
      WriteCell(shown, NUM_COLS * y + x, BLANK);
      SetPosition(shown, x, y);
    }

    /**
      terminal_read, once it has stopped waiting: the first waiting characters are handed over and the
      rest move up.  A negative count is compared as unsigned, so it takes all that is waiting.
    */
    method Read(t: int, count: int) returns (out: seq<Byte>)
      requires Valid() && 0 <= t < NUM_TERMINALS
      modifies this`terms
      ensures Valid() && old(Pending(t)) == out + Pending(t)
      ensures |out| == if count < 0 then |old(Pending(t))| else Min(Min(count, 128), |old(Pending(t))|)
      ensures forall u :: 0 <= u < NUM_TERMINALS && u != t ==> terms[u] == old(terms[u])
      ensures terms[t].x == old(terms[t].x) && terms[t].y == old(terms[t].y)
                && terms[t].videoStart == old(terms[t].videoStart)
    {
      var n := if count > TERMINAL_BUFFER_SIZE then TERMINAL_BUFFER_SIZE else count;
      var taken := terms[t].chars;
      if 0 <= n < taken {
        taken := n;
      }
      var buffer := terms[t].buffer;
      ghost var before := buffer;
      out := buffer[..taken];
      for i := 0 to TERMINAL_BUFFER_SIZE - taken
        invariant |buffer| == TERMINAL_BUFFER_SIZE
        invariant forall j :: 0 <= j < i ==> buffer[j] == before[j + taken]
        invariant forall j :: i <= j < TERMINAL_BUFFER_SIZE ==> buffer[j] == before[j]
      {
        buffer := buffer[i := buffer[i + taken]];
      }
      terms := terms[t := terms[t].(buffer := buffer, chars := terms[t].chars - taken)];
    }

    // ----- runs -----

    ghost function Screens(): seq<Text>
      requires Valid()
      reads this, vram
    {
      [Screen(0), Screen(1), Screen(2)]
    }

    method Step(e: Event)
      requires Valid() && OnTerminal(e)
      modifies this`terms, this`shown, this`cursorX, this`cursorY, this`pte, vram
      ensures Valid() && Screens() == StepScreens(old(Screens()), e)
      ensures forall i, t :: 0 <= i < NUM_MAX_PROCESSES && 0 <= t < NUM_TERMINALS && old(Shows(i, t)) ==> Shows(i, t)
    {
      match e {
        case PutOn(t, c) => Output(t, c);
        case ClearOn(t) => Wipe(t);
        case SwitchTo(t, running, slot) => var _ := Switch(t, running, slot);
      }
    }

    method Output(t: int, c: Byte)
      requires Valid() && 0 <= t < NUM_TERMINALS
      modifies this`terms, this`cursorX, this`cursorY, vram
      ensures Valid() && Screens() == old(Screens())[t := Put(old(Screen(t)), Glyph(c, ATTRIB))]
    {
      Putc(c, ATTRIB, t);
    }

    method Wipe(t: int)
      requires Valid() && 0 <= t < NUM_TERMINALS
      modifies this`terms, this`cursorX, this`cursorY, vram
      ensures Valid() && Screens() == old(Screens())[t := CLEARED]
    {
      Clear(t);
    }

    /**
      Any interleaving of output, clearing and switching is what it would be on three separate screens,
      and every mapped user page shows the terminal it showed at the start.
    */
    method Run(events: seq<Event>)
      requires Valid() && forall k :: 0 <= k < |events| ==> OnTerminal(events[k])
      modifies this`terms, this`shown, this`cursorX, this`cursorY, this`pte, vram
      ensures Valid() && Screens() == RunScreens(old(Screens()), events)
      ensures forall i, t :: 0 <= i < NUM_MAX_PROCESSES && 0 <= t < NUM_TERMINALS && old(Shows(i, t)) ==> Shows(i, t)
    {
      assert events[..0] == [];
      for k := 0 to |events|
        invariant Valid() && Screens() == RunScreens(old(Screens()), events[..k])
        invariant forall i, t :: 0 <= i < NUM_MAX_PROCESSES && 0 <= t < NUM_TERMINALS && old(Shows(i, t)) ==>
            Shows(i, t)
      {
        assert events[..k + 1][..k] == events[..k];
        Step(events[k]);
      }
      assert events[..|events|] == events;
    }
  }

  /** What backspace does to the screen. */
  function Erase(s: Text): Text
    requires s.Valid()
  {
    if s.x == 0 && s.y == 0 then s
    else
      var x, y := if s.x == 0 then NUM_COLS - 1 else s.x - 1, if s.x == 0 then s.y - 1 else s.y;
      Text(s.cells[NUM_COLS * y + x := BLANK], x, y)
  }

  /**
    Backspace after a character brings the cursor back to where the character went and blanks that cell;
    if the screen has scrolled, one row further up.
  */
  lemma EraseUndoesPut(s: Text, g: Glyph, i: int)
    requires s.Valid() && g.ch != 10 && g.ch != 13 && 0 <= i < CELLS
    ensures var t, up := Erase(Put(s, g)), if s.x == 79 && s.y == 24 then 1 else 0;
            && t.Valid() && t.x == s.x && t.y == s.y - up
            && t.cells[i] == if i == 80 * t.y + t.x || i + 80 * up >= CELLS then BLANK else s.cells[i + 80 * up]
  {
  }

  /** There is nothing to take back at the top left. */
  lemma EraseAtTopLeft(s: Text)
    requires s.Valid()
    ensures Erase(s) == s <==> (s.x == 0 && s.y == 0)
  {
  }

  datatype Event =
    | PutOn(terminal: int, c: Byte)
    | ClearOn(terminal: int)
    | SwitchTo(next: int, running: bool, slot: bool)

  predicate OnTerminal(e: Event) { e.SwitchTo? || 0 <= e.terminal < NUM_TERMINALS }

  ghost predicate ValidScreens(screens: seq<Text>) {
    |screens| == NUM_TERMINALS && forall t :: 0 <= t < NUM_TERMINALS ==> screens[t].Valid()
  }

  /** Three separate screens: switching does not concern them. */
  ghost function StepScreens(screens: seq<Text>, e: Event): (r: seq<Text>)
    requires ValidScreens(screens) && OnTerminal(e)
    ensures ValidScreens(r)
  {
    match e
    case PutOn(t, c) => screens[t := Put(screens[t], Glyph(c, ATTRIB))]
    case ClearOn(t) => screens[t := CLEARED]
    case SwitchTo(_, _, _) => screens
  }

  ghost function RunScreens(screens: seq<Text>, events: seq<Event>): (r: seq<Text>)
    requires ValidScreens(screens) && forall k :: 0 <= k < |events| ==> OnTerminal(events[k])
    ensures ValidScreens(r)
    decreases |events|
  {
    if events == [] then screens
    else StepScreens(RunScreens(screens, events[..|events| - 1]), events[|events| - 1])
  }

  predicate Cleared(events: seq<Event>, t: int) { ClearOn(t) in events }

  /** What was put on terminal t since it was last cleared. */
  function Since(events: seq<Event>, t: int): seq<Glyph>
    decreases |events|
  {
    if events == [] then []
    else
      var e, before := events[|events| - 1], events[..|events| - 1];
      if e == ClearOn(t) then []
      else if e.PutOn? && e.terminal == t then Since(before, t) + [Glyph(e.c, ATTRIB)]
      else Since(before, t)
  }

  /**
    In every run, a terminal that has been cleared shows exactly the last 25 lines of what was put on it
    since, whatever happened on the other terminals and however often the display was switched.
  */
  lemma {:induction false} ClearedTerminalShowsItsOutput(screens: seq<Text>, events: seq<Event>, t: int)
    requires ValidScreens(screens) && (forall k :: 0 <= k < |events| ==> OnTerminal(events[k]))
    requires 0 <= t < NUM_TERMINALS && Cleared(events, t)
    ensures RunScreens(screens, events)[t] == PutAll(CLEARED, Since(events, t))
    ensures ShowsEnd(RunScreens(screens, events)[t], Lines(Since(events, t)))
    decreases |events|
  {
    var e, before := events[|events| - 1], events[..|events| - 1];
    if e != ClearOn(t) {
      assert events == before + [e] && ClearOn(t) in before;
      ClearedTerminalShowsItsOutput(screens, before, t);
      if e.PutOn? && e.terminal == t {
        var out := Since(events, t);
        assert out[..|out| - 1] == Since(before, t);
      }
    }
    ScreenIsEndOfPage(Since(events, t));
  }

  /** The entry e when terminals `shown` and `next` change places. */
  function Redirected(e: int, shown: int, next: int): int {
    if !Mapped(e) then e
    else if Frame(e) == VIDEO_BASE then e % PAGE + Storage(shown)
    else if Frame(e) == Storage(next) then e % PAGE + VIDEO_BASE
    else e
  }

  /** Redirecting moves an entry along with its terminal and keeps its flags. */
  lemma RedirectKeeps(e: int, shown: int, next: int, t: int)
    requires 0 <= shown < NUM_TERMINALS && 0 <= next < NUM_TERMINALS && shown != next && 0 <= t < NUM_TERMINALS
    ensures Redirected(e, shown, next) % PAGE == e % PAGE
    ensures Mapped(Redirected(e, shown, next)) <==> Mapped(e)
    ensures Mapped(e) && Frame(e) == (if t == shown then VIDEO_BASE else Storage(t)) ==>
              Frame(Redirected(e, shown, next)) == if t == next then VIDEO_BASE else Storage(t)
  {
    SameFlags(e, 0xB9 + shown);
    SameFlags(e, 0xB8);
  }

  lemma SameFlags(e: int, k: int)
    ensures (e % 0x1000 + 0x1000 * k) % 0x1000 == e % 0x1000 && (e % 0x1000 + 0x1000 * k) % 8 == e % 8
  {
    var q, r := e / 0x1000, e % 0x1000;
    assert r + 0x1000 * k == r + 8 * (0x200 * k) && e == r + 8 * (0x200 * q);
  }

  /** Output with the usual attribute. */
  function PutAllFrom(s: Text, out: seq<Byte>): (r: Text)
    requires s.Valid()
    ensures r.Valid()
    decreases |out|
  {
    if out == [] then s else Put(PutAllFrom(s, out[..|out| - 1]), Glyph(out[|out| - 1], ATTRIB))
  }
}
