/**
  A 25x80 text screen with scrolling (terminal_putc and clear_terminal of mp3/student-distrib/terminal.c),
  and the unbounded page of lines of which it shows the end.
*/
module TextCanvas {
  import opened Bytes
  import opened Sequences

  const NUM_COLS := 80
  const NUM_ROWS := 25
  const CELLS := 2000
  const ATTRIB: Byte := 0x7
  const SPACE: Byte := 0x20

  datatype Glyph = Glyph(ch: Byte, attr: Byte)

  const BLANK := Glyph(SPACE, ATTRIB)

  /** The 2000 cells of a screen, row by row, and the cursor. */
  datatype Text = Text(cells: seq<Glyph>, x: int, y: int) {
    ghost predicate Valid() { |cells| == CELLS && 0 <= x < NUM_COLS && 0 <= y < NUM_ROWS }
  }

  predicate NewLine(c: Byte) { c == 10 || c == 13 }

  function Blanks(n: nat): (s: seq<Glyph>)
    ensures |s| == n && forall i :: 0 <= i < n ==> s[i] == BLANK
  {
    if n == 0 then [] else [BLANK] + Blanks(n - 1)
  }

  const CLEARED: Text := Text(Blanks(CELLS), 0, 0)

  /** One row up; the last row becomes blank. */
  function ScrollUp(cells: seq<Glyph>): (r: seq<Glyph>)
    requires |cells| == CELLS
    ensures |r| == CELLS
  {
    cells[NUM_COLS..] + Blanks(NUM_COLS)
  }

  /** Below the last row the screen scrolls and the cursor stays on the last row. */
  function Settle(cells: seq<Glyph>, x: int, y: int): (r: Text)
    requires |cells| == CELLS && 0 <= x < NUM_COLS && 0 <= y <= NUM_ROWS
    ensures r.Valid()
  {
    if y >= NUM_ROWS then Text(ScrollUp(cells), x, NUM_ROWS - 1) else Text(cells, x, y)
  }

  /** The character goes to the cursor, the cursor goes on, and the screen scrolls when it must. */
  function Put(s: Text, g: Glyph): (r: Text)
    requires s.Valid()
    ensures r.Valid()
  {
    var cells := if NewLine(g.ch) then s.cells else s.cells[NUM_COLS * s.y + s.x := g];
    var wrap := NewLine(g.ch) || s.x + 1 >= NUM_COLS;
    var x, y := if wrap then 0 else s.x + 1, if wrap then s.y + 1 else s.y;
    Settle(cells, x, y)
  }

  /** Line feed and carriage return, and only they, start a new line without showing anything. */
  lemma NewLineShowsNothing(s: Text, g: Glyph)
    requires s.Valid() && s.x < NUM_COLS - 1
    ensures Put(s, g).x == 0 <==> g.ch == 10 || g.ch == 13
    ensures Put(s, g).x == 0 && s.y < NUM_ROWS - 1 ==> Put(s, g) == Text(s.cells, 0, s.y + 1)
    ensures Put(s, g).x != 0 ==> Put(s, g).cells[NUM_COLS * s.y + s.x] == g
  {
  }

  function PutAll(s: Text, out: seq<Glyph>): (r: Text)
    requires s.Valid()
    ensures r.Valid()
    decreases |out|
  {
    if out == [] then s else Put(PutAll(s, out[..|out| - 1]), out[|out| - 1])
  }

  // ----- the unbounded page -----

  /** The output laid out in lines of at most 80 glyphs; the last line is the one being written. */
  function Lines(out: seq<Glyph>): (ls: seq<seq<Glyph>>)
    ensures |ls| > 0 && |ls[|ls| - 1]| < NUM_COLS && forall k :: 0 <= k < |ls| ==> |ls[k]| <= NUM_COLS
    decreases |out|
  {
    if out == [] then [[]]
    else
      var ls, g := Lines(out[..|out| - 1]), out[|out| - 1];
      var done, line := ls[..|ls| - 1], ls[|ls| - 1];
      if NewLine(g.ch) then ls + [[]]
      else if |line| + 1 == NUM_COLS then done + [line + [g]] + [[]]
      else done + [line + [g]]
  }

  /** Cell (r,c) of a screen that shows the last 25 lines. */
  function Shown(ls: seq<seq<Glyph>>, r: int, c: int): Glyph
    requires 0 <= r && 0 <= c
  {
    var k := Top(ls) + r;
    if k < |ls| && c < |ls[k]| then ls[k][c] else BLANK
  }

  /** The number of lines that have scrolled off. */
  function Top(ls: seq<seq<Glyph>>): nat { if |ls| <= NUM_ROWS then 0 else |ls| - NUM_ROWS }

  ghost predicate ShowsEnd(s: Text, ls: seq<seq<Glyph>>) {
    && s.Valid() && |ls| > 0
    && s.y == |ls| - 1 - Top(ls) && s.x == |ls[|ls| - 1]|
    && forall r, c :: 0 <= r < NUM_ROWS && 0 <= c < NUM_COLS ==> s.cells[NUM_COLS * r + c] == Shown(ls, r, c)
  }

  lemma CellOf(r: int, c: int)
    requires 0 <= r < NUM_ROWS && 0 <= c < NUM_COLS
    ensures 0 <= NUM_COLS * r + c < CELLS
  {
  }

  /** A new line below: the screen either has room or scrolls. */
  lemma NewLineShown(cells: seq<Glyph>, y: int, ls: seq<seq<Glyph>>)
    requires |cells| == CELLS && |ls| > 0 && y == |ls| - 1 - Top(ls) && 0 <= y < NUM_ROWS
    requires forall r, c :: 0 <= r < NUM_ROWS && 0 <= c < NUM_COLS ==> cells[NUM_COLS * r + c] == Shown(ls, r, c)
    ensures ShowsEnd(Settle(cells, 0, y + 1), ls + [[]])
  {
    var ls' := ls + [[]];
    if y + 1 >= NUM_ROWS {
      forall r, c | 0 <= r < NUM_ROWS && 0 <= c < NUM_COLS
        ensures ScrollUp(cells)[NUM_COLS * r + c] == Shown(ls', r, c)
      {
        if r < NUM_ROWS - 1 {
          assert ScrollUp(cells)[NUM_COLS * r + c] == cells[NUM_COLS * (r + 1) + c];
          assert Shown(ls, r + 1, c) == Shown(ls', r, c);
        }
      }
    } else {
      forall r, c | 0 <= r < NUM_ROWS && 0 <= c < NUM_COLS ensures cells[NUM_COLS * r + c] == Shown(ls', r, c) {
        assert Shown(ls, r, c) == Shown(ls', r, c);
      }
    }
  }

  /** A glyph at the cursor: only that cell changes, on the page as on the screen. */
  lemma GlyphShown(s: Text, ls: seq<seq<Glyph>>, g: Glyph)
    requires ShowsEnd(s, ls)
    ensures var ls' := ls[|ls| - 1 := ls[|ls| - 1] + [g]];
            forall r, c :: 0 <= r < NUM_ROWS && 0 <= c < NUM_COLS ==>
              s.cells[NUM_COLS * s.y + s.x := g][NUM_COLS * r + c] == Shown(ls', r, c)
  {
    var ls' := ls[|ls| - 1 := ls[|ls| - 1] + [g]];
    forall r, c | 0 <= r < NUM_ROWS && 0 <= c < NUM_COLS
      ensures s.cells[NUM_COLS * s.y + s.x := g][NUM_COLS * r + c] == Shown(ls', r, c)
    {
      assert s.cells[NUM_COLS * r + c] == Shown(ls, r, c);
      if NUM_COLS * r + c == NUM_COLS * s.y + s.x { assert r == s.y && c == s.x; }
    }
  }

  /** From a cleared screen, after any output the screen shows exactly the last 25 lines of the page. */
  lemma {:induction false} ScreenIsEndOfPage(out: seq<Glyph>)
    ensures ShowsEnd(PutAll(CLEARED, out), Lines(out))
    decreases |out|
  {
    if out == [] {
      forall r, c | 0 <= r < NUM_ROWS && 0 <= c < NUM_COLS
        ensures CLEARED.cells[NUM_COLS * r + c] == Shown([[]], r, c)
      {
        CellOf(r, c);
      }
    } else {
      var before, g := out[..|out| - 1], out[|out| - 1];
      ScreenIsEndOfPage(before);
      PutShown(PutAll(CLEARED, before), Lines(before), g);
    }
  }

  lemma PutShown(s: Text, ls: seq<seq<Glyph>>, g: Glyph)
    requires ShowsEnd(s, ls)
    ensures var line := ls[|ls| - 1];
            ShowsEnd(Put(s, g), if NewLine(g.ch) then ls + [[]]
                                else if |line| + 1 == NUM_COLS then ls[..|ls| - 1] + [line + [g]] + [[]]
                                else ls[..|ls| - 1] + [line + [g]])
  {
    var line := ls[|ls| - 1];
    if NewLine(g.ch) {
      NewLineShown(s.cells, s.y, ls);
    } else {
      GlyphShown(s, ls, g);
      var ls' := ls[..|ls| - 1] + [line + [g]];
      assert ls' == ls[|ls| - 1 := line + [g]];
      if |line| + 1 == NUM_COLS {
        NewLineShown(s.cells[NUM_COLS * s.y + s.x := g], s.y, ls');
      }
    }
  }

  /** Nothing is lost on the page: its lines hold the printed glyphs, in order. */
  function Printed(out: seq<Glyph>): seq<Glyph>
    decreases |out|
  {
    if out == [] then []
    else Printed(out[..|out| - 1]) + if NewLine(out[|out| - 1].ch) then [] else [out[|out| - 1]]
  }

  lemma {:induction false} LinesHoldOutput(out: seq<Glyph>)
    ensures Concat(Lines(out)) == Printed(out)
    decreases |out|
  {
    if out == [] {
      ConcatLast<Glyph>([], []);
      assert Lines(out) == [] + [[]];
    } else {
      var ls, g := Lines(out[..|out| - 1]), out[|out| - 1];
      var done, line := ls[..|ls| - 1], ls[|ls| - 1];
      LinesHoldOutput(out[..|out| - 1]);
      ConcatLast(ls, []);
      ConcatLast(done, line + [g]);
      ConcatLast(done + [line + [g]], []);
      assert Concat(done) + (line + [g]) == Concat(ls) + [g];
    }
  }
}
