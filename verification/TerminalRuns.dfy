/**
  Whole sessions on the three terminals: output, typing, reading, switching, vidmap, and processes that
  come and go.  Each terminal is a machine of its own; a slot's video page follows the terminal that was
  displayed when vidmap was last called from that slot.
*/
module TerminalRuns {
  import opened Arithmetic
  import opened Bytes
  import opened KernelLimits
  import opened TextCanvas
  import opened Terminals

  datatype Input =
    | Output(event: Event)
    | Type(c: Byte)
    | Rub
    | ReadFrom(terminal: int, count: int)
    | MapVideo(process: int)
    | Occupy(process: int, terminal: int)
    | Leave(process: int)

  predicate Possible(e: Input) {
    match e
    case Output(event) => OnTerminal(event)
    case ReadFrom(t, _) => 0 <= t < NUM_TERMINALS
    case MapVideo(p) => 0 <= p < NUM_MAX_PROCESSES
    case Occupy(p, t) => 0 <= p < NUM_MAX_PROCESSES && 0 <= t < NUM_TERMINALS
    case Leave(p) => 0 <= p < NUM_MAX_PROCESSES
    case _ => true
  }

  /**
    What each terminal shows and has waiting, which one is displayed, the terminal on each slot's video
    page, and the terminal of the process in each slot (-1 for none).
  */
  datatype Session = Session(screens: seq<Text>, pending: seq<seq<Byte>>, shown: int, maps: seq<int>, owner: seq<int>)

  ghost predicate ValidSession(s: Session) {
    && ValidScreens(s.screens) && |s.pending| == NUM_TERMINALS && 0 <= s.shown < NUM_TERMINALS
    && (forall t :: 0 <= t < NUM_TERMINALS ==> |s.pending[t]| <= TERMINAL_BUFFER_SIZE)
    && |s.maps| == |s.owner| == NUM_MAX_PROCESSES
    && (forall i :: 0 <= i < NUM_MAX_PROCESSES ==> -1 <= s.maps[i] < NUM_TERMINALS)
  }

  /** A typed character is kept if there is room; the last place is for a newline. */
  predicate Keeps(pending: seq<Byte>, c: Byte) { |pending| < 127 || (c == NEWLINE && |pending| < 128) }

  /** How many waiting characters a read takes. */
  function Taken(pending: seq<Byte>, count: int): (n: int)
    ensures 0 <= n <= |pending|
  {
    if count < 0 then |pending| else Min(Min(count, 128), |pending|)
  }

  ghost function StepSession(s: Session, e: Input): (r: Session)
    requires ValidSession(s) && Possible(e)
    ensures ValidSession(r)
  {
    match e
    case Output(event) =>
      var shown := if event.SwitchTo? && Switches(event, s.shown) then event.next else s.shown;
      s.(screens := StepScreens(s.screens, event), shown := shown)
    case Type(c) =>
      if Keeps(s.pending[s.shown], c) then
        s.(screens := s.screens[s.shown := Put(s.screens[s.shown], Glyph(c, ATTRIB))],
           pending := s.pending[s.shown := s.pending[s.shown] + [c]])
      else s
    case Rub =>
      var waiting := s.pending[s.shown];
      if waiting == [] then s
      else s.(screens := s.screens[s.shown := Erase(s.screens[s.shown])],
              pending := s.pending[s.shown := waiting[..|waiting| - 1]])
    case ReadFrom(t, count) => s.(pending := s.pending[t := s.pending[t][Taken(s.pending[t], count)..]])
    case MapVideo(p) => s.(maps := s.maps[p := s.shown])
    case Occupy(p, t) => s.(owner := s.owner[p := t])
    case Leave(p) => s.(owner := s.owner[p := -1])
  }

  predicate Switches(e: Event, shown: int)
    requires e.SwitchTo?
  {
    0 <= e.next < NUM_TERMINALS && e.next != shown && (e.running || e.slot)
  }

  ghost function RunSession(s: Session, events: seq<Input>): (r: Session)
    requires ValidSession(s) && forall k :: 0 <= k < |events| ==> Possible(events[k])
    ensures ValidSession(r)
    decreases |events|
  {
    if events == [] then s else StepSession(RunSession(s, events[..|events| - 1]), events[|events| - 1])
  }

  // ----- the console follows the session -----

  /** The page table entry e maps terminal t while `shown` is displayed, or maps nothing if t is -1. */
  ghost predicate MapsTo(e: int, shown: int, t: int) {
    if t == -1 then !Mapped(e) else Mapped(e) && Frame(e) == if t == shown then VIDEO_BASE else Storage(t)
  }

  ghost predicate ShownBy(c: Console, s: Session)
    requires c.Valid() && ValidSession(s)
    reads c, c.vram
  {
    forall t :: 0 <= t < NUM_TERMINALS ==> c.Screen(t) == s.screens[t] && c.Pending(t) == s.pending[t]
  }

  ghost predicate Follows(c: Console, s: Session)
    reads c, c.vram
  {
    && c.Valid() && ValidSession(s) && c.shown == s.shown && ShownBy(c, s)
    && forall i :: 0 <= i < NUM_MAX_PROCESSES ==> MapsTo(c.pte[i], s.shown, s.maps[i])
  }

  lemma MapsFollow(e: int, shown: int, next: int, t: int)
    requires 0 <= shown < NUM_TERMINALS && 0 <= next < NUM_TERMINALS && shown != next && -1 <= t < NUM_TERMINALS
    requires MapsTo(e, shown, t)
    ensures MapsTo(Redirected(e, shown, next), next, t)
  {
    RedirectKeeps(e, shown, next, if t == -1 then 0 else t);
  }

  method Show(c: Console, event: Event, ghost s: Session)
    requires Follows(c, s) && OnTerminal(event)
    modifies c, c.vram
    ensures Follows(c, StepSession(s, Output(event)))
  {
    match event {
      case PutOn(t, ch) => c.Putc(ch, ATTRIB, t);
      case ClearOn(t) => c.Clear(t);
      case SwitchTo(next, running, slot) =>
        ghost var shown := c.shown;
        var switched := c.Switch(next, running, slot);
        forall i | 0 <= i < NUM_MAX_PROCESSES && switched ensures MapsTo(c.pte[i], next, s.maps[i]) {
          MapsFollow(old(c.pte)[i], shown, next, s.maps[i]);
        }
    }
  }

  method Handle(c: Console, e: Input, ghost s: Session)
    requires Follows(c, s) && Possible(e)
    modifies c, c.vram
    ensures Follows(c, StepSession(s, e))
  {
    match e {
      case Output(event) => Show(c, event, s);
      case Type(ch) => var kept := c.KeyPress(ch);
      case Rub => c.Backspace();
      case ReadFrom(t, count) => Take(c, t, count, s);
      case MapVideo(p) => c.Vidmap(p, c.shown);
      case Occupy(p, t) =>
      case Leave(p) =>
    }
  }

  method Take(c: Console, t: int, count: int, ghost s: Session)
    requires Follows(c, s) && 0 <= t < NUM_TERMINALS
    modifies c`terms
    ensures Follows(c, StepSession(s, ReadFrom(t, count)))
  {
    var out := c.Read(t, count);
    assert c.Pending(t) == s.pending[t][|out|..];
  }

  /** Any session: screens, waiting characters and video pages are what the separate machines say. */
  method Perform(c: Console, events: seq<Input>, ghost s: Session)
    requires Follows(c, s) && forall k :: 0 <= k < |events| ==> Possible(events[k])
    modifies c, c.vram
    ensures Follows(c, RunSession(s, events))
  {
    assert events[..0] == [];
    for k := 0 to |events|
      invariant Follows(c, RunSession(s, events[..k]))
    {
      assert events[..k + 1][..k] == events[..k];
      Handle(c, events[k], RunSession(s, events[..k]));
    }
    assert events[..|events|] == events;
  }

  // ----- whose screen is on a process's page? -----

  /** The video page of the process in slot i shows the process's own terminal. */
  ghost predicate ShowsOwn(s: Session, i: int)
    requires ValidSession(s) && 0 <= i < NUM_MAX_PROCESSES
  {
    s.maps[i] != -1 && s.maps[i] == s.owner[i]
  }

  /** The terminal displayed when vidmap was last called from slot i, by whatever process was in it. */
  ghost function LastMapped(s: Session, events: seq<Input>, i: int): int
    requires ValidSession(s) && (forall k :: 0 <= k < |events| ==> Possible(events[k]))
    requires 0 <= i < NUM_MAX_PROCESSES
    decreases |events|
  {
    if events == [] then s.maps[i]
    else
      var before, e := events[..|events| - 1], events[|events| - 1];
      if e == MapVideo(i) then RunSession(s, before).shown else LastMapped(s, before, i)
  }

  /** The terminal of the process that came into slot i last, -1 if it has left. */
  function LastOwner(owner: int, events: seq<Input>, i: int): int
    decreases |events|
  {
    if events == [] then owner
    else
      var before, e := events[..|events| - 1], events[|events| - 1];
      match e
      case Occupy(p, t) => if p == i then t else LastOwner(owner, before, i)
      case Leave(p) => if p == i then -1 else LastOwner(owner, before, i)
      case _ => LastOwner(owner, before, i)
  }

  /** A slot's page and owner change only in the events that say so. */
  lemma OneMoreInput(s: Session, e: Input, i: int)
    requires ValidSession(s) && Possible(e) && 0 <= i < NUM_MAX_PROCESSES
    ensures StepSession(s, e).maps[i] == if e == MapVideo(i) then s.shown else s.maps[i]
    ensures StepSession(s, e).owner[i] == if e.Occupy? && e.process == i then e.terminal
                                          else if e == Leave(i) then -1 else s.owner[i]
  {
  }

  /** What a session leaves in slot i. */
  lemma {:induction false} PagesAndOwners(s: Session, events: seq<Input>, i: int)
    requires ValidSession(s) && (forall k :: 0 <= k < |events| ==> Possible(events[k]))
    requires 0 <= i < NUM_MAX_PROCESSES
    ensures RunSession(s, events).maps[i] == LastMapped(s, events, i)
    ensures RunSession(s, events).owner[i] == LastOwner(s.owner[i], events, i)
    decreases |events|
  {
    if events == [] {
    } else {
      PagesAndOwners(s, events[..|events| - 1], i);
      OneMoreInput(RunSession(s, events[..|events| - 1]), events[|events| - 1], i);
    }
  }

  /**
    In every session, the page in slot i shows its process's own terminal if and only if that terminal was
    the displayed one when vidmap was last called from the slot.  Leaving a slot does not clear its page, so
    the call may have been that of an earlier process.
  */
  lemma ShowsOwnIff(s: Session, events: seq<Input>, i: int)
    requires ValidSession(s) && (forall k :: 0 <= k < |events| ==> Possible(events[k]))
    requires 0 <= i < NUM_MAX_PROCESSES
    ensures ShowsOwn(RunSession(s, events), i) <==>
              LastMapped(s, events, i) != -1 && LastMapped(s, events, i) == LastOwner(s.owner[i], events, i)
  {
    PagesAndOwners(s, events, i);
  }

  /** A program on terminal 0 maps the screen and halts; the next one in its slot, on terminal 1, sees terminal 0. */
  lemma ReusedSlotShowsAnother(s: Session)
    requires ValidSession(s) && s.shown == 0
    ensures var mapped := StepSession(StepSession(s, Occupy(0, 0)), MapVideo(0));
            var s' := StepSession(StepSession(mapped, Leave(0)), Occupy(0, 1));
            s'.owner[0] == 1 && s'.maps[0] == 0 && !ShowsOwn(s', 0)
  {
  }
}
