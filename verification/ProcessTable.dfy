/**
  The process table of mp3/student-distrib: what execute, halt, a new-terminal shell and the scheduler do
  to it, as functions on its value, and what every run of them keeps.
*/
module ProcessTable {
  import opened Finite
  import opened KernelLimits

  /** Registers and entry points are opaque numbers. */
  type Context = int

  /** A context to continue with, in user mode (a shell's first run) or in the kernel. */
  datatype Resume = Resume(context: Context, user: bool)

  datatype Pcb = Pcb(parent: int, terminal: int, saved: Resume, parentContext: Context)

  /**
    pcbs[p] belongs to process p (1 to 6; 0 is the boot stack's own block); active[p - 1] is its slot;
    top[t] is the active process of terminal t, or -1.
  */
  datatype Table = Table(active: seq<bool>, pcbs: seq<Pcb>, top: seq<int>, curr: int, iter: int, shown: int)

  ghost predicate Wellformed(s: Table) {
    |s.active| == NUM_MAX_PROCESSES && |s.pcbs| == NUM_MAX_PROCESSES + 1 && |s.top| == NUM_TERMINALS
    && 0 <= s.iter < NUM_TERMINALS && 0 <= s.shown < NUM_TERMINALS && 0 <= s.curr <= NUM_MAX_PROCESSES
    && 0 <= s.pcbs[s.curr].terminal < NUM_TERMINALS
  }

  /** The lowest free slot as a 1-based process number, or 0 if all are taken. */
  function FreeFrom(active: seq<bool>, k: int): (p: int)
    requires |active| == NUM_MAX_PROCESSES && 0 <= k <= NUM_MAX_PROCESSES
    ensures p == 0 ==> forall i :: k <= i < NUM_MAX_PROCESSES ==> active[i]
    ensures p != 0 ==> k < p <= NUM_MAX_PROCESSES && !active[p - 1] && forall i :: k <= i < p - 1 ==> active[i]
    decreases NUM_MAX_PROCESSES - k
  {
    if k == NUM_MAX_PROCESSES then 0 else if !active[k] then k + 1 else FreeFrom(active, k + 1)
  }

  function Free(s: Table): (p: int)
    requires Wellformed(s)
    ensures p == 0 <==> forall i :: 0 <= i < NUM_MAX_PROCESSES ==> s.active[i]
    ensures p != 0 ==> LowestFree(s.active, p)
  {
    FreeFrom(s.active, 0)
  }

  /** Slot p, counted from 1, is free and all slots before it are taken. */
  predicate LowestFree(active: seq<bool>, p: int) {
    1 <= p <= |active| && !active[p - 1] && forall i :: 0 <= i < p - 1 ==> active[i]
  }

  /** execute: on failure (no slot, or the program cannot be loaded) the table is unchanged. */
  function Execute(s: Table, loads: bool, context: Context): Table
    requires Wellformed(s)
  {
    var p := Free(s);
    if p == 0 || !loads then s
    else
      var t := s.pcbs[s.curr].terminal;
      s.(active := s.active[p - 1 := true],
         pcbs := s.pcbs[p := Pcb(s.curr, t, s.pcbs[p].saved, context)],
         top := s.top[t := p],
         curr := p)
  }

  /** halt: a root shell is started again; any other process hands over to its parent. */
  function Halt(s: Table): Table
    requires Wellformed(s) && 0 < s.curr
  {
    var me := s.pcbs[s.curr];
    if me.parent == 0 then s
    else s.(top := s.top[me.terminal := me.parent], active := s.active[s.curr - 1 := false], curr := me.parent)
  }

  /** switch_terminal: shows terminal t and starts a shell on it if nothing runs there. */
  function SwitchTo(s: Table, t: int, entry: Context): Table
    requires Wellformed(s)
  {
    if t < 0 || t >= NUM_TERMINALS || t == s.shown then s
    else if s.top[t] != -1 then s.(shown := t)
    else
      var p := Free(s);
      if p == 0 then s
      else s.(active := s.active[p - 1 := true],
              pcbs := s.pcbs[p := Pcb(0, t, Resume(entry, true), 0)],
              top := s.top[t := p],
              shown := t)
  }

  predicate StartsShell(s: Table, t: int)
    requires Wellformed(s)
  {
    0 <= t < NUM_TERMINALS && t != s.shown && s.top[t] == -1 && exists i :: 0 <= i < NUM_MAX_PROCESSES && !s.active[i]
  }

  /** The first terminal after k, going round, on which something runs. */
  function NextLive(top: seq<int>, k: int, tries: nat): (t: int)
    requires |top| == NUM_TERMINALS && 0 <= k < NUM_TERMINALS
    ensures 0 <= t < NUM_TERMINALS
    decreases tries
  {
    var n := (k + 1) % NUM_TERMINALS;
    if top[n] != -1 || tries == 0 then n else NextLive(top, n, tries - 1)
  }

  /** schedule: saves the running process and goes on with the top process of the next live terminal. */
  function Schedule(s: Table, context: Context): Table
    requires Wellformed(s)
  {
    var t := NextLive(s.top, s.iter, 2);
    s.(pcbs := s.pcbs[s.curr := s.pcbs[s.curr].(saved := Resume(context, false))], iter := t, curr := s.top[t])
  }

  /** What schedule continues with. */
  function Resumed(s: Table, context: Context): (r: Resume)
    requires Wellformed(s) && 0 <= Schedule(s, context).curr <= NUM_MAX_PROCESSES
  {
    var s' := Schedule(s, context);
    s'.pcbs[s'.curr].saved
  }

  // ----- the chains -----

  type Chains = seq<seq<int>>

  /**
    chains[t] runs from the top process of terminal t along the parent links to its root shell.  The
    chains are disjoint, each stays on its terminal, and together they hold exactly the active slots;
    the running process is at the top of the scheduled terminal's chain.
  */
  ghost predicate Chained(s: Table, chains: Chains) {
    && Wellformed(s) && |chains| == NUM_TERMINALS
    && (forall t :: 0 <= t < NUM_TERMINALS ==> TerminalChain(s, chains[t], t))
    && (forall p :: 1 <= p <= NUM_MAX_PROCESSES && s.active[p - 1] ==>
          0 <= s.pcbs[p].terminal < NUM_TERMINALS && p in chains[s.pcbs[p].terminal])
    && 1 <= s.curr && s.iter == s.pcbs[s.curr].terminal && s.top[s.iter] == s.curr
  }

  ghost predicate TerminalChain(s: Table, chain: seq<int>, t: int)
    requires Wellformed(s) && 0 <= t < NUM_TERMINALS
  {
    && Distinct(chain)
    && s.top[t] == (if chain == [] then -1 else chain[0])
    && forall k :: 0 <= k < |chain| ==>
         1 <= chain[k] <= NUM_MAX_PROCESSES && s.active[chain[k] - 1]
         && s.pcbs[chain[k]].terminal == t
         && s.pcbs[chain[k]].parent == Below(chain, k)
  }

  /** The process under position k of a chain; 0 under the root shell. */
  function Below(chain: seq<int>, k: int): int
    requires 0 <= k < |chain|
  {
    if k + 1 < |chain| then chain[k + 1] else 0
  }

  /** Where each terminal other than the scheduled one will go on. */
  ghost predicate SuspendedAt(s: Table, susp: seq<Resume>) {
    && Wellformed(s) && |susp| == NUM_TERMINALS
    && forall t :: 0 <= t < NUM_TERMINALS && t != s.iter && 1 <= s.top[t] <= NUM_MAX_PROCESSES ==>
        s.pcbs[s.top[t]].saved == susp[t]
  }

  /** The table once the kernel has executed its first shell. */
  function Boot(pcbs: seq<Pcb>): Table
    requires |pcbs| == NUM_MAX_PROCESSES + 1 && pcbs[0].terminal == 0
  {
    Execute(Table([false, false, false, false, false, false], pcbs, [-1, -1, -1], 0, 0, 0), true, 0)
  }

  lemma BootChained(pcbs: seq<Pcb>)
    requires |pcbs| == NUM_MAX_PROCESSES + 1 && pcbs[0].terminal == 0
    ensures Chained(Boot(pcbs), [[1], [], []])
    ensures forall susp: seq<Resume> :: |susp| == NUM_TERMINALS ==> SuspendedAt(Boot(pcbs), susp)
  {
    var a := [false, false, false, false, false, false];
    assert FreeFrom(a, 0) == 1;
  }

  /** A chain is not affected by changes elsewhere. */
  lemma ChainKept(s: Table, s': Table, chain: seq<int>, t: int)
    requires Wellformed(s) && Wellformed(s') && 0 <= t < NUM_TERMINALS && TerminalChain(s, chain, t)
    requires s'.top[t] == s.top[t]
    requires forall p :: p in chain ==> 1 <= p <= NUM_MAX_PROCESSES ==>
               s'.active[p - 1] == s.active[p - 1] && s'.pcbs[p].parent == s.pcbs[p].parent
                   && s'.pcbs[p].terminal == s.pcbs[p].terminal
    ensures TerminalChain(s', chain, t)
  {
    forall k | 0 <= k < |chain|
      ensures 1 <= chain[k] <= NUM_MAX_PROCESSES && s'.active[chain[k] - 1] && s'.pcbs[chain[k]].terminal == t
      ensures s'.pcbs[chain[k]].parent == Below(chain, k)
    {
      assert chain[k] in chain;
    }
  }

  /** What the chains say about the running process. */
  lemma RunningOnTop(s: Table, chains: Chains)
    requires Chained(s, chains)
    ensures |chains[s.iter]| > 0 && chains[s.iter][0] == s.curr && s.active[s.curr - 1]
    ensures s.curr !in chains[s.iter][1..]
    ensures var q := s.pcbs[s.curr].parent;
            if |chains[s.iter]| == 1 then q == 0
            else q == chains[s.iter][1] && 1 <= q <= NUM_MAX_PROCESSES && q != s.curr && s.pcbs[q].terminal == s.iter
  {
    var chain := chains[s.iter];
    assert TerminalChain(s, chain, s.iter);
    assert s.pcbs[chain[0]].parent == Below(chain, 0);
    if |chain| > 1 { assert s.pcbs[chain[1]].terminal == s.iter; }
  }

  /** A free slot is in no chain. */
  lemma FreeInNoChain(s: Table, chain: seq<int>, t: int, p: int)
    requires Wellformed(s) && 0 <= t < NUM_TERMINALS && TerminalChain(s, chain, t)
    requires 1 <= p <= NUM_MAX_PROCESSES && !s.active[p - 1]
    ensures p !in chain
  {
    forall k | 0 <= k < |chain| ensures chain[k] != p {
      assert s.active[chain[k] - 1];
    }
  }

  /** A new process on top of chain t, with the old top as its parent. */
  lemma ChainGrows(s: Table, s': Table, chain: seq<int>, t: int, p: int)
    requires Wellformed(s) && Wellformed(s') && 0 <= t < NUM_TERMINALS && TerminalChain(s, chain, t)
    requires 1 <= p <= NUM_MAX_PROCESSES && p !in chain && s'.active == s.active[p - 1 := true] && s'.top[t] == p
    requires s'.pcbs == s.pcbs[p := s'.pcbs[p]] && s'.pcbs[p].terminal == t
    requires s'.pcbs[p].parent == if chain == [] then 0 else chain[0]
    ensures TerminalChain(s', [p] + chain, t)
  {
    var c := [p] + chain;
    forall k | 0 <= k < |c|
      ensures 1 <= c[k] <= NUM_MAX_PROCESSES && s'.active[c[k] - 1] && s'.pcbs[c[k]].terminal == t
      ensures s'.pcbs[c[k]].parent == Below(c, k)
    {
      if k > 0 { assert c[k] == chain[k - 1] && chain[k - 1] in chain && Below(c, k) == Below(chain, k - 1); }
    }
  }

  lemma ExecuteChained(s: Table, chains: Chains, loads: bool, context: Context) returns (chains': Chains)
    requires Chained(s, chains)
    ensures Chained(Execute(s, loads, context), chains')
    ensures chains' == (if Free(s) == 0 || !loads then chains else chains[s.iter := [Free(s)] + chains[s.iter]])
  {
    chains' := chains;
    var p := Free(s);
    if p != 0 && loads {
      var s' := Execute(s, loads, context);
      chains' := chains[s.iter := [p] + chains[s.iter]];
      RunningOnTop(s, chains);
      assert Wellformed(s');
      forall t | 0 <= t < NUM_TERMINALS ensures TerminalChain(s', chains'[t], t) {
        ExecuteTerminal(s, chains, context, t, p);
      }
      AllCovered(s, s', chains, chains', p, s.iter);
    }
  }

  lemma ExecuteTerminal(s: Table, chains: Chains, context: Context, t: int, p: int)
    requires Chained(s, chains) && 0 <= t < NUM_TERMINALS && p == Free(s) != 0 && Wellformed(Execute(s, true, context))
    ensures TerminalChain(Execute(s, true, context), if t == s.iter then [p] + chains[t] else chains[t], t)
  {
    assert TerminalChain(s, chains[t], t);
    FreeInNoChain(s, chains[t], t, p);
    if t == s.iter {
      RunningOnTop(s, chains);
      ChainGrows(s, Execute(s, true, context), chains[t], t, p);
    } else {
      ChainKept(s, Execute(s, true, context), chains[t], t);
    }
  }

  lemma AllCovered(s: Table, s': Table, chains: Chains, chains': Chains, p: int, t: int)
    requires Chained(s, chains) && Wellformed(s') && 0 <= t < NUM_TERMINALS && 1 <= p <= NUM_MAX_PROCESSES
    requires chains' == chains[t := [p] + chains[t]]
    requires s'.active == s.active[p - 1 := true] && s'.pcbs == s.pcbs[p := s'.pcbs[p]] && s'.pcbs[p].terminal == t
    ensures forall q :: 1 <= q <= NUM_MAX_PROCESSES && s'.active[q - 1] ==>
              0 <= s'.pcbs[q].terminal < NUM_TERMINALS && q in chains'[s'.pcbs[q].terminal]
  {
    forall q | 1 <= q <= NUM_MAX_PROCESSES && s'.active[q - 1]
      ensures 0 <= s'.pcbs[q].terminal < NUM_TERMINALS && q in chains'[s'.pcbs[q].terminal]
    {
      if q != p { assert q in chains[s.pcbs[q].terminal]; }
    }
  }

  lemma HaltChained(s: Table, chains: Chains) returns (chains': Chains)
    requires Chained(s, chains)
    ensures Chained(Halt(s), chains')
    ensures chains' == (if s.pcbs[s.curr].parent == 0 then chains else chains[s.iter := chains[s.iter][1..]])
  {
    chains' := chains;
    RunningOnTop(s, chains);
    if s.pcbs[s.curr].parent != 0 {
      var s' := Halt(s);
      chains' := chains[s.iter := chains[s.iter][1..]];
      assert Wellformed(s');
      forall t | 0 <= t < NUM_TERMINALS ensures TerminalChain(s', chains'[t], t) {
        HaltTerminal(s, chains, t);
      }
      StillCovered(s, chains);
    }
  }

  lemma HaltTerminal(s: Table, chains: Chains, t: int)
    requires Chained(s, chains) && s.pcbs[s.curr].parent != 0 && 0 <= t < NUM_TERMINALS && Wellformed(Halt(s))
    ensures TerminalChain(Halt(s), if t == s.iter then chains[t][1..] else chains[t], t)
  {
    assert TerminalChain(s, chains[t], t);
    if t != s.iter {
      NotOnOtherChain(s, chains, t);
      ChainKept(s, Halt(s), chains[t], t);
    } else {
      RunningOnTop(s, chains);
      ChainShrinks(s, Halt(s), chains[t], t);
    }
  }

  /** The running process is on its own terminal's chain only. */
  lemma NotOnOtherChain(s: Table, chains: Chains, t: int)
    requires Chained(s, chains) && 0 <= t < NUM_TERMINALS && t != s.iter
    ensures s.curr !in chains[t]
  {
    assert TerminalChain(s, chains[t], t);
    forall k | 0 <= k < |chains[t]| ensures chains[t][k] != s.curr {
      assert s.pcbs[chains[t][k]].terminal == t;
    }
  }

  lemma StillCovered(s: Table, chains: Chains)
    requires Chained(s, chains) && s.pcbs[s.curr].parent != 0
    ensures forall q :: 1 <= q <= NUM_MAX_PROCESSES && Halt(s).active[q - 1] ==>
              0 <= s.pcbs[q].terminal < NUM_TERMINALS && q in chains[s.iter := chains[s.iter][1..]][s.pcbs[q].terminal]
  {
    RunningOnTop(s, chains);
    forall q | 1 <= q <= NUM_MAX_PROCESSES && Halt(s).active[q - 1]
      ensures 0 <= s.pcbs[q].terminal < NUM_TERMINALS && q in chains[s.iter := chains[s.iter][1..]][s.pcbs[q].terminal]
    {
      assert q != s.curr && s.active[q - 1] && q in chains[s.pcbs[q].terminal];
    }
  }

  lemma ChainShrinks(s: Table, s': Table, chain: seq<int>, t: int)
    requires Wellformed(s) && Wellformed(s') && 0 <= t < NUM_TERMINALS && TerminalChain(s, chain, t) && |chain| > 1
    requires s'.active == s.active[chain[0] - 1 := false] && s'.pcbs == s.pcbs && s'.top[t] == chain[1]
    ensures TerminalChain(s', chain[1..], t)
  {
    var c := chain[1..];
    forall k | 0 <= k < |c|
      ensures 1 <= c[k] <= NUM_MAX_PROCESSES && s'.active[c[k] - 1] && s'.pcbs[c[k]].terminal == t
      ensures s'.pcbs[c[k]].parent == Below(c, k)
    {
      assert c[k] == chain[k + 1] && chain[0] != chain[k + 1] && Below(c, k) == Below(chain, k + 1);
    }
  }

  lemma SwitchChained(s: Table, chains: Chains, t: int, entry: Context) returns (chains': Chains)
    requires Chained(s, chains)
    ensures Chained(SwitchTo(s, t, entry), chains')
    ensures chains' == (if StartsShell(s, t) then chains[t := [Free(s)] + chains[t]] else chains)
    ensures forall k :: 0 <= k < NUM_TERMINALS && chains[k] != [] ==> chains'[k] == chains[k]
  {
    chains' := chains;
    var s' := SwitchTo(s, t, entry);
    var p := Free(s);
    RunningOnTop(s, chains);
    var starts := StartsShell(s, t);
    if starts {
      assert TerminalChain(s, chains[t], t);
      chains' := chains[t := [p] + chains[t]];
    }
    forall k | 0 <= k < NUM_TERMINALS ensures TerminalChain(s', chains'[k], k) {
      if starts { FreeInNoChain(s, chains[k], k, p); }
      if starts && k == t { ChainGrows(s, s', chains[k], k, p); } else { ChainKept(s, s', chains[k], k); }
    }
    if starts { AllCovered(s, s', chains, chains', p, t); }
  }

  /** The search of schedule ends on a live terminal, and meets none before it. */
  lemma NextLiveFound(top: seq<int>, k: int)
    requires |top| == NUM_TERMINALS && 0 <= k < NUM_TERMINALS && top[k] != -1
    ensures var t := NextLive(top, k, 2);
            top[t] != -1 && forall j :: 0 <= j < NUM_TERMINALS && Distance(k, j) < Distance(k, t) ==> top[j] == -1
  {
  }

  /** Ticks of the round robin from terminal k to terminal t: 1, 2 or 3. */
  function Distance(k: int, t: int): int { if t > k then t - k else t - k + NUM_TERMINALS }

  lemma ScheduleChained(s: Table, chains: Chains, context: Context)
    requires Chained(s, chains)
    ensures Chained(Schedule(s, context), chains)
    ensures 1 <= Schedule(s, context).curr <= NUM_MAX_PROCESSES
  {
    var s' := Schedule(s, context);
    NextLiveFound(s.top, s.iter);
    TopsActive(s, chains);
    forall t | 0 <= t < NUM_TERMINALS ensures TerminalChain(s', chains[t], t) {
      ChainKept(s, s', chains[t], t);
    }
  }

  /** Only the tops of other terminals matter to where those will go on; no step but a tick changes them. */
  lemma ExecuteSuspends(s: Table, chains: Chains, susp: seq<Resume>, loads: bool, context: Context)
    requires Chained(s, chains) && SuspendedAt(s, susp)
    ensures SuspendedAt(Execute(s, loads, context), susp)
  {
    TopsActive(s, chains);
  }

  lemma HaltSuspends(s: Table, chains: Chains, susp: seq<Resume>)
    requires Chained(s, chains) && SuspendedAt(s, susp)
    ensures SuspendedAt(Halt(s), susp)
  {
    RunningOnTop(s, chains);
  }

  lemma SwitchSuspends(s: Table, chains: Chains, susp: seq<Resume>, t: int, entry: Context)
    requires Chained(s, chains) && SuspendedAt(s, susp)
    ensures SuspendedAt(SwitchTo(s, t, entry), if StartsShell(s, t) then susp[t := Resume(entry, true)] else susp)
  {
    TopsActive(s, chains);
    var s' := SwitchTo(s, t, entry);
    var susp' := if StartsShell(s, t) then susp[t := Resume(entry, true)] else susp;
    forall k | 0 <= k < NUM_TERMINALS && k != s'.iter && 1 <= s'.top[k] <= NUM_MAX_PROCESSES
      ensures s'.pcbs[s'.top[k]].saved == susp'[k]
    {
      if s'.top[k] == s.top[k] { assert s'.pcbs[s.top[k]] == s.pcbs[s.top[k]]; }
    }
  }

  lemma TopsActive(s: Table, chains: Chains)
    requires Chained(s, chains)
    ensures forall t :: 0 <= t < NUM_TERMINALS && s.top[t] != -1 ==>
              1 <= s.top[t] <= NUM_MAX_PROCESSES && s.active[s.top[t] - 1] && s.pcbs[s.top[t]].terminal == t
  {
    forall t | 0 <= t < NUM_TERMINALS && s.top[t] != -1
      ensures 1 <= s.top[t] <= NUM_MAX_PROCESSES && s.active[s.top[t] - 1] && s.pcbs[s.top[t]].terminal == t
    {
      assert TerminalChain(s, chains[t], t);
    }
  }

  /**
    A tick remembers where the running terminal stops and continues the next one exactly where that one
    was last stopped (or at its shell's entry, if it has not run yet).
  */
  lemma ScheduleResumes(s: Table, chains: Chains, susp: seq<Resume>, context: Context)
    requires Chained(s, chains) && SuspendedAt(s, susp)
    ensures var s', susp' := Schedule(s, context), susp[s.iter := Resume(context, false)];
            1 <= s'.curr <= NUM_MAX_PROCESSES && SuspendedAt(s', susp') && Resumed(s, context) == susp'[s'.iter]
  {
    TopsActive(s, chains);
    NextLiveFound(s.top, s.iter);
  }

  // ----- runs -----

  datatype Event =
    | DoExecute(loads: bool, context: Context)
    | DoHalt
    | DoSwitch(terminal: int, entry: Context)
    | DoTick(context: Context)

  ghost function Step(s: Table, e: Event): Table
    requires Wellformed(s) && 0 < s.curr
  {
    match e
    case DoExecute(loads, context) => Execute(s, loads, context)
    case DoHalt => Halt(s)
    case DoSwitch(t, entry) => SwitchTo(s, t, entry)
    case DoTick(context) => Schedule(s, context)
  }

  /** The chains after an event. */
  ghost function ChainsAfter(s: Table, chains: Chains, e: Event): Chains
    requires Wellformed(s) && |chains| == NUM_TERMINALS
  {
    match e
    case DoExecute(loads, _) => if Free(s) == 0 || !loads then chains else chains[s.iter := [Free(s)] + chains[s.iter]]
    case DoHalt =>
      if s.pcbs[s.curr].parent == 0 || chains[s.iter] == [] then chains else chains[s.iter := chains[s.iter][1..]]
    case DoSwitch(t, _) => if StartsShell(s, t) then chains[t := [Free(s)] + chains[t]] else chains
    case DoTick(_) => chains
  }

  lemma StepChained(s: Table, chains: Chains, e: Event) returns (chains': Chains)
    requires Chained(s, chains)
    ensures Chained(Step(s, e), chains') && chains' == ChainsAfter(s, chains, e)
    ensures forall t :: 0 <= t < NUM_TERMINALS && chains[t] != [] ==> chains'[t] != []
  {
    RunningOnTop(s, chains);
    match e
    case DoExecute(loads, context) => chains' := ExecuteChained(s, chains, loads, context);
    case DoHalt => chains' := HaltChained(s, chains);
    case DoSwitch(t, entry) => chains' := SwitchChained(s, chains, t, entry);
    case DoTick(context) => chains' := chains; ScheduleChained(s, chains, context);
  }

  /** s' can be reached from s by some run of the given events. */
  ghost predicate Run(s: Table, events: seq<Event>, s': Table)
    decreases |events|
  {
    if events == [] then s' == s
    else Wellformed(s) && 0 < s.curr && Run(Step(s, events[0]), events[1..], s')
  }

  lemma {:induction false} RunOneMore(s: Table, events: seq<Event>, k: nat, mid: Table)
    requires k < |events| && Run(s, events[..k], mid) && Wellformed(mid) && 0 < mid.curr
    ensures Run(s, events[..k + 1], Step(mid, events[k]))
    decreases k
  {
    if k == 0 {
      assert events[..1] == [events[0]] && events[..1][1..] == [];
    } else {
      assert events[..k][1..] == events[1..][..k - 1] && events[..k + 1][1..] == events[1..][..k];
      RunOneMore(Step(s, events[0]), events[1..], k - 1, mid);
    }
  }

  /** In every run the parent links form the chains, and a live terminal stays live. */
  lemma {:induction false} RunChained(s: Table, chains: Chains, events: seq<Event>, s': Table) returns (chains': Chains)
    requires Chained(s, chains) && Run(s, events, s')
    ensures Chained(s', chains')
    ensures forall t :: 0 <= t < NUM_TERMINALS && s.top[t] != -1 ==> s'.top[t] != -1
    decreases |events|
  {
    if events == [] {
      chains' := chains;
    } else {
      var c := StepChained(s, chains, events[0]);
      chains' := RunChained(Step(s, events[0]), c, events[1..], s');
      forall t | 0 <= t < NUM_TERMINALS && s.top[t] != -1 ensures s'.top[t] != -1 {
        assert TerminalChain(s, chains[t], t);
        assert TerminalChain(Step(s, events[0]), c[t], t);
      }
    }
  }

  /**
    The terminals as independent machines: each remembers only where it was last stopped, or its
    shell's entry.
  */
  ghost function Suspend(s: Table, susp: seq<Resume>, e: Event): seq<Resume>
    requires Wellformed(s) && |susp| == NUM_TERMINALS
  {
    match e
    case DoTick(context) => susp[s.iter := Resume(context, false)]
    case DoSwitch(t, entry) => if StartsShell(s, t) then susp[t := Resume(entry, true)] else susp
    case _ => susp
  }

  ghost function SuspendAll(s: Table, susp: seq<Resume>, events: seq<Event>): (r: seq<Resume>)
    requires |susp| == NUM_TERMINALS
    ensures |r| == NUM_TERMINALS
    decreases |events|
  {
    if events == [] || !Wellformed(s) || s.curr <= 0 then susp
    else SuspendAll(Step(s, events[0]), Suspend(s, susp, events[0]), events[1..])
  }

  lemma StepSuspends(s: Table, chains: Chains, susp: seq<Resume>, e: Event)
    requires Chained(s, chains) && SuspendedAt(s, susp)
    ensures SuspendedAt(Step(s, e), Suspend(s, susp, e))
  {
    match e
    case DoExecute(loads, context) => ExecuteSuspends(s, chains, susp, loads, context);
    case DoHalt => HaltSuspends(s, chains, susp);
    case DoSwitch(t, entry) => SwitchSuspends(s, chains, susp, t, entry);
    case DoTick(context) => ScheduleResumes(s, chains, susp, context);
  }

  /** After any run, each terminal will go on where its independent machine says. */
  lemma {:induction false} RunSuspended(s: Table, chains: Chains, susp: seq<Resume>, events: seq<Event>, s': Table)
    requires Chained(s, chains) && SuspendedAt(s, susp) && Run(s, events, s')
    ensures SuspendedAt(s', SuspendAll(s, susp, events))
    decreases |events|
  {
    if events == [] {
    } else {
      var c := StepChained(s, chains, events[0]);
      StepSuspends(s, chains, susp, events[0]);
      RunSuspended(Step(s, events[0]), c, Suspend(s, susp, events[0]), events[1..], s');
    }
  }

  /**
    After any run, the next tick continues exactly what the independent machines say: although blocks
    are reused by later processes, no saved context is lost or mixed up.
  */
  lemma RunResumes(s: Table, chains: Chains, susp: seq<Resume>, events: seq<Event>, s': Table,
      context: Context)
    requires Chained(s, chains) && SuspendedAt(s, susp) && Run(s, events, s')
    ensures Wellformed(s') && 0 <= Schedule(s', context).curr <= NUM_MAX_PROCESSES
    ensures var where := SuspendAll(s, susp, events)[s'.iter := Resume(context, false)];
            Resumed(s', context) == where[Schedule(s', context).iter]
  {
    var chains' := RunChained(s, chains, events, s');
    RunSuspended(s, chains, susp, events, s');
    ScheduleResumes(s', chains', SuspendAll(s, susp, events), context);
  }

  // ----- what a parent continues with -----

  /**
    The contexts that the callers on each terminal saved when they executed the next program, the most
    recent one first: execute pushes, halt pops.
  */
  ghost function Called(s: Table, calls: seq<seq<Context>>, e: Event): (r: seq<seq<Context>>)
    requires Wellformed(s) && |calls| == NUM_TERMINALS
    ensures |r| == NUM_TERMINALS
  {
    match e
    case DoExecute(loads, context) =>
      if Free(s) == 0 || !loads then calls else calls[s.iter := [context] + calls[s.iter]]
    case DoHalt => if calls[s.iter] == [] then calls else calls[s.iter := calls[s.iter][1..]]
    case _ => calls
  }

  ghost function CalledAll(s: Table, calls: seq<seq<Context>>, events: seq<Event>): (r: seq<seq<Context>>)
    requires |calls| == NUM_TERMINALS
    ensures |r| == NUM_TERMINALS
    decreases |events|
  {
    if events == [] || !Wellformed(s) || s.curr <= 0 then calls
    else CalledAll(Step(s, events[0]), Called(s, calls, events[0]), events[1..])
  }

  /** Each process but a root shell holds the context of its caller. */
  ghost predicate CallsKept(s: Table, chains: Chains, calls: seq<seq<Context>>) {
    && Wellformed(s) && |chains| == |calls| == NUM_TERMINALS
    && forall t :: 0 <= t < NUM_TERMINALS ==> CallsOf(s, chains[t], calls[t])
  }

  ghost predicate CallsOf(s: Table, chain: seq<int>, calls: seq<Context>)
    requires Wellformed(s)
  {
    && |calls| == (if chain == [] then 0 else |chain| - 1)
    && forall k :: 0 <= k < |calls| ==> 1 <= chain[k] <= NUM_MAX_PROCESSES && s.pcbs[chain[k]].parentContext == calls[k]
  }

  /** A chain whose blocks' caller contexts have not changed. */
  lemma CallsUntouched(s: Table, s': Table, chain: seq<int>, calls: seq<Context>)
    requires Wellformed(s) && Wellformed(s') && CallsOf(s, chain, calls)
    requires forall p :: p in chain && 1 <= p <= NUM_MAX_PROCESSES ==>
               s'.pcbs[p].parentContext == s.pcbs[p].parentContext
    ensures CallsOf(s', chain, calls)
  {
    forall k | 0 <= k < |calls|
      ensures 1 <= chain[k] <= NUM_MAX_PROCESSES && s'.pcbs[chain[k]].parentContext == calls[k]
    {
      assert chain[k] in chain;
    }
  }

  /** A process pushed on a chain by its caller. */
  lemma CallPushed(s: Table, s': Table, chain: seq<int>, calls: seq<Context>, p: int, context: Context)
    requires Wellformed(s) && Wellformed(s') && CallsOf(s, chain, calls) && chain != [] && p !in chain
    requires 1 <= p <= NUM_MAX_PROCESSES && s'.pcbs == s.pcbs[p := s'.pcbs[p]]
    requires s'.pcbs[p].parentContext == context
    ensures CallsOf(s', [p] + chain, [context] + calls)
  {
    CallsUntouched(s, s', chain, calls);
    var c, cs := [p] + chain, [context] + calls;
    forall k | 0 <= k < |cs| ensures 1 <= c[k] <= NUM_MAX_PROCESSES && s'.pcbs[c[k]].parentContext == cs[k] {
      if k > 0 {
        assert c[k] == chain[k - 1] && cs[k] == calls[k - 1];
      }
    }
  }

  lemma CallPopped(s: Table, chain: seq<int>, calls: seq<Context>)
    requires Wellformed(s) && CallsOf(s, chain, calls) && |chain| > 1
    ensures CallsOf(s, chain[1..], calls[1..])
  {
    forall k | 0 <= k < |calls[1..]|
      ensures 1 <= chain[1..][k] <= NUM_MAX_PROCESSES && s.pcbs[chain[1..][k]].parentContext == calls[1..][k]
    {
      assert chain[1..][k] == chain[k + 1] && calls[1..][k] == calls[k + 1];
    }
  }

  lemma ExecuteCalls(s: Table, chains: Chains, calls: seq<seq<Context>>, context: Context, t: int)
    requires Chained(s, chains) && CallsKept(s, chains, calls) && 0 <= t < NUM_TERMINALS && Free(s) != 0
    requires Wellformed(Execute(s, true, context))
    ensures var e := DoExecute(true, context);
            CallsOf(Execute(s, true, context), ChainsAfter(s, chains, e)[t], Called(s, calls, e)[t])
  {
    var s' := Execute(s, true, context);
    assert TerminalChain(s, chains[t], t) && CallsOf(s, chains[t], calls[t]);
    FreeInNoChain(s, chains[t], t, Free(s));
    RunningOnTop(s, chains);
    if t == s.iter {
      CallPushed(s, s', chains[t], calls[t], Free(s), context);
    } else {
      CallsUntouched(s, s', chains[t], calls[t]);
    }
  }

  lemma HaltCalls(s: Table, chains: Chains, calls: seq<seq<Context>>, t: int)
    requires Chained(s, chains) && CallsKept(s, chains, calls) && 0 <= t < NUM_TERMINALS && Wellformed(Halt(s))
    ensures CallsOf(Halt(s), ChainsAfter(s, chains, DoHalt)[t], Called(s, calls, DoHalt)[t])
  {
    RunningOnTop(s, chains);
    assert CallsOf(s, chains[t], calls[t]);
    if t == s.iter && s.pcbs[s.curr].parent != 0 {
      CallPopped(s, chains[t], calls[t]);
    }
    CallsUntouched(s, Halt(s), ChainsAfter(s, chains, DoHalt)[t], Called(s, calls, DoHalt)[t]);
  }

  lemma SwitchCalls(s: Table, chains: Chains, calls: seq<seq<Context>>, u: int, entry: Context, t: int)
    requires Chained(s, chains) && CallsKept(s, chains, calls) && 0 <= t < NUM_TERMINALS
    requires Wellformed(SwitchTo(s, u, entry))
    ensures CallsOf(SwitchTo(s, u, entry), ChainsAfter(s, chains, DoSwitch(u, entry))[t], calls[t])
  {
    var s' := SwitchTo(s, u, entry);
    assert TerminalChain(s, chains[t], t) && CallsOf(s, chains[t], calls[t]);
    if StartsShell(s, u) {
      FreeInNoChain(s, chains[t], t, Free(s));
      if t != u {
        CallsUntouched(s, s', chains[t], calls[t]);
      }
    } else {
      CallsUntouched(s, s', chains[t], calls[t]);
    }
  }

  lemma StepCalls(s: Table, chains: Chains, calls: seq<seq<Context>>, e: Event)
    requires Chained(s, chains) && CallsKept(s, chains, calls) && Wellformed(Step(s, e))
    ensures CallsKept(Step(s, e), ChainsAfter(s, chains, e), Called(s, calls, e))
  {
    forall t | 0 <= t < NUM_TERMINALS
      ensures CallsOf(Step(s, e), ChainsAfter(s, chains, e)[t], Called(s, calls, e)[t])
    {
      assert CallsOf(s, chains[t], calls[t]);
      match e
      case DoExecute(loads, context) =>
        if loads && Free(s) != 0 {
          ExecuteCalls(s, chains, calls, context, t);
        }
      case DoHalt => HaltCalls(s, chains, calls, t);
      case DoSwitch(u, entry) => SwitchCalls(s, chains, calls, u, entry, t);
      case DoTick(context) => CallsUntouched(s, Step(s, e), chains[t], calls[t]);
    }
  }

  lemma {:induction false} RunCalls(s: Table, chains: Chains, calls: seq<seq<Context>>, events: seq<Event>, s': Table)
    returns (chains': Chains)
    requires Chained(s, chains) && CallsKept(s, chains, calls) && Run(s, events, s')
    ensures Chained(s', chains') && CallsKept(s', chains', CalledAll(s, calls, events))
    decreases |events|
  {
    if events == [] {
      chains' := chains;
    } else {
      var c := StepChained(s, chains, events[0]);
      StepCalls(s, chains, calls, events[0]);
      chains' := RunCalls(Step(s, events[0]), c, Called(s, calls, events[0]), events[1..], s');
    }
  }

  /**
    After any run, a process that halts hands back exactly the context that its caller saved in the
    execute that started it, whatever was executed, halted and scheduled since.
  */
  lemma HaltHandsBack(s: Table, chains: Chains, calls: seq<seq<Context>>, events: seq<Event>, s': Table)
    requires Chained(s, chains) && CallsKept(s, chains, calls) && Run(s, events, s')
    ensures Wellformed(s') && 0 < s'.curr
    ensures var saved := CalledAll(s, calls, events)[s'.iter];
            if s'.pcbs[s'.curr].parent == 0 then saved == []
            else saved != [] && s'.pcbs[s'.curr].parentContext == saved[0]
  {
    var chains' := RunCalls(s, chains, calls, events, s');
    RunningOnTop(s', chains');
    assert CallsOf(s', chains'[s'.iter], CalledAll(s, calls, events)[s'.iter]);
  }

  // ----- fairness -----

  function Ticks(events: seq<Event>): int
    decreases |events|
  {
    if events == [] then 0 else (if events[0].DoTick? then 1 else 0) + Ticks(events[1..])
  }

  /** Some tick of the run goes on with terminal t. */
  ghost predicate Scheduled(s: Table, events: seq<Event>, t: int)
    decreases |events|
  {
    events != [] && Wellformed(s) && 0 < s.curr
    && ((events[0].DoTick? && Step(s, events[0]).iter == t) || Scheduled(Step(s, events[0]), events[1..], t))
  }

  /** A live terminal is scheduled within three ticks, whatever else happens in between. */
  lemma {:induction false} LiveIsScheduled(s: Table, chains: Chains, events: seq<Event>, t: int)
    requires Chained(s, chains) && 0 <= t < NUM_TERMINALS && s.top[t] != -1
    requires Ticks(events) >= Distance(s.iter, t)
    ensures Scheduled(s, events, t)
    decreases |events|
  {
    if events != [] {
      var e := events[0];
      var s1 := Step(s, e);
      var c := StepChained(s, chains, e);
      assert TerminalChain(s, chains[t], t);
      assert TerminalChain(s1, c[t], t);
      TickCloser(s, chains, e, t);
      if !(e.DoTick? && s1.iter == t) {
        LiveIsScheduled(s1, c, events[1..], t);
      }
    }
  }

  /** Only ticks move the round robin, and a tick does not pass a live terminal. */
  lemma TickCloser(s: Table, chains: Chains, e: Event, t: int)
    requires Chained(s, chains) && 0 <= t < NUM_TERMINALS && s.top[t] != -1
    ensures var s1 := Step(s, e);
            if e.DoTick? then s1.iter == t || Distance(s1.iter, t) < Distance(s.iter, t) else s1.iter == s.iter
  {
    if e.DoTick? { NextLiveFound(s.top, s.iter); }
  }

  /** Halting a process that was just executed leaves the table as it was, but for the freed block. */
  lemma HaltUndoesExecute(s: Table, chains: Chains, context: Context)
    requires Chained(s, chains) && Free(s) != 0
    ensures var s' := Halt(Execute(s, true, context));
            && s' == s.(pcbs := s.pcbs[Free(s) := s'.pcbs[Free(s)]])
            && Execute(s, true, context).pcbs[Free(s)].parentContext == context
  {
    var p := Free(s);
    var s1 := Execute(s, true, context);
    assert s1.pcbs[p].parent == s.curr != 0;
    assert s.active[p - 1 := true][p - 1 := false] == s.active;
    assert s.top[s.iter := p][s.iter := s.curr] == s.top;
  }

  // ----- finding a block from the stack -----

  const P_PROCESS_BASE := 0x800000
  const P_PROCESS_OFFSET := 0x2000

  function ProcessPcb(pid: int): int { P_PROCESS_BASE - (pid + 1) * P_PROCESS_OFFSET }

  function KernelStackBottom(pid: int): int { P_PROCESS_BASE - pid * P_PROCESS_OFFSET - 4 }

  /** getCurrentProcessPCB: the stack pointer with its low 13 bits cleared. */
  function MaskedStack(esp: int): int { esp - esp % P_PROCESS_OFFSET }

  /** Masking a stack address gives the block of pid exactly for the addresses of pid's own 8 kB. */
  lemma StackFindsPcb(pid: int, esp: int)
    ensures MaskedStack(esp) == ProcessPcb(pid) <==> ProcessPcb(pid) <= esp < ProcessPcb(pid) + P_PROCESS_OFFSET
    ensures MaskedStack(KernelStackBottom(pid)) == ProcessPcb(pid)
  {
    assert ProcessPcb(pid) % P_PROCESS_OFFSET == 0;
  }
}
