/**
  The same operations as the kernel performs them in place: syscalls.c, terminal.c and scheduler.c of
  mp3/student-distrib.
*/
module Processes {
  import opened KernelLimits
  import opened ProcessTable

  class Kernel {
    const active: array<bool>
    const pcbs: array<Pcb>
    const top: array<int>
    var curr: int
    var iter: int
    var shown: int

    ghost function Now(): Table
      reads this, active, pcbs, top
    {
      Table(active[..], pcbs[..], top[..], curr, iter, shown)
    }

    ghost predicate Valid()
      reads this, active, pcbs, top
    {
      Wellformed(Now())
    }

    /** The kernel before its first process; the boot stack's block belongs to terminal 0. */
    constructor ()
      ensures Valid() && curr == 0 && pcbs[0].terminal == 0 && fresh(active) && fresh(pcbs) && fresh(top)
      ensures Now() == Table([false, false, false, false, false, false], pcbs[..], [-1, -1, -1], 0, 0, 0)
    {
      active := new bool[NUM_MAX_PROCESSES](_ => false);
      pcbs := new Pcb[NUM_MAX_PROCESSES + 1](_ => Pcb(0, 0, Resume(0, false), 0));
      top := new int[NUM_TERMINALS](_ => -1);
      curr, iter, shown := 0, 0, 0;
    }

    /** The lowest free slot, counted from 1, or 0. */
    method FindFree() returns (p: int)
      requires Valid()
      ensures p == Free(Now())
      ensures p == 0 <==> forall i :: 0 <= i < NUM_MAX_PROCESSES ==> active[i]
      ensures p != 0 ==> 1 <= p <= NUM_MAX_PROCESSES && !active[p - 1] && forall i :: 0 <= i < p - 1 ==> active[i]
    {
      var i := 0;
      while i < NUM_MAX_PROCESSES && active[i]
        invariant 0 <= i <= NUM_MAX_PROCESSES && FreeFrom(active[..], 0) == FreeFrom(active[..], i)
        invariant forall k :: 0 <= k < i ==> active[k]
        decreases NUM_MAX_PROCESSES - i
      {
        i := i + 1;
      }
      p := if i == NUM_MAX_PROCESSES then 0 else i + 1;
    }

    /**
      execute, up to the jump into the new program; false when it returns -1 to its caller.  The program
      runs in the lowest free slot, on top of its caller and on its caller's terminal.
    */
    method Execute(loads: bool, context: Context) returns (ok: bool)
      requires Valid()
      modifies this`curr, active, pcbs, top
      ensures Valid() && Now() == ProcessTable.Execute(old(Now()), loads, context)
      ensures ok <==> loads && exists i :: 0 <= i < NUM_MAX_PROCESSES && !old(active[i])
      ensures !ok ==> Now() == old(Now())
      ensures ok ==> LowestFree(old(active[..]), curr) && active[..] == old(active[..])[curr - 1 := true]
      ensures ok ==> var t := old(pcbs[curr].terminal);
                     && pcbs[curr] == Pcb(old(curr), t, old(pcbs[..])[curr].saved, context)
                     && top[..] == old(top[..])[t := curr]
    {
      var p := FindFree();
      if p == 0 || !loads {
        return false;
      }
      active[p - 1] := true;
      var t := pcbs[curr].terminal;
      pcbs[p] := Pcb(curr, t, pcbs[p].saved, context);
      top[t] := p;
      curr := p;
      ok := true;
    }

    /** halt: what the caller continues with is the parent's saved context, or None for a restarted shell. */
    method Halt() returns (restarted: bool, back: Context)
      requires Valid() && 0 < curr && 0 <= pcbs[curr].parent <= NUM_MAX_PROCESSES
      requires pcbs[curr].parent != 0 ==> 0 <= pcbs[pcbs[curr].parent].terminal < NUM_TERMINALS
      modifies this`curr, active, top
      ensures Valid() && Now() == ProcessTable.Halt(old(Now()))
      ensures restarted <==> old(pcbs[curr].parent) == 0
      ensures restarted ==> Now() == old(Now())
      ensures !restarted ==> back == old(pcbs[curr].parentContext) && curr == old(pcbs[curr].parent)
      ensures !restarted ==> active[..] == old(active[..])[old(curr) - 1 := false]
      ensures !restarted ==> top[..] == old(top[..])[old(pcbs[curr].terminal) := curr]
    {
      var me := pcbs[curr];
      back := me.parentContext;
      restarted := me.parent == 0;
      if !restarted {
        top[me.terminal] := me.parent;
        active[curr - 1] := false;
        curr := me.parent;
      }
    }

    /**
      switch_terminal, as far as the process table is concerned.  A terminal on which something runs is
      shown; another one is shown with a new shell in the lowest free slot, or not at all if there is none.
    */
    method SwitchTerminal(t: int, entry: Context)
      requires Valid()
      modifies this`shown, active, pcbs, top
      ensures Now() == SwitchTo(old(Now()), t, entry)
      ensures 0 <= t < NUM_TERMINALS && (old(top[t]) != -1 || exists i :: 0 <= i < NUM_MAX_PROCESSES && !old(active[i]))
              ==> shown == t
      ensures if shown != old(shown) && old(top[..])[shown] == -1
              then
                && LowestFree(old(active[..]), top[t]) && active[..] == old(active[..])[top[t] - 1 := true]
                && pcbs[top[t]] == Pcb(0, t, Resume(entry, true), 0) && shown == t
              else active[..] == old(active[..]) && pcbs[..] == old(pcbs[..]) && top[..] == old(top[..])
    {
      if t < 0 || t > 2 || t == shown {
        return;
      }
      if top[t] != -1 {
        shown := t;
        return;
      }
      var p := FindFree();
      if p == 0 {
        return;
      }
      pcbs[p] := Pcb(0, t, Resume(entry, true), 0);
      active[p - 1] := true;
      top[t] := p;
      shown := t;
    }

    /** schedule; its search ends because the running process's own terminal is live. */
    method Schedule(context: Context) returns (resumed: Resume)
      requires Valid() && top[iter] != -1
      requires forall t :: 0 <= t < NUM_TERMINALS && top[t] != -1 ==> 0 <= top[t] <= NUM_MAX_PROCESSES
      modifies this`curr, this`iter, pcbs
      ensures Now() == ProcessTable.Schedule(old(Now()), context) && 0 <= curr <= NUM_MAX_PROCESSES
      ensures resumed == Resumed(old(Now()), context)
      ensures curr == top[iter] && resumed == pcbs[curr].saved
      ensures pcbs[..] == old(pcbs[..])[old(curr) := old(pcbs[curr]).(saved := Resume(context, false))]
    {
      ghost var s, k0 := Now(), iter;
      pcbs[curr] := pcbs[curr].(saved := Resume(context, false));
      iter := (iter + 1) % NUM_TERMINALS;
      var pid := top[iter];
      while pid == -1
        invariant 0 <= iter < NUM_TERMINALS && pid == top[iter]
        invariant 1 <= Distance(k0, iter) <= 3
        invariant NextLive(s.top, k0, 2) == (if top[iter] != -1 then iter
            else NextLive(s.top, iter, 2 - Distance(k0, iter)))
        modifies this`iter
        decreases 3 - Distance(k0, iter)
      {
        iter := (iter + 1) % NUM_TERMINALS;
        pid := top[iter];
      }
      resumed := pcbs[pid].saved;
      curr := pid;
    }

    // ----- runs -----

    /** The kernel executes its first shell: from here on the parent links form chains. */
    method Boot()
      requires Valid() && curr == 0 && pcbs[0].terminal == 0
      requires Now() == Table([false, false, false, false, false, false], pcbs[..], [-1, -1, -1], 0, 0, 0)
      modifies this`curr, active, pcbs, top
      ensures Chained(Now(), [[1], [], []])
      ensures forall susp: seq<Resume> :: |susp| == NUM_TERMINALS ==> SuspendedAt(Now(), susp)
    {
      BootChained(pcbs[..]);
      var ok := Execute(true, 0);
    }

    /** One event on a table whose parent links form chains: every precondition of the operations holds. */
    method Do(e: Event, ghost chains: Chains) returns (ghost chains': Chains)
      requires Chained(Now(), chains)
      modifies this, active, pcbs, top
      ensures Chained(Now(), chains') && Now() == Step(old(Now()), e)
    {
      ghost var s := Now();
      TopsActive(s, chains);
      RunningOnTop(s, chains);
      chains' := StepChained(s, chains, e);
      match e {
        case DoExecute(loads, context) => var ok := Execute(loads, context);
        case DoHalt => var restarted, back := Halt();
        case DoSwitch(t, entry) => SwitchTerminal(t, entry);
        case DoTick(context) => var resumed := Schedule(context);
      }
    }

    /**
      Any run, in place.  The table is what the run on values gives, the parent links still form the
      chains, a live terminal stays live, and the next tick would continue each terminal where the
      independent machines say.
    */
    method Perform(events: seq<Event>, ghost chains: Chains, ghost susp: seq<Resume>) returns (ghost chains': Chains)
      requires Chained(Now(), chains) && SuspendedAt(Now(), susp)
      modifies this, active, pcbs, top
      ensures Chained(Now(), chains') && Run(old(Now()), events, Now())
      ensures forall t :: 0 <= t < NUM_TERMINALS && old(top[t]) != -1 ==> top[t] != -1
      ensures SuspendedAt(Now(), SuspendAll(old(Now()), susp, events))
    {
      ghost var s := Now();
      chains' := chains;
      for k := 0 to |events|
        invariant Chained(Now(), chains') && Run(s, events[..k], Now())
      {
        ghost var mid := Now();
        chains' := Do(events[k], chains');
        RunOneMore(s, events, k, mid);
      }
      assert events[..|events|] == events;
      var _ := RunChained(s, chains, events, Now());
      RunSuspended(s, chains, susp, events, Now());
    }
  }
}
