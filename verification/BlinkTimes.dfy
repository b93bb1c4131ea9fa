/**
  The values in the blink list of mp1/mp1.S: what a tick, an addition, a removal and a synchronization do to
  the list, and when a blinking location is on.
*/
module BlinkTimes {
  import opened Bytes

  type Word = x: int | 0 <= x < 0x1_0000

  datatype Blink = Blink(location: Word, onChar: Byte, offChar: Byte, onLength: Word, offLength: Word,
      countdown: Word, status: Word)

  /** What a blinking location shows. */
  function Char(b: Blink): Byte { if b.status == 0 then b.offChar else b.onChar }

  /** decw: a countdown of 0 goes round. */
  function Decremented(c: Word): Word { if c == 0 then 0xFFFF else c - 1 }

  /** One tick of one structure. */
  function Ticked(b: Blink): Blink {
    var c := Decremented(b.countdown);
    if c != 0 then b.(countdown := c)
    else if b.status == 0 then b.(status := 1, countdown := b.onLength)
    else b.(status := 0, countdown := b.offLength)
  }

  /** A structure as it enters the list. */
  function Started(b: Blink): Blink { b.(countdown := b.onLength, status := 1) }

  /** The second structure after it has been synchronized with the first. */
  function Synced(a: Blink, b: Blink): Blink {
    b.(onLength := a.onLength, offLength := a.offLength, countdown := a.countdown, status := a.status)
  }

  // ----- when is it on? -----

  /** A length in ticks: a 16-bit count of 0 takes 65536 of them. */
  function Lasts(length: Word): (n: nat)
    ensures n > 0
  {
    if length == 0 then 0x1_0000 else length
  }

  function Ticks(b: Blink, k: nat): (r: Blink)
    ensures r == b.(countdown := r.countdown, status := r.status)
  {
    if k == 0 then b else Ticked(Ticks(b, k - 1))
  }

  function Period(b: Blink): (n: nat)
    ensures n > 0
  {
    Lasts(b.onLength) + Lasts(b.offLength)
  }

  /** How many ticks into its period a structure is. */
  ghost predicate InPhase(b: Blink, p: int) {
    && 0 <= p < Period(b)
    && (if p < Lasts(b.onLength) then b.status == 1 && Lasts(b.countdown) == Lasts(b.onLength) - p
        else b.status == 0 && Lasts(b.countdown) == Period(b) - p)
  }

  /** A tick moves a structure on by one. */
  lemma PhaseMoves(b: Blink, p: int)
    requires InPhase(b, p)
    ensures InPhase(Ticked(b), Following(p, Period(b)))
  {
  }

  lemma AtLeastOnce(n: nat, d: int)
    requires d > 0
    ensures n * d >= n
  {
  }

  lemma NextMultiple(n: nat, a: int, b: int)
    requires a < b
    ensures n * b >= n * a + n
  {
    var d := b - a;
    assert n * b == n * a + n * d;
    AtLeastOnce(n, d);
  }

  lemma ModIs(k: nat, n: nat, q: int, r: nat)
    requires r < n && k == n * q + r
    ensures k % n == r
  {
    var q', r' := k / n, k % n;
    assert k == n * q' + r';
    if q < q' {
      NextMultiple(n, q, q');
    } else if q' < q {
      NextMultiple(n, q', q);
    }
  }

  /** The ticks of period n, counted up and starting over. */
  function Phase(k: nat, n: nat): (p: nat)
    requires n > 0
    ensures p < n
  {
    if k == 0 then 0 else Following(Phase(k - 1, n), n)
  }

  function Following(p: nat, n: nat): nat { if p + 1 == n then 0 else p + 1 }

  lemma {:induction false} PhaseForm(k: nat, n: nat) returns (q: nat)
    requires n > 0
    ensures k == n * q + Phase(k, n)
  {
    if k == 0 {
      q := 0;
    } else {
      q := PhaseForm(k - 1, n);
      if Phase(k, n) == 0 {
        assert n * (q + 1) == n * q + n;
        q := q + 1;
      }
    }
  }

  lemma PhaseIsMod(k: nat, n: nat)
    requires n > 0
    ensures Phase(k, n) == k % n
  {
    var q := PhaseForm(k, n);
    ModIs(k, n, q, Phase(k, n));
  }

  /** k ticks after it was added, a structure is k ticks into its periods. */
  lemma {:induction false} PhaseAfter(b: Blink, k: nat)
    ensures InPhase(Ticks(Started(b), k), Phase(k, Period(b)))
  {
    if k == 0 {
    } else {
      var before := Ticks(Started(b), k - 1);
      PhaseAfter(b, k - 1);
      PhaseMoves(before, Phase(k - 1, Period(b)));
    }
  }

  /** For all lengths: on at tick k if and only if k falls in the on part of its period. */
  lemma OnAtTick(b: Blink, k: nat)
    ensures Ticks(Started(b), k).status == (if k % Period(b) < Lasts(b.onLength) then 1 else 0)
    ensures Char(Ticks(Started(b), k)) == if k % Period(b) < Lasts(b.onLength) then b.onChar else b.offChar
  {
    PhaseAfter(b, k);
    PhaseIsMod(k, Period(b));
  }

  // ----- the list -----

  /** Where a location is first in the list; the length of the list if it is not there. */
  function Find(list: seq<Blink>, location: int): (i: nat)
    ensures i <= |list| && (i < |list| ==> list[i].location == location)
    ensures forall j :: 0 <= j < i ==> list[j].location != location
  {
    if list == [] then 0 else if list[0].location == location then 0 else 1 + Find(list[1..], location)
  }

  predicate Listed(list: seq<Blink>, location: int) { Find(list, location) < |list| }

  /** The structure that answers to a location. */
  function At(list: seq<Blink>, location: int): Blink
    requires Listed(list, location)
  {
    list[Find(list, location)]
  }

  /** The place before the removal of what is at place k after it. */
  function Skip(i: nat, k: nat): nat { if k < i then k else k + 1 }

  function Without<T>(s: seq<T>, i: nat): (r: seq<T>)
    requires i < |s|
    ensures |r| == |s| - 1 && forall k :: 0 <= k < |r| ==> r[k] == s[Skip(i, k)]
  {
    seq(|s| - 1, k requires 0 <= k < |s| - 1 => s[Skip(i, k)])
  }

  lemma WithoutOne<T>(s: seq<T>, i: nat)
    requires i < |s|
    ensures Without(s, i) == s[..i] + s[i + 1..]
    ensures multiset(s) == multiset(Without(s, i)) + multiset{s[i]}
  {
    assert s == s[..i] + [s[i]] + s[i + 1..];
  }

  function Removed(list: seq<Blink>, location: int): seq<Blink> {
    var i := Find(list, location);
    if i < |list| then Without(list, i) else list
  }

  function SyncedIn(list: seq<Blink>, first: int, second: int): (r: seq<Blink>)
    ensures |r| == |list|
  {
    var i, j := Find(list, first), Find(list, second);
    if i < |list| && j < |list| then list[j := Synced(list[i], list[j])] else list
  }

  function TickedAll(list: seq<Blink>): (r: seq<Blink>)
    ensures |r| == |list| && forall i :: 0 <= i < |list| ==> r[i] == Ticked(list[i])
  {
    seq(|list|, i requires 0 <= i < |list| => Ticked(list[i]))
  }

  ghost predicate DistinctLocations(list: seq<Blink>) {
    forall i, j :: 0 <= i < j < |list| ==> list[i].location != list[j].location
  }

  /** The first position is the only one. */
  lemma FindIs(list: seq<Blink>, i: nat)
    requires i < |list| && forall j :: 0 <= j < i ==> list[j].location != list[i].location
    ensures Find(list, list[i].location) == i
  {
  }

  // ----- runs -----

  datatype Event =
    | Tick
    | Add(b: Blink)
    | Remove(location: Word)
    | Sync(first: Word, second: Word)

  /** Additions are of locations on the screen that are not in the list yet. */
  predicate Allowed(list: seq<Blink>, e: Event) {
    e.Add? ==> e.b.location < 2000 && !Listed(list, e.b.location)
  }

  function Step(list: seq<Blink>, e: Event): seq<Blink> {
    match e
    case Tick => TickedAll(list)
    case Add(b) => [Started(b)] + list
    case Remove(location) => Removed(list, location)
    case Sync(first, second) => SyncedIn(list, first, second)
  }

  function Run(list: seq<Blink>, events: seq<Event>): seq<Blink>
    decreases |events|
  {
    if events == [] then list else Step(Run(list, events[..|events| - 1]), events[|events| - 1])
  }

  ghost predicate AllowedRun(list: seq<Blink>, events: seq<Event>) {
    forall k :: 0 <= k < |events| ==> Allowed(Run(list, events[..k]), events[k])
  }

  lemma NextEvent(list: seq<Blink>, events: seq<Event>, k: nat)
    requires k < |events| && AllowedRun(list, events)
    ensures Allowed(Run(list, events[..k]), events[k])
    ensures Run(list, events[..k + 1]) == Step(Run(list, events[..k]), events[k])
  {
    assert events[..k + 1][..k] == events[..k];
  }

  // ----- what is listed -----

  ghost predicate NowhereIn(list: seq<Blink>, location: int) {
    forall i :: 0 <= i < |list| ==> list[i].location != location
  }

  lemma StepDistinct(list: seq<Blink>, e: Event)
    requires DistinctLocations(list) && Allowed(list, e)
    ensures DistinctLocations(Step(list, e))
  {
  }

  /** In every allowed run no location is ever listed twice. */
  lemma {:induction false} RunDistinct(list: seq<Blink>, events: seq<Event>)
    requires DistinctLocations(list) && AllowedRun(list, events)
    ensures DistinctLocations(Run(list, events))
    decreases |events|
  {
    if events == [] {
    } else {
      var k := |events| - 1;
      AllowedBefore(list, events, k);
      RunDistinct(list, events[..k]);
      NextEvent(list, events, k);
      StepDistinct(Run(list, events[..k]), events[k]);
      assert events[..k + 1] == events;
    }
  }

  lemma AllowedBefore(list: seq<Blink>, events: seq<Event>, k: nat)
    requires k <= |events| && AllowedRun(list, events)
    ensures AllowedRun(list, events[..k])
  {
    forall j | 0 <= j < k ensures Allowed(Run(list, events[..k][..j]), events[..k][j]) {
      assert events[..k][..j] == events[..j];
    }
  }

  predicate Adds(e: Event, location: int) { e.Add? && e.b.location == location }

  lemma StepStaysGone(list: seq<Blink>, e: Event, location: int)
    requires NowhereIn(list, location) && !Adds(e, location)
    ensures NowhereIn(Step(list, e), location)
  {
  }

  lemma {:induction false} RunStaysGone(list: seq<Blink>, events: seq<Event>, location: int)
    requires NowhereIn(list, location) && forall k :: 0 <= k < |events| ==> !Adds(events[k], location)
    ensures NowhereIn(Run(list, events), location)
    decreases |events|
  {
    if events == [] {
    } else {
      RunStaysGone(list, events[..|events| - 1], location);
      StepStaysGone(Run(list, events[..|events| - 1]), events[|events| - 1], location);
    }
  }

  /** In every allowed run, a location that has been removed is not listed until it is added again. */
  lemma GoneUntilAdded(list: seq<Blink>, before: seq<Event>, location: Word, after: seq<Event>)
    requires DistinctLocations(list) && AllowedRun(list, before)
    requires forall k :: 0 <= k < |after| ==> !Adds(after[k], location)
    ensures NowhereIn(Run(Step(Run(list, before), Remove(location)), after), location)
  {
    RunDistinct(list, before);
    var l := Run(list, before);
    if Listed(l, location) {
      assert l[Find(l, location)].location == location;
    }
    assert NowhereIn(Step(l, Remove(location)), location);
    RunStaysGone(Step(l, Remove(location)), after, location);
  }

  /** The event neither adds nor removes a location, nor synchronizes it with another. */
  predicate LeavesAlone(e: Event, location: int) {
    match e
    case Tick => true
    case Add(b) => b.location != location
    case Remove(l) => l != location
    case Sync(_, second) => second != location
  }

  function CountTicks(events: seq<Event>): nat
    decreases |events|
  {
    if events == [] then 0 else CountTicks(events[..|events| - 1]) + if events[|events| - 1].Tick? then 1 else 0
  }

  lemma RemovedKeeps(list: seq<Blink>, removed: int, location: int)
    requires Listed(list, location) && removed != location
    ensures var list' := Removed(list, removed);
            Listed(list', location) && At(list', location) == At(list, location)
  {
    var i, r := Find(list, location), Find(list, removed);
    if r < |list| {
      FindIs(Removed(list, removed), if r < i then i - 1 else i);
    }
  }

  lemma SyncedKeeps(list: seq<Blink>, first: int, second: int, location: int)
    requires Listed(list, location) && second != location
    ensures var list' := SyncedIn(list, first, second);
            Listed(list', location) && At(list', location) == At(list, location)
  {
    FindIs(SyncedIn(list, first, second), Find(list, location));
  }

  /** Such an event only ticks the structure at that location, or leaves it. */
  lemma StepLeavesAlone(list: seq<Blink>, e: Event, location: int)
    requires Listed(list, location) && LeavesAlone(e, location)
    ensures Listed(Step(list, e), location)
    ensures At(Step(list, e), location) == if e.Tick? then Ticked(At(list, location)) else At(list, location)
  {
    match e
    case Tick => FindIs(TickedAll(list), Find(list, location));
    case Add(b) => FindIs([Started(b)] + list, Find(list, location) + 1);
    case Remove(removed) => RemovedKeeps(list, removed, location);
    case Sync(first, second) => SyncedKeeps(list, first, second, location);
  }

  /** One more event: the structure has ticked as often as there were ticks. */
  lemma OneMoreEvent(list: seq<Blink>, e: Event, location: int, b: Blink, k: nat)
    requires Listed(list, location) && LeavesAlone(e, location) && At(list, location) == Ticks(b, k)
    ensures Listed(Step(list, e), location)
    ensures At(Step(list, e), location) == Ticks(b, if e.Tick? then k + 1 else k)
  {
    StepLeavesAlone(list, e, location);
  }

  lemma RunExtended(list: seq<Blink>, before: seq<Event>, e: Event)
    ensures Run(list, before + [e]) == Step(Run(list, before), e)
    ensures CountTicks(before + [e]) == if e.Tick? then CountTicks(before) + 1 else CountTicks(before)
  {
    assert (before + [e])[..|before|] == before;
  }

  /** In every run that leaves it alone, a structure ticks once a tick and does nothing else. */
  lemma {:induction false} RunLeavesAlone(list: seq<Blink>, events: seq<Event>, location: int)
    requires Listed(list, location) && forall k :: 0 <= k < |events| ==> LeavesAlone(events[k], location)
    ensures Listed(Run(list, events), location)
    ensures At(Run(list, events), location) == Ticks(At(list, location), CountTicks(events))
    decreases |events|
  {
    if events == [] {
    } else {
      var before, e := events[..|events| - 1], events[|events| - 1];
      RunLeavesAlone(list, before, location);
      OneMoreEvent(Run(list, before), e, location, At(list, location), CountTicks(before));
      RunExtended(list, before, e);
      assert before + [e] == events;
    }
  }

  /**
    From its addition on, whatever else happens in the list, a structure that is neither removed nor
    synchronized is on at its k-th tick if and only if k falls in the on part of its period.
  */
  lemma OnInEveryRun(list: seq<Blink>, b: Blink, events: seq<Event>)
    requires forall k :: 0 <= k < |events| ==> LeavesAlone(events[k], b.location)
    ensures var list' := Run(Step(list, Add(b)), events);
            && Listed(list', b.location)
            && Char(At(list', b.location)) ==
               if CountTicks(events) % Period(b) < Lasts(b.onLength) then b.onChar else b.offChar
  {
    var added := Step(list, Add(b));
    FindIs(added, 0);
    RunLeavesAlone(added, events, b.location);
    OnAtTick(b, CountTicks(events));
  }

  /** Synchronized structures are in step from then on: they are on and off together at every tick. */
  lemma {:induction false} SyncedStayInStep(a: Blink, b: Blink, k: nat)
    ensures Ticks(Synced(a, b), k) == Synced(Ticks(a, k), Ticks(b, k))
    ensures Ticks(Synced(a, b), k).status == Ticks(a, k).status
  {
    if k == 0 {
    } else {
      SyncedStayInStep(a, b, k - 1);
    }
  }

  /** What a synchronization leaves at the two locations. */
  lemma AfterSync(list: seq<Blink>, first: int, second: int)
    requires Listed(list, first) && Listed(list, second)
    ensures var list' := SyncedIn(list, first, second);
            && Listed(list', first) && Listed(list', second)
            && At(list', second) == Synced(At(list, first), At(list, second))
            && (first != second ==> At(list', first) == At(list, first))
  {
    FindIs(SyncedIn(list, first, second), Find(list, second));
    if first != second {
      SyncedKeeps(list, first, second, first);
    }
  }

  /**
    Once two listed structures have been synchronized, they are on and off together in every run, until
    one of them is removed or synchronized again.
  */
  lemma SyncedInEveryRun(list: seq<Blink>, first: Word, second: Word, events: seq<Event>)
    requires Listed(list, first) && Listed(list, second)
    requires forall k :: 0 <= k < |events| ==> LeavesAlone(events[k], first) && LeavesAlone(events[k], second)
    ensures var list' := Run(Step(list, Sync(first, second)), events);
            && Listed(list', first) && Listed(list', second)
            && At(list', second) == Synced(At(list', first), At(list', second))
            && Char(At(list', second)) ==
               if At(list', first).status == 0 then At(list, second).offChar else At(list, second).onChar
  {
    var synced := Step(list, Sync(first, second));
    AfterSync(list, first, second);
    RunLeavesAlone(synced, events, first);
    RunLeavesAlone(synced, events, second);
    if first != second {
      SyncedStayInStep(At(list, first), At(list, second), CountTicks(events));
    }
  }
}
