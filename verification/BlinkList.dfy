/** The linked list of blinking locations of mp1/mp1.S and the text screen it pokes. */
module BlinkList {
  import opened Bytes
  import opened BlinkTimes

  /** struct mp1_blink_struct */
  class Node {
    var location: Word
    var onChar: Byte
    var offChar: Byte
    var onLength: Word
    var offLength: Word
    var countdown: Word
    var status: Word
    var next: Node?

    constructor (b: Blink)
      ensures Value() == b && next == null
    {
      location, onChar, offChar := b.location, b.onChar, b.offChar;
      onLength, offLength, countdown, status := b.onLength, b.offLength, b.countdown, b.status;
      next := null;
    }

    /** Takes over lengths, countdown and status of another node. */
    method TakePhase(a: Node)
      modifies this`onLength, this`offLength, this`countdown, this`status
      ensures Value() == Synced(old(a.Value()), old(Value())) && next == old(next)
    {
      onLength := a.onLength;
      offLength := a.offLength;
      countdown := a.countdown;
      status := a.status;
    }

    method SetNext(n: Node?)
      modifies this`next
      ensures next == n && Value() == old(Value())
    {
      next := n;
    }

    /** The node starts in the on part of its period. */
    method Start()
      modifies this`countdown, this`status
      ensures Value() == Started(old(Value()))
    {
      countdown := onLength;
      status := 1;
    }

    function Value(): Blink
      reads this
    {
      Blink(location, onChar, offChar, onLength, offLength, countdown, status)
    }
  }

  class List {
    const screen: array<Byte>
    var head: Node?
    /** The nodes in the order of the list, and what is in them. */
    ghost var nodes: seq<Node>
    ghost var list: seq<Blink>

    /** The chain from head runs through the nodes, each once, and ends in null. */
    ghost predicate Valid()
      reads this, nodes
    {
      && screen.Length == 4000 && head == Link(nodes, 0) && |list| == |nodes|
      && (forall i, j :: 0 <= i < j < |nodes| ==> nodes[i] != nodes[j])
      && (forall i :: 0 <= i < |nodes| ==>
            nodes[i].next == Link(nodes, i + 1) && nodes[i].Value() == list[i] && list[i].location < 2000)
    }

    ghost predicate Showing()
      reads this, screen
    {
      Shown(list, screen[..])
    }

    constructor (text: array<Byte>)
      requires text.Length == 4000
      ensures Valid() && Showing() && list == [] && screen == text
    {
      screen := text;
      head := null;
      nodes, list := [], [];
    }

    /** mp1_search: the first node with the location. */
    method Search(location: Word) returns (n: Node?, ghost i: nat)
      requires Valid()
      ensures n == Link(nodes, Find(list, location)) && i == Find(list, location)
    {
      n, i := head, 0;
      while n != null
        invariant i <= |nodes| && n == Link(nodes, i)
        invariant forall j :: 0 <= j < i ==> list[j].location != location
        decreases |nodes| - i
      {
        if n.location == location {
          FindIs(list, i);
          return;
        }
        n, i := n.next, i + 1;
      }
    }

    method Poke(n: Node)
      requires screen.Length == 4000 && n.location < 2000
      modifies screen
      ensures screen[..] == old(screen[..])[2 * n.location := Char(n.Value())]
    {
      screen[2 * n.location] := if n.status == 0 then n.offChar else n.onChar;
    }

    // ----- the tasklet -----

    /** The body of the tasklet's loop: a node that changes its status is poked. */
    method TickNode(n: Node)
      requires screen.Length == 4000 && n.location < 2000
      modifies n`countdown, n`status, screen
      ensures n.Value() == Ticked(old(n.Value()))
      ensures screen[..] == Poked(old(n.Value()), n.Value(), old(screen[..]))
    {
      n.countdown := Decremented(n.countdown);
      if n.countdown == 0 {
        if n.status != 0 {
          n.status := 0;
          n.countdown := n.offLength;
        } else {
          n.status := 1;
          n.countdown := n.onLength;
        }
        Poke(n);
      }
    }

    /** The i-th node ticks and the list around it stays. */
    method TickAt(n: Node, ghost i: nat)
      requires Valid() && i < |nodes| && n == nodes[i]
      modifies this`list, n`countdown, n`status, screen
      ensures Valid() && list == old(list)[i := Ticked(old(list)[i])]
      ensures screen[..] == Poked(old(list)[i], list[i], old(screen[..]))
    {
      TickNode(n);
      list := list[i := n.Value()];
    }

    /** mp1_rtc_tasklet: every node ticks once, in the order of the list. */
    method Tick()
      requires Valid()
      modifies this`list, nodes, screen
      ensures Valid() && nodes == old(nodes) && list == TickedAll(old(list))
      ensures old(Showing()) ==> Showing()
      ensures OnlyCells(old(list), old(screen[..]), screen[..])
    {
      var n := head;
      ghost var i, before := 0, list;
      while n != null
        invariant i <= |nodes| && n == Link(nodes, i) && Valid() && nodes == old(nodes) && head == old(head)
        invariant list == TickedFirst(before, i) && |list| == |before|
        invariant old(Showing()) ==> Showing()
        invariant OnlyCells(before, old(screen[..]), screen[..])
        decreases |nodes| - i
      {
        OneMoreTick(before, i);
        ghost var text := screen[..];
        TickAt(n, i);
        ShownTicked(TickedFirst(before, i), i, text);
        OneMoreCell(before, i, old(screen[..]), text);
        n, i := n.next, i + 1;
      }
    }

    // ----- additions -----

    /** A new node in front of the list. */
    method PutInFront(n: Node)
      requires Valid() && n !in nodes && n.location < 2000
      modifies this`head, this`nodes, this`list, n`next
      ensures Valid() && nodes == [n] + old(nodes) && list == [old(n.Value())] + old(list)
    {
      n.next := head;
      head := n;
      nodes, list := [n] + nodes, [n.Value()] + list;
    }

    /**
      mp1_ioctl_add: the structure goes to the front of the list, switched on.  `memory` says whether the
      allocation succeeds, `copied` whether the copy from the user does.
    */
    method Add(b: Blink, memory: bool, copied: bool) returns (r: int)
      requires Valid() && b.location < 2000
      modifies this`head, this`nodes, this`list, screen
      ensures Valid() && r == (if memory && copied then 0 else -1)
      ensures nodes == old(nodes) || (|nodes| > 0 && fresh(nodes[0]) && nodes[1..] == old(nodes))
      ensures list == if r == 0 then [Started(b)] + old(list) else old(list)
      ensures screen[..] == if r == 0 then old(screen[..])[2 * b.location := b.onChar] else old(screen[..])
      ensures old(Showing()) && (r == 0 ==> !Listed(old(list), b.location)) ==> Showing()
    {
      if !memory {
        return -1;
      }
      if !copied {
        return -1;
      }
      var n := new Node(b);
      n.Start();
      PutInFront(n);
      Poke(n);
      ShownAdded(old(list), Started(b), old(screen[..]));
      r := 0;
    }

    // ----- removals -----

    /** The node before position i, found by walking from the head. */
    method Before(n: Node, ghost i: nat) returns (p: Node)
      requires Valid() && 0 < i < |nodes| && n == nodes[i]
      ensures p == nodes[i - 1]
    {
      p := head;
      ghost var j := 0;
      while p.next != n
        invariant j < i && p == nodes[j]
        decreases i - j
      {
        p, j := p.next, j + 1;
      }
    }

    /** The predecessor of the i-th node, or the head, now points past it. */
    method PointPast(n: Node, ghost i: nat)
      requires Valid() && i < |nodes| && n == nodes[i]
      modifies this`head, if i > 0 then {nodes[i - 1]} else {}
      ensures nodes == old(nodes) && list == old(list)
      ensures head == if i == 0 then Link(nodes, 1) else nodes[0]
      ensures forall k :: 0 <= k < |nodes| ==> nodes[k].Value() == list[k]
      ensures forall k :: 0 <= k < |nodes| ==> nodes[k].next == Link(nodes, if k + 1 == i then k + 2 else k + 1)
    {
      if n == head {
        head := n.next;
      } else {
        var p := Before(n, i);
        p.SetNext(n.next);
      }
    }

    /** Takes the i-th node out of the chain. */
    method Unlink(n: Node, ghost i: nat)
      requires Valid() && i < |nodes| && n == nodes[i]
      modifies this`head, this`nodes, this`list, nodes
      ensures Valid() && nodes == Without(old(nodes), i) && list == Without(old(list), i)
    {
      ghost var rest, values := Without(nodes, i), Without(list, i);
      PointPast(n, i);
      forall k | 0 <= k < |rest|
        ensures rest[k].next == Link(rest, k + 1) && rest[k].Value() == values[k] && values[k].location < 2000
      {
        assert rest[k] == nodes[Skip(i, k)] && values[k] == list[Skip(i, k)];
        LinkWithout(nodes, i, k);
      }
      nodes, list := rest, values;
    }

    method UnlinkShown(n: Node, ghost i: nat)
      requires Valid() && i < |nodes| && n == nodes[i]
      modifies this`head, this`nodes, this`list, nodes
      ensures Valid() && list == Without(old(list), i) && (old(Showing()) ==> Showing())
      ensures forall m :: m in nodes ==> m in old(nodes)
    {
      Unlink(n, i);
      ShownRemoved(old(list), i, screen[..]);
    }

    /**
      mp1_ioctl_remove: takes out the first structure with the location, and keeps the order of the others.
      If no location was listed twice, this one is not listed any more.
    */
    method Remove(location: Word) returns (r: int)
      requires Valid()
      modifies this`head, this`nodes, this`list, nodes
      ensures Valid() && list == Removed(old(list), location)
      ensures if NowhereIn(old(list), location) then r == -1 && list == old(list) else r == 0
      ensures r == 0 ==> exists i :: TakenOut(old(list), list, location, i)
      ensures r == 0 ==> |list| == |old(list)| - 1
      ensures r == 0 ==> multiset(old(list)) == multiset(list) + multiset{At(old(list), location)}
      ensures DistinctLocations(old(list)) ==> NowhereIn(list, location)
      ensures forall m :: m in nodes ==> m in old(nodes)
      ensures old(Showing()) ==> Showing()
    {
      var n: Node?;
      ghost var i;
      n, i := Search(location);
      if n == null {
        return -1;
      }
      UnlinkShown(n, i);
      FirstTakenOut(old(list), location, i);
      r := 0;
    }

    // ----- synchronization -----

    /** Node j takes over lengths, countdown and status of node i. */
    method CopyPhase(a: Node, b: Node, ghost i: nat, ghost j: nat)
      requires Valid() && i < |nodes| && j < |nodes| && a == nodes[i] && b == nodes[j]
      modifies this`list, b`onLength, b`offLength, b`countdown, b`status
      ensures Valid() && list == old(list)[j := Synced(old(list)[i], old(list)[j])]
    {
      b.TakePhase(a);
      list := list[j := b.Value()];
    }

    /** Copies and shows the new state of node j. */
    method SyncNodes(a: Node, b: Node, ghost i: nat, ghost j: nat)
      requires Valid() && i < |nodes| && j < |nodes| && a == nodes[i] && b == nodes[j]
      modifies this`list, b`onLength, b`offLength, b`countdown, b`status, screen
      ensures Valid() && list == old(list)[j := Synced(old(list)[i], old(list)[j])]
      ensures screen[..] == old(screen[..])[2 * list[j].location := Char(list[j])]
      ensures old(Showing()) ==> Showing()
    {
      CopyPhase(a, b, i, j);
      Poke(b);
      ShownSynced(old(list), i, j, old(screen[..]));
    }

    /** mp1_ioctl_sync: the second structure takes over lengths, countdown and status of the first. */
    method Sync(first: Word, second: Word) returns (r: int)
      requires Valid()
      modifies this`list, nodes, screen
      ensures Valid() && nodes == old(nodes)
      ensures r == (if Listed(old(list), first) && Listed(old(list), second) then 0 else -1)
      ensures list == SyncedIn(old(list), first, second)
      ensures r == 0 ==> var a, b := At(old(list), first), At(old(list), second);
                Listed(list, second) && At(list, second) ==
                Blink(second, b.onChar, b.offChar, a.onLength, a.offLength, a.countdown, a.status)
      ensures screen[..] == if r == 0 then old(screen[..])[2 * second := Char(At(list, second))] else old(screen[..])
      ensures old(Showing()) ==> Showing()
    {
      var a: Node?, b: Node?;
      ghost var i, j;
      a, i := Search(first);
      b, j := Search(second);
      if a == null {
        return -1;
      }
      if b == null {
        return -1;
      }
      SyncedFound(list, first, second);
      SyncNodes(a, b, i, j);
      r := 0;
    }

    // ----- runs -----

    method Do(e: Event)
      requires Valid() && Allowed(list, e)
      modifies this`head, this`nodes, this`list, nodes, screen
      ensures Valid() && list == Step(old(list), e)
      ensures old(Showing()) ==> Showing()
      ensures forall i :: 0 <= i < |nodes| ==> nodes[i] in old(nodes) || fresh(nodes[i])
    {
      match e {
        case Tick => Tick();
        case Add(b) =>
          var r := Add(b, true, true);
          assert forall k :: 0 < k < |nodes| ==> nodes[k] == nodes[1..][k - 1];
        case Remove(location) => var r := Remove(location);
        case Sync(first, second) => var r := Sync(first, second);
      }
    }

    /**
      In every run the list stays a chain without cycles that holds what the events say, and every listed
      location shows the character of its status.
    */
    method Perform(events: seq<Event>)
      requires Valid() && Showing() && AllowedRun(list, events)
      modifies this`head, this`nodes, this`list, nodes, screen
      ensures Valid() && Showing() && list == Run(old(list), events)
    {
      assert events[..0] == [];
      for k := 0 to |events|
        invariant Valid() && Showing() && list == Run(old(list), events[..k])
        invariant forall i :: 0 <= i < |nodes| ==> nodes[i] in old(nodes) || fresh(nodes[i])
      {
        NextEvent(old(list), events, k);
        Do(events[k]);
      }
      assert events[..|events|] == events;
    }
  }

  /** Element i, the first with the location, is not in after; the others are, in the same order. */
  ghost predicate TakenOut(before: seq<Blink>, after: seq<Blink>, location: int, i: int) {
    && 0 <= i < |before| && before[i].location == location && NowhereIn(before[..i], location)
    && after == before[..i] + before[i + 1..]
  }

  lemma FirstTakenOut(list: seq<Blink>, location: int, i: nat)
    requires i == Find(list, location) < |list|
    ensures TakenOut(list, Without(list, i), location, i) && !NowhereIn(list, location)
    ensures multiset(list) == multiset(Without(list, i)) + multiset{At(list, location)}
    ensures DistinctLocations(list) ==> NowhereIn(Without(list, i), location)
  {
    WithoutOne(list, i);
  }

  /** The i-th node, or null past the end. */
  ghost function Link(nodes: seq<Node>, i: nat): Node? { if i < |nodes| then nodes[i] else null }

  lemma SyncedFound(list: seq<Blink>, first: int, second: int)
    requires Listed(list, first) && Listed(list, second)
    ensures var i, j := Find(list, first), Find(list, second);
            && SyncedIn(list, first, second) == list[j := Synced(list[i], list[j])]
            && Find(SyncedIn(list, first, second), second) == j && SyncedIn(list, first, second)[j].location == second
  {
    FindIs(SyncedIn(list, first, second), Find(list, second));
  }

  /** After the removal, node k + 1 comes after node k. */
  lemma LinkWithout(nodes: seq<Node>, i: nat, k: nat)
    requires i < |nodes| && k < |nodes| - 1
    ensures var o := Skip(i, k);
            Link(Without(nodes, i), k + 1) == Link(nodes, if o + 1 == i then o + 2 else o + 1)
  {
  }

  /** No location is listed twice, and each shows the character of its status. */
  ghost predicate Shown(list: seq<Blink>, text: seq<Byte>) {
    && DistinctLocations(list) && |text| == 4000
    && forall i :: 0 <= i < |list| ==> list[i].location < 2000 && text[2 * list[i].location] == Char(list[i])
  }

  /** The screen after a structure has changed: it is poked if its status is a new one. */
  function Poked(before: Blink, b: Blink, text: seq<Byte>): (r: seq<Byte>)
    requires b.location < 2000 && |text| == 4000
    ensures |r| == 4000
  {
    if b.status == 0 <==> before.status == 0 then text else text[2 * b.location := Char(b)]
  }

  lemma ShownTicked(list: seq<Blink>, i: nat, text: seq<Byte>)
    requires i < |list| && |text| == 4000 && list[i].location < 2000
    ensures Shown(list, text) ==> Shown(list[i := Ticked(list[i])], Poked(list[i], Ticked(list[i]), text))
  {
  }

  lemma ShownAdded(list: seq<Blink>, b: Blink, text: seq<Byte>)
    requires b.location < 2000 && |text| == 4000
    ensures Shown(list, text) && !Listed(list, b.location) ==> Shown([b] + list, text[2 * b.location := Char(b)])
  {
  }

  lemma ShownRemoved(list: seq<Blink>, i: nat, text: seq<Byte>)
    requires i < |list|
    ensures Shown(list, text) ==> Shown(Without(list, i), text)
  {
  }

  lemma ShownSynced(list: seq<Blink>, i: nat, j: nat, text: seq<Byte>)
    requires i < |list| && j < |list| && list[j].location < 2000 && |text| == 4000
    ensures var b := Synced(list[i], list[j]);
            Shown(list, text) ==> Shown(list[j := b], text[2 * b.location := Char(b)])
  {
  }

  /** The list when the first i structures have ticked. */
  ghost function TickedFirst(list: seq<Blink>, i: nat): (r: seq<Blink>)
    ensures |r| == |list|
    ensures i == 0 ==> r == list
    ensures i >= |list| ==> r == TickedAll(list)
  {
    seq(|list|, j requires 0 <= j < |list| => if j < i then Ticked(list[j]) else list[j])
  }

  lemma OneMoreTick(list: seq<Blink>, i: nat)
    requires i < |list|
    ensures TickedFirst(list, i)[i] == list[i]
    ensures TickedFirst(list, i)[i := Ticked(list[i])] == TickedFirst(list, i + 1)
  {
  }

  /** The character cell of a listed location. */
  ghost predicate Cell(list: seq<Blink>, a: int) {
    exists i :: 0 <= i < |list| && a == 2 * list[i].location
  }

  /** Only the character cells of listed locations may have changed. */
  ghost predicate OnlyCells(list: seq<Blink>, before: seq<Byte>, after: seq<Byte>) {
    |before| == |after| && forall a :: 0 <= a < |after| && after[a] != before[a] ==> Cell(list, a)
  }

  lemma OneMoreCell(list: seq<Blink>, i: nat, before: seq<Byte>, text: seq<Byte>)
    requires i < |list| && list[i].location < 2000 && |text| == 4000 && OnlyCells(list, before, text)
    ensures OnlyCells(list, before, Poked(list[i], Ticked(list[i]), text))
  {
    assert Cell(list, 2 * list[i].location);
  }
}
