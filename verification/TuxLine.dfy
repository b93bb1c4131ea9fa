/**
  The Tux line discipline of mp2/module/tuxctl-ld.c: a receive ring and a transmit ring of 64 bytes, and
  the packet framer that keeps up to two bytes between its calls.
*/
module TuxLine {
  import opened Arithmetic
  import opened Bytes
  import opened TuxFrames

  const TUXCTL_BUFSIZE := 64

  // ----- rings -----

  function BufUsed(start: int, end: int): int { if start <= end then end - start else 64 + end - start }

  function BufRoom(start: int, end: int): int { 64 - BufUsed(start, end) - 1 }

  predicate InRing(k: int) { 0 <= k < 64 }

  /** The bytes of a ring in the order in which they were put in. */
  function Contents(buf: seq<Byte>, start: int, end: int): (c: seq<Byte>)
    requires |buf| == 64 && InRing(start) && InRing(end)
    ensures |c| == BufUsed(start, end) < 64
  {
    if start <= end then buf[start..end] else buf[start..] + buf[..end]
  }

  /** buf_incidx */
  function Next(k: int): (n: int)
    requires InRing(k)
    ensures InRing(n) && n == (k + 1) % 64
  {
    if k == 63 then 0 else k + 1
  }

  /** Putting a byte in, unless the ring is full (one cell always stays free). */
  lemma RingPut(buf: seq<Byte>, start: int, end: int, x: Byte)
    requires |buf| == 64 && InRing(start) && InRing(end)
    ensures Next(end) == start <==> BufRoom(start, end) == 0
    ensures Next(end) != start ==> Contents(buf[end := x], start, Next(end)) == Contents(buf, start, end) + [x]
  {
    var after := buf[end := x];
    if Next(end) != start {
      if start <= end {
        assert after[start..end + 1] == buf[start..end] + [x];
        if end == 63 { assert after[start..] + after[..0] == after[start..64]; }
      } else {
        assert after[start..] == buf[start..] && after[..end + 1] == buf[..end] + [x];
        assert buf[start..] + (buf[..end] + [x]) == buf[start..] + buf[..end] + [x];
      }
    }
  }

  /** The ring is empty exactly when both indices are equal. */
  lemma RingEmpty(buf: seq<Byte>, start: int, end: int)
    requires |buf| == 64 && InRing(start) && InRing(end)
    ensures start == end <==> Contents(buf, start, end) == []
  {
    assert |Contents(buf, start, end)| == BufUsed(start, end);
  }

  /** Taking a byte out, unless the ring is empty. */
  lemma RingGet(buf: seq<Byte>, start: int, end: int)
    requires |buf| == 64 && InRing(start) && InRing(end) && start != end
    ensures Contents(buf, start, end) == [buf[start]] + Contents(buf, Next(start), end)
  {
    if start < end {
      GetStraight(buf, start, end);
    } else {
      GetWrapped(buf, start, end);
    }
  }

  lemma GetStraight(buf: seq<Byte>, start: int, end: int)
    requires |buf| == 64 && 0 <= start < end < 64
    ensures Contents(buf, start, end) == [buf[start]] + Contents(buf, start + 1, end)
  {
    assert Contents(buf, start + 1, end) == buf[start + 1..end];
    assert buf[start..end] == [buf[start]] + buf[start + 1..end];
  }

  lemma GetWrapped(buf: seq<Byte>, start: int, end: int)
    requires |buf| == 64 && 0 <= end < start < 64
    ensures Contents(buf, start, end) == [buf[start]] + Contents(buf, Next(start), end)
  {
    var tail := buf[start + 1..];
    assert buf[start..] == [buf[start]] + tail;
    assert [buf[start]] + tail + buf[..end] == [buf[start]] + (tail + buf[..end]);
    if start == 63 {
      assert tail == [] && tail + buf[..end] == buf[..end] && Contents(buf, 0, end) == buf[..end];
    } else {
      assert Contents(buf, start + 1, end) == tail + buf[..end];
    }
  }

  lemma MoveOne(all: seq<Byte>, got: seq<Byte>, x: Byte, left: seq<Byte>)
    requires all == got + ([x] + left)
    ensures all == (got + [x]) + left
  {
  }

  /** What Get leaves in a buffer whose first k bytes were there before. */
  lemma Collected(before: seq<Byte>, after: seq<Byte>, k: int, got: int, rx: seq<Byte>, left: seq<Byte>)
    requires 0 <= k <= k + got <= |after| == |before| && 0 <= got
    requires (forall j :: 0 <= j < k ==> after[j] == before[j]) && rx == after[k..k + got] + left
    ensures after[..k + got] == before[..k] + rx[..got] && rx == rx[..got] + left
  {
    assert rx[..got] == after[k..k + got];
    assert after[..k] == before[..k];
    assert after[..k + got] == after[..k] + after[k..k + got];
  }

  lemma NothingBehind(received: seq<Byte>, consumed: seq<Byte>, rx: seq<Byte>)
    requires received == consumed + rx
    ensures consumed == received <==> |rx| == 0
  {
    assert |received| == |consumed| + |rx|;
  }

  lemma Regroup(a: seq<Byte>, b: seq<Byte>, c: seq<Byte>)
    ensures a + (b + c) == a + b + c
  {
  }

  lemma TakeOne(a: seq<Byte>, cp: seq<Byte>, c: int)
    requires 0 <= c < |cp|
    ensures a + cp[..c] + [cp[c]] == a + cp[..c + 1]
  {
  }

  /** One turn of the loops that fill a ring. */
  method PutByte(buf: array<Byte>, start: int, end: int, x: Byte) returns (end': int)
    requires buf.Length == 64 && InRing(start) && InRing(end) && Next(end) != start
    modifies buf
    ensures InRing(end') && Contents(buf[..], start, end') == old(Contents(buf[..], start, end)) + [x]
    ensures BufRoom(start, end') == BufRoom(start, end) - 1
  {
    RingPut(buf[..], start, end, x);
    ghost var b := buf[..][end := x];
    buf[end] := x;
    end' := Next(end);
    assert buf[..] == b;
  }

  /** Handling the packets of kept + more is what the stream with `more` added requires. */
  lemma StreamGrows(consumed: seq<Byte>, handled: seq<seq<Byte>>, kept: seq<Byte>, more: seq<Byte>)
    requires Parse(consumed) == Scan(handled, kept)
    ensures Parse(consumed + more) == Scan(handled + Parse(kept + more).packets, Parse(kept + more).rest)
  {
    ParseInChunks(consumed, more);
  }

  /** What has been handled and kept after one more scan. */
  function Fed(handled: seq<seq<Byte>>, r: Scan): Scan { Scan(handled + r.packets, r.rest) }

  /** No chunk is longer than what the framer can always look at in one call. */
  ghost predicate Short(chunks: seq<seq<Byte>>) {
    forall k :: 0 <= k < |chunks| ==> |chunks[k]| <= 10
  }

  /** Feeding one chunk more. */
  lemma FeedOneMore(handled: seq<seq<Byte>>, kept: seq<Byte>, chunks: seq<seq<Byte>>, k: nat)
    requires k < |chunks|
    ensures var r := Fed(handled, Parse(kept + chunks[k]));
            Fed(handled, Feed(kept, chunks[k..])) == Fed(r.packets, Feed(r.rest, chunks[k + 1..]))
  {
    var r := Parse(kept + chunks[k]);
    assert chunks[k..][0] == chunks[k] && chunks[k..][1..] == chunks[k + 1..];
    var r' := Feed(r.rest, chunks[k + 1..]);
    assert handled + (r.packets + r'.packets) == handled + r.packets + r'.packets;
  }

  /** With nothing waiting, what the framer looks at is the chunk. */
  lemma WholeChunk(rx: seq<Byte>, cp: seq<Byte>, c: int)
    requires rx == [] && c == |cp|
    ensures (rx + cp[..c])[..c] == cp
  {
  }

  /** The first c bytes of a chunk have been received. */
  lemma ReceivedOneMore(first: seq<Byte>, before: seq<Byte>, after: seq<Byte>, joined: seq<Byte>, cp: seq<Byte>, c: nat)
    requires c <= |cp| && after == before + cp[..c] && |before| <= |first| + |joined|
    ensures |after| <= |first| + |joined + cp|
    ensures after == first + (joined + cp) <==> before == first + joined && c == |cp|
  {
    assert |after| == |before| + c;
    if c == |cp| {
      assert cp[..c] == cp && first + (joined + cp) == first + joined + cp;
      if after == first + joined + cp {
        assert before == after[..|before|] && first + joined == (first + joined + cp)[..|before|];
      }
    }
  }

  class Ldisc {
    const rxBuf: array<Byte>
    var rxStart: int
    var rxEnd: int
    const txBuf: array<Byte>
    var txStart: int
    var txEnd: int
    const saved: array<Byte>
    var nSaved: int

    // What has happened so far.
    ghost var received: seq<Byte>        // bytes accepted from the serial driver
    ghost var consumed: seq<Byte>        // those of them that the framer has looked at
    ghost var handled: seq<seq<Byte>>    // packets given to tuxctl_handle_packet
    ghost var accepted: seq<Byte>        // bytes accepted by Put
    ghost var sent: seq<Byte>            // those of them handed to the driver

    ghost predicate Wellformed()
      reads this
    {
      && rxBuf.Length == txBuf.Length == 64 && saved.Length == 2
      && rxBuf != txBuf && rxBuf != saved && txBuf != saved
      && InRing(rxStart) && InRing(rxEnd) && InRing(txStart) && InRing(txEnd) && 0 <= nSaved <= 2
    }

    ghost function Rx(): seq<Byte>
      requires Wellformed()
      reads this, rxBuf
    {
      Contents(rxBuf[..], rxStart, rxEnd)
    }

    ghost function Tx(): seq<Byte>
      requires Wellformed()
      reads this, txBuf
    {
      Contents(txBuf[..], txStart, txEnd)
    }

    /** Nothing is lost or repeated on either side, and the framer is where the stream says it should be. */
    ghost predicate Valid()
      reads this, rxBuf, txBuf, saved
    {
      && Wellformed()
      && received == consumed + Rx()
      && Parse(consumed) == Scan(handled, saved[..nSaved])
      && accepted == sent + Tx()
    }

    /** tuxctl_ldisc_open */
    constructor ()
      ensures Valid() && received == [] && accepted == [] && fresh(rxBuf) && fresh(txBuf) && fresh(saved)
    {
      rxBuf := new Byte[TUXCTL_BUFSIZE];
      txBuf := new Byte[TUXCTL_BUFSIZE];
      saved := new Byte[2];
      rxStart, rxEnd, txStart, txEnd, nSaved := 0, 0, 0, 0, 0;
      received, consumed, handled, accepted, sent := [], [], [], [], [];
    }

    /** In every state, the packets handled are the well-framed windows of the bytes looked at. */
    lemma HandledAreWindows()
      requires Valid()
      ensures handled == Windows(received[..|received| - |Rx()|], 0)
    {
      assert received[..|received| - |Rx()|] == consumed;
      ScanFindsWindows(consumed, 0);
    }

    /** Puts as many of the bytes into the receive ring as it has room for. */
    method FillRx(cp: seq<Byte>) returns (c: int)
      requires Wellformed()
      modifies this`rxEnd, rxBuf
      ensures Wellformed() && c == Min(|cp|, 63 - |old(Rx())|) && Rx() == old(Rx()) + cp[..c]
    {
      c := 0;
      assert Rx() == Rx() + cp[..0];
      while c < |cp| && Next(rxEnd) != rxStart
        invariant Wellformed() && 0 <= c <= |cp|
        invariant BufRoom(rxStart, rxEnd) == old(BufRoom(rxStart, rxEnd)) - c && Rx() == old(Rx()) + cp[..c]
      {
        TakeOne(old(Rx()), cp, c);
        rxEnd := PutByte(rxBuf, rxStart, rxEnd, cp[c]);
        c := c + 1;
      }
      RingPut(rxBuf[..], rxStart, rxEnd, 0);
    }

    /** Takes as many of the bytes as the ring has room for, then runs the framer once. */
    method RcvBuf(cp: seq<Byte>) returns (c: int)
      requires Valid()
      modifies this, rxBuf, saved
      ensures Valid() && c == Min(|cp|, 63 - |old(Rx())|)
      ensures received == old(received) + cp[..c]
      ensures |consumed| - |old(consumed)| == Min(12 - old(nSaved), |old(Rx())| + c)
      ensures |Rx()| == |old(Rx())| + c - Min(12 - old(nSaved), |old(Rx())| + c)
      ensures c == |cp| && consumed == received <==> |old(Rx())| + |cp| <= 12 - old(nSaved)
      ensures Scan(handled, saved[..nSaved]) == Fed(old(handled), Parse(old(saved[..nSaved]) +
                (old(Rx()) + cp[..c])[..Min(12 - old(nSaved), |old(Rx())| + c)]))
      ensures accepted == old(accepted) && sent == old(sent)
    {
      c := FillRx(cp);
      received := received + cp[..c];
      assert |Rx()| == |old(Rx())| + c;
      DataCallback();
      NothingBehind(received, consumed, Rx());
    }

    /**
      A run of chunks as the serial driver delivers them.  `all` says whether no byte was dropped.  If no
      chunk is longer than 10 bytes, the framer never falls further behind; and if it is not behind at
      first, the packets handled after the run are the well-framed windows of all bytes ever received, and
      those added by the run are the windows of the bytes kept back followed by the chunks.
    */
    method ReceiveAll(chunks: seq<seq<Byte>>) returns (all: bool)
      requires Valid()
      modifies this, rxBuf, saved
      ensures Valid()
      ensures all <==> received == old(received) + Join(chunks)
      ensures Short(chunks) && |old(Rx())| <= 53 ==> all && |Rx()| <= |old(Rx())|
      ensures Short(chunks) && old(Rx()) == [] ==> consumed == received && handled == Windows(received, 0)
      ensures Short(chunks) && old(Rx()) == [] ==>
                handled == old(handled) + Windows(old(saved[..nSaved]) + Join(chunks), 0)
    {
      all := true;
      ghost var kept0, handled0 := saved[..nSaved], handled;
      RestIsIdle(consumed, 0);
      AnyChunking(kept0, chunks);
      assert chunks[..0] == [] && chunks[0..] == chunks;
      assert received == received + Join(chunks[..0]);
      for k := 0 to |chunks|
        invariant Valid() && |received| <= |old(received)| + |Join(chunks[..k])|
        invariant all <==> received == old(received) + Join(chunks[..k])
        invariant Short(chunks) && |old(Rx())| <= 53 ==> all && |Rx()| <= |old(Rx())|
        invariant Short(chunks) && old(Rx()) == [] ==>
                    Fed(handled0, Feed(kept0, chunks)) == Fed(handled, Feed(saved[..nSaved], chunks[k..]))
      {
        ghost var before, kept, done := received, saved[..nSaved], handled;
        ghost var rx := Rx();
        var c := RcvBuf(chunks[k]);
        if c < |chunks[k]| {
          all := false;
        }
        JoinOneMore(chunks, k);
        ReceivedOneMore(old(received), before, received, Join(chunks[..k]), chunks[k], c);
        if Short(chunks) && old(Rx()) == [] {
          WholeChunk(rx, chunks[k], c);
          FeedOneMore(done, kept, chunks, k);
        }
      }
      assert chunks[..|chunks|] == chunks && chunks[|chunks|..] == [];
      NothingBehind(received, consumed, Rx());
      ScanFindsWindows(consumed, 0);
    }

    /** Moves up to n received bytes to buf[at..]; returns how many. */
    method Get(buf: array<Byte>, at: int, n: int) returns (r: int)
      requires Wellformed() && buf != rxBuf && buf != txBuf && buf != saved
      requires 0 <= at && at + Max(n, 0) <= buf.Length
      modifies this`rxStart, buf
      ensures Wellformed() && r == Min(Max(n, 0), |old(Rx())|)
      ensures old(Rx()) == buf[at..at + r] + Rx()
      ensures forall k :: 0 <= k < at ==> buf[k] == old(buf[k])
    {
      r := 0;
      ghost var rx := Rx();
      while r < n && rxStart != rxEnd
        invariant Wellformed() && 0 <= r <= Max(n, 0)
        invariant rx == buf[at..at + r] + Rx()
        invariant forall k :: 0 <= k < at ==> buf[k] == old(buf[k])
        decreases n - r
      {
        GetByte(buf, at, r, rx);
        r := r + 1;
      }
      RingEmpty(rxBuf[..], rxStart, rxEnd);
    }

    /** One turn of the loop of Get; rx is what the ring held at first. */
    method GetByte(buf: array<Byte>, at: int, r: int, ghost rx: seq<Byte>)
      requires Wellformed() && buf != rxBuf && buf != txBuf && buf != saved && rxStart != rxEnd
      requires 0 <= at <= at + r < buf.Length && rx == buf[at..at + r] + Rx()
      modifies this`rxStart, buf
      ensures Wellformed() && rx == buf[at..at + r + 1] + Rx()
      ensures forall i :: 0 <= i < at ==> buf[i] == old(buf[i])
    {
      ghost var got := buf[at..at + r];
      RingGet(rxBuf[..], rxStart, rxEnd);
      MoveOne(rx, got, rxBuf[rxStart], Contents(rxBuf[..], Next(rxStart), rxEnd));
      buf[at + r] := rxBuf[rxStart];
      rxStart := Next(rxStart);
      assert buf[at..at + r] == got;
      assert buf[at..at + r + 1] == got + [buf[at + r]];
    }

    /** Puts the bytes kept back at the start of the packet buffer. */
    method Restore(packet: array<Byte>)
      requires saved.Length == 2 && 0 <= nSaved <= 2 && packet.Length == 12 && packet != saved
      modifies packet
      ensures packet[..nSaved] == saved[..nSaved]
    {
      for i := 0 to nSaved
        invariant packet[..i] == saved[..i]
      {
        packet[i] := saved[i];
      }
    }

    /** Puts the bytes kept back and up to 12 bytes in all into the packet buffer. */
    method Collect(packet: array<Byte>) returns (n: int)
      requires Wellformed() && packet.Length == 12 && packet != rxBuf && packet != txBuf && packet != saved
      modifies this`rxStart, packet
      ensures Wellformed() && nSaved <= n <= 12 && n - nSaved == Min(12 - nSaved, |old(Rx())|)
      ensures packet[..n] == saved[..nSaved] + old(Rx())[..n - nSaved] && old(Rx()) == old(Rx())[..n - nSaved] + Rx()
    {
      Restore(packet);
      ghost var rx, kept := Rx(), packet[..];
      var got := Get(packet, nSaved, 12 - nSaved);
      n := nSaved + got;
      Collected(kept, packet[..], nSaved, got, rx, Rx());
    }

    /** The framer: looks at up to 12 bytes, starting with those it kept back. */
    method DataCallback()
      requires Wellformed() && received == consumed + Rx()
      requires Parse(consumed) == Scan(handled, saved[..nSaved]) && accepted == sent + Tx()
      modifies this, saved
      ensures Valid()
      ensures received == old(received) && accepted == old(accepted) && sent == old(sent)
      ensures consumed == old(consumed) + old(Rx())[..Min(12 - old(nSaved), |old(Rx())|)]
      ensures Scan(handled, saved[..nSaved]) ==
                Fed(old(handled), Parse(old(saved[..nSaved]) + old(Rx())[..Min(12 - old(nSaved), |old(Rx())|)]))
    {
      var packet := new Byte[12];
      ghost var more := Rx()[..Min(12 - nSaved, |Rx()|)];
      StreamGrows(consumed, handled, saved[..nSaved], more);
      var n := Collect(packet);
      var i := HandlePackets(packet, n);
      SaveRest(packet, i, n);
      Regroup(consumed, more, Rx());
      consumed := consumed + more;
    }

    /** Scans the packet bytes and passes on what is well-framed; i is where the leftovers start. */
    method HandlePackets(packet: array<Byte>, n: int) returns (i: int)
      requires 0 <= n <= packet.Length
      modifies this`handled
      ensures 0 <= i <= n && n - i <= 2
      ensures handled == old(handled) + Parse(packet[..n]).packets && packet[i..n] == Parse(packet[..n]).rest
    {
      ghost var s := packet[..n];
      ghost var found: seq<seq<Byte>> := [];
      i := 0;
      while i < n - 2
        invariant 0 <= i <= n
        invariant handled == old(handled) + found && packet[..n] == s
        invariant Parse(s) == Scan(found + ScanFrom(s, i).packets, ScanFrom(s, i).rest)
        decreases n - i
      {
        if !HighBit(packet[i]) && HighBit(packet[i + 1]) && HighBit(packet[i + 2]) {
          assert packet[i..i + 3] == s[i..i + 3];
          handled := handled + [packet[i..i + 3]];
          found := found + [s[i..i + 3]];
          i := i + 3;
        } else {
          i := i + 1;
        }
      }
    }

    method SaveRest(packet: array<Byte>, i: int, n: int)
      requires saved.Length == 2 && packet != saved && 0 <= i <= n <= packet.Length && n - i <= 2
      modifies this`nSaved, saved
      ensures nSaved == n - i && saved[..nSaved] == packet[i..n]
    {
      nSaved := n - i;
      for j := 0 to nSaved
        invariant nSaved == n - i && saved[..j] == packet[i..i + j]
      {
        saved[j] := packet[i + j];
      }
    }

    // ----- transmit side -----

    /** Takes bytes out of the transmit ring until it is empty or the count has passed room. */
    method DrainTx(room: int) returns (buf: seq<Byte>)
      requires Wellformed()
      modifies this`txStart
      ensures Wellformed() && old(Tx()) == buf + Tx() && |buf| == HandedOver(room, |old(Tx())|)
    {
      buf := [];
      ghost var tx := Tx();
      while |buf| <= room && txStart != txEnd
        invariant Wellformed() && tx == buf + Tx() && |buf| <= Max(room + 1, 0)
        decreases |tx| - |buf|
      {
        RingGet(txBuf[..], txStart, txEnd);
        MoveOne(tx, buf, txBuf[txStart], Contents(txBuf[..], Next(txStart), txEnd));
        buf := buf + [txBuf[txStart]];
        txStart := Next(txStart);
      }
      RingEmpty(txBuf[..], txStart, txEnd);
    }

    /** Hands buffered bytes to the driver; room is what the driver said it can take. */
    method WriteWakeup(room: int) returns (buf: seq<Byte>)
      requires Valid()
      modifies this`txStart, this`sent
      ensures Valid() && |buf| == HandedOver(room, |old(Tx())|) && buf <= old(Tx())
      ensures sent == old(sent) + buf
    {
      buf := DrainTx(room);
      Regroup(sent, buf, Tx());
      sent := sent + buf;
    }

    /** Puts as many of the bytes into the transmit ring as it has room for; returns how many did not fit. */
    method FillTx(buf: seq<Byte>) returns (left: int)
      requires Wellformed()
      modifies this`txEnd, txBuf
      ensures Wellformed() && left == |buf| - Min(|buf|, 63 - |old(Tx())|) && 0 <= left
      ensures Tx() == old(Tx()) + buf[..|buf| - left]
    {
      left := |buf|;
      assert Tx() == Tx() + buf[..0];
      while left > 0 && Next(txEnd) != txStart
        invariant Wellformed() && 0 <= left <= |buf|
        invariant BufRoom(txStart, txEnd) == old(BufRoom(txStart, txEnd)) - (|buf| - left)
        invariant Tx() == old(Tx()) + buf[..|buf| - left]
      {
        TakeOne(old(Tx()), buf, |buf| - left);
        txEnd := PutByte(txBuf, txStart, txEnd, buf[|buf| - left]);
        left := left - 1;
      }
      RingPut(txBuf[..], txStart, txEnd, 0);
    }

    /** Buffers what fits, wakes the driver; returns how many bytes did not fit. */
    method Put(buf: seq<Byte>, room: int) returns (left: int)
      requires Valid()
      modifies this`txStart, this`txEnd, this`accepted, this`sent, txBuf
      ensures Valid() && left == |buf| - Min(|buf|, 63 - |old(Tx())|)
      ensures accepted == old(accepted) + buf[..|buf| - left]
      ensures |sent| - |old(sent)| == HandedOver(room, |old(Tx())| + |buf| - left)
    {
      left := FillTx(buf);
      accepted := accepted + buf[..|buf| - left];
      var _ := WriteWakeup(room);
    }
  }

  /** How many bytes one wake-up hands over: the loop's `n <= room` lets one byte more than room through. */
  function HandedOver(room: int, used: int): (n: int)
    requires 0 <= used
    ensures 0 <= n <= used
  {
    Min(Max(room + 1, 0), used)
  }

  /** The driver is given no more than it asked for exactly when all that is buffered fits. */
  lemma RoomRespectedIff(room: int, used: int)
    requires 0 <= used && 0 <= room
    ensures HandedOver(room, used) <= room <==> used <= room
    ensures used > room ==> HandedOver(room, used) == room + 1
  {
  }

  /** For instance, with room for 5 bytes and 6 buffered, all 6 are handed over. */
  lemma OneByteTooMany()
    ensures HandedOver(5, 6) == 6
  {
  }
}
