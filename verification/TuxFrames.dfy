/**
  Framing of the Tux controller's byte stream (mp2/module/tuxctl-ld.c, tuxctl_ldisc_data_callback), on
  sequences: a packet is three bytes of which only the first has its top bit clear.
*/
module TuxFrames {
  import opened Bytes

  predicate HighBit(b: Byte) { b >= 0x80 }

  /** A well-framed window of three bytes starts at i. */
  predicate Framed(s: seq<Byte>, i: int)
    requires 0 <= i && i + 2 < |s|
  {
    !HighBit(s[i]) && HighBit(s[i + 1]) && HighBit(s[i + 2])
  }

  /** A window is a packet exactly if bit 7 is clear in the first of its bytes and set in the other two. */
  lemma FramedIsBit7(s: seq<Byte>, i: int)
    requires 0 <= i && i + 2 < |s|
    ensures Framed(s, i) <==> s[i] / 0x80 % 2 == 0 && s[i + 1] / 0x80 % 2 == 1 && s[i + 2] / 0x80 % 2 == 1
  {
  }

  /** What a scan finds and what it leaves for later. */
  datatype Scan = Scan(packets: seq<seq<Byte>>, rest: seq<Byte>)

  /** The scan of the driver: a packet is skipped as a whole, garbage byte by byte. */
  function ScanFrom(s: seq<Byte>, i: int): (r: Scan)
    requires 0 <= i <= |s|
    ensures |r.rest| <= 2
    decreases |s| - i
  {
    if i + 2 >= |s| then Scan([], s[i..])
    else if Framed(s, i) then
      var r := ScanFrom(s, i + 3);
      Scan([s[i..i + 3]] + r.packets, r.rest)
    else ScanFrom(s, i + 1)
  }

  function Parse(s: seq<Byte>): Scan { ScanFrom(s, 0) }

  /** All well-framed windows of s from position i on, tried at every position. */
  function Windows(s: seq<Byte>, i: int): seq<seq<Byte>>
    requires 0 <= i <= |s|
    decreases |s| - i
  {
    if i + 2 >= |s| then []
    else (if Framed(s, i) then [s[i..i + 3]] else []) + Windows(s, i + 1)
  }

  /**
    Skipping a packet as a whole loses nothing: the packets found are exactly the well-framed windows,
    in order and once each, because two windows cannot overlap.
  */
  lemma {:induction false} ScanFindsWindows(s: seq<Byte>, i: int)
    requires 0 <= i <= |s|
    ensures ScanFrom(s, i).packets == Windows(s, i)
    decreases |s| - i
  {
    if i + 2 >= |s| {
    } else {
      if Framed(s, i) {
        ScanFindsWindows(s, i + 3);
        assert Windows(s, i + 1) == Windows(s, i + 2) by {
          if i + 3 < |s| { assert !Framed(s, i + 1); }
        }
        assert Windows(s, i + 2) == Windows(s, i + 3) by {
          if i + 4 < |s| { assert !Framed(s, i + 2); }
        }
      } else {
        ScanFindsWindows(s, i + 1);
      }
    }
  }

  /** Scanning from i is parsing what starts there. */
  lemma {:induction false} ScanIsParse(s: seq<Byte>, i: int, k: int)
    requires 0 <= k <= i <= |s|
    ensures ScanFrom(s, i) == ScanFrom(s[k..], i - k)
    decreases |s| - i
  {
    var t := s[k..];
    if i + 2 >= |s| {
    } else {
      assert Framed(s, i) <==> Framed(t, i - k);
      assert s[i..i + 3] == t[i - k..i - k + 3];
      if Framed(s, i) { ScanIsParse(s, i + 3, k); } else { ScanIsParse(s, i + 1, k); }
    }
  }

  /** The scan of a longer stream agrees with the scan of its beginning up to the bytes kept back. */
  lemma {:induction false} ScanExtends(a: seq<Byte>, b: seq<Byte>, i: int)
    requires 0 <= i <= |a|
    ensures var r, r' := ScanFrom(a, i), Parse(ScanFrom(a, i).rest + b);
            ScanFrom(a + b, i) == Scan(r.packets + r'.packets, r'.rest)
    decreases |a| - i
  {
    var s := a + b;
    if i + 2 >= |a| {
      assert s[i..] == a[i..] + b;
      ScanIsParse(s, i, i);
    } else {
      assert s[i..i + 3] == a[i..i + 3];
      if Framed(a, i) { ScanExtends(a, b, i + 3); } else { ScanExtends(a, b, i + 1); }
    }
  }

  /** Chunks do not matter: parsing a, then b after the bytes kept back, is parsing a + b. */
  lemma ParseInChunks(a: seq<Byte>, b: seq<Byte>)
    ensures Parse(a + b).packets == Parse(a).packets + Parse(Parse(a).rest + b).packets
    ensures Parse(a + b).rest == Parse(Parse(a).rest + b).rest
  {
    ScanExtends(a, b, 0);
  }

  /** Feeding a stream chunk by chunk, keeping at most two bytes between the chunks. */
  function Feed(kept: seq<Byte>, chunks: seq<seq<Byte>>): Scan
    decreases |chunks|
  {
    if chunks == [] then Scan([], kept)
    else
      var r := Parse(kept + chunks[0]);
      var r' := Feed(r.rest, chunks[1..]);
      Scan(r.packets + r'.packets, r'.rest)
  }

  function Join(chunks: seq<seq<Byte>>): seq<Byte>
    decreases |chunks|
  {
    if chunks == [] then [] else chunks[0] + Join(chunks[1..])
  }

  lemma {:induction false} JoinOneMore(chunks: seq<seq<Byte>>, k: nat)
    requires k < |chunks|
    ensures Join(chunks[..k + 1]) == Join(chunks[..k]) + chunks[k]
    decreases k
  {
    if k == 0 {
      assert chunks[..1] == [chunks[0]] && chunks[..1][1..] == [];
    } else {
      JoinOneMore(chunks[1..], k - 1);
      assert chunks[..k + 1][1..] == chunks[1..][..k] && chunks[..k][1..] == chunks[1..][..k - 1];
      assert chunks[0] + (Join(chunks[1..][..k - 1]) + chunks[k]) == chunks[0] + Join(chunks[1..][..k - 1]) + chunks[k];
    }
  }

  /** On sequences, for chunks of any length, the packets found are the well-framed windows of the whole stream. */
  lemma {:induction false} AnyChunking(kept: seq<Byte>, chunks: seq<seq<Byte>>)
    requires Parse(kept) == Scan([], kept)
    ensures Feed(kept, chunks) == Parse(kept + Join(chunks))
    ensures Feed(kept, chunks).packets == Windows(kept + Join(chunks), 0)
    decreases |chunks|
  {
    if chunks == [] {
      assert kept + Join(chunks) == kept;
    } else {
      var a := kept + chunks[0];
      RestIsIdle(a, 0);
      AnyChunking(Parse(a).rest, chunks[1..]);
      ParseInChunks(a, Join(chunks[1..]));
      assert a + Join(chunks[1..]) == kept + Join(chunks);
    }
    ScanFindsWindows(kept + Join(chunks), 0);
  }

  /** The bytes kept back hold no packet. */
  lemma RestIsIdle(s: seq<Byte>, i: int)
    requires 0 <= i <= |s|
    ensures Parse(ScanFrom(s, i).rest) == Scan([], ScanFrom(s, i).rest)
  {
    var r := ScanFrom(s, i).rest;
    assert r[0..] == r;
  }
}
