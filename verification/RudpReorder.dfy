/**
 What one call of _rudp_conn_reordering means, without naming its loops: it delivers
 the longest gap-free run that starts at the expected number, and loses nothing.
 */
module RudpReorder {
  import opened Types
  import opened RudpSpec

  ghost predicate Ascending(buf: seq<Packet>) {
    forall i, j | 0 <= i < j < |buf| :: buf[i].sn < buf[j].sn
  }

  /** Some packet of `s` carries the number `k`. */
  ghost predicate Has(s: seq<Packet>, k: int) { exists p | p in s :: p.sn == k }

  /** The reorder buffer between two handler steps: sorted, and inside the window above `e`. */
  ghost predicate GoodBuffer(buf: seq<Packet>, e: int) {
    Ascending(buf) && forall p | p in buf :: e <= p.sn <= e + REORDER_WINDOW
  }

  // The wrap-around distance agrees with the plain one wherever it is at most the window.
  lemma WindowIsInterval(e: u32, s: u32)
    requires e + REORDER_WINDOW < U32_LIMIT
    ensures InWindow(e, s) <==> e <= s <= e + REORDER_WINDOW
  {}

  lemma AscendingSlot(buf: seq<Packet>, s: u32)
    requires Ascending(buf)
    ensures Occupied(buf, s) <==> Has(buf, s)
    ensures forall j | Slot(buf, s) <= j < |buf| :: buf[j].sn >= s
  {
    if Has(buf, s) {
      var p :| p in buf && p.sn == s;
      var k :| 0 <= k < |buf| && buf[k] == p;
      assert Slot(buf, s) <= k;
    }
  }

  lemma InsertMembers(buf: seq<Packet>, i: nat, p: Packet)
    requires i <= |buf|
    ensures var r := buf[..i] + [p] + buf[i..];
            && (forall q :: q in r <==> q in buf || q == p)
            && multiset(r) == multiset(buf) + multiset{p}
  {
    assert buf == buf[..i] + buf[i..];
  }

  lemma InsertAscending(buf: seq<Packet>, i: nat, p: Packet)
    requires Ascending(buf) && i <= |buf|
    requires forall j | 0 <= j < i :: buf[j].sn < p.sn
    requires forall j | i <= j < |buf| :: buf[j].sn > p.sn
    ensures Ascending(buf[..i] + [p] + buf[i..])
  {
    var r := buf[..i] + [p] + buf[i..];
    forall j, k | 0 <= j < k < |r| ensures r[j].sn < r[k].sn {
      assert r[j] == if j < i then buf[j] else if j == i then p else buf[j - 1];
      assert r[k] == if k < i then buf[k] else if k == i then p else buf[k - 1];
    }
  }

  lemma AbsorbMembers(buf: seq<Packet>, e: u32, p: Packet)
    ensures forall q :: q in Absorb(buf, e, p) <==> q in buf || (q == p && Keeps(buf, e, p))
    ensures multiset(Absorb(buf, e, p)) == multiset(buf) + if Keeps(buf, e, p) then multiset{p} else multiset{}
  {
    InsertMembers(buf, Slot(buf, p.sn), p);
  }

  lemma AbsorbKeepsGood(buf: seq<Packet>, e: u32, p: Packet)
    requires GoodBuffer(buf, e) && e + REORDER_WINDOW < U32_LIMIT
    ensures GoodBuffer(Absorb(buf, e, p), e)
    ensures forall k :: Has(Absorb(buf, e, p), k) <==>
                        Has(buf, k) || (k == p.sn && e <= k <= e + REORDER_WINDOW)
  {
    WindowIsInterval(e, p.sn);
    AbsorbMembers(buf, e, p);
    AscendingSlot(buf, p.sn);
    if Keeps(buf, e, p) {
      forall j | Slot(buf, p.sn) <= j < |buf| ensures buf[j].sn > p.sn {
        assert buf[j] in buf;
      }
      InsertAscending(buf, Slot(buf, p.sn), p);
    }
  }

  /** Only numbers inside the window enter, and every one of them ends up present. */
  lemma {:induction false} AbsorbAllExact(buf: seq<Packet>, e: u32, net: seq<Packet>)
    requires GoodBuffer(buf, e) && e + REORDER_WINDOW < U32_LIMIT
    ensures GoodBuffer(AbsorbAll(buf, e, net), e)
    ensures forall k :: Has(AbsorbAll(buf, e, net), k) <==>
                        Has(buf, k) || (Has(net, k) && e <= k <= e + REORDER_WINDOW)
    decreases |net|
  {
    if net != [] {
      AbsorbKeepsGood(buf, e, net[0]);
      AbsorbAllExact(Absorb(buf, e, net[0]), e, net[1..]);
      assert net == [net[0]] + net[1..];
      assert forall k :: Has(net, k) <==> k == net[0].sn || Has(net[1..], k);
    }
  }

  /** Every popped frame is either in the buffer afterwards or freed, and nothing else appears. */
  lemma {:induction false} AbsorbAllConserves(buf: seq<Packet>, e: u32, net: seq<Packet>)
    ensures multiset(buf) + multiset(net) == multiset(AbsorbAll(buf, e, net)) + Discards(buf, e, net)
    decreases |net|
  {
    if net != [] {
      AbsorbAllConserves(Absorb(buf, e, net[0]), e, net[1..]);
      AbsorbMembers(buf, e, net[0]);
      assert net == [net[0]] + net[1..];
      var kept, dropped := if Keeps(buf, e, net[0]) then multiset{net[0]} else multiset{},
                           if Keeps(buf, e, net[0]) then multiset{} else multiset{net[0]};
      assert multiset(net) == kept + dropped + multiset(net[1..]);
      var rest := Discards(Absorb(buf, e, net[0]), e, net[1..]);
      calc {
        multiset(buf) + multiset(net);
        (multiset(buf) + kept) + multiset(net[1..]) + dropped;
        multiset(AbsorbAll(buf, e, net)) + rest + dropped;
        multiset(AbsorbAll(buf, e, net)) + (dropped + rest);
      }
    }
  }

  /** The buffer only ever holds packets it was given. */
  lemma {:induction false} AbsorbAllMembers(buf: seq<Packet>, e: u32, net: seq<Packet>)
    ensures forall q | q in AbsorbAll(buf, e, net) :: q in buf || q in net
    decreases |net|
  {
    if net != [] {
      AbsorbMembers(buf, e, net[0]);
      AbsorbAllMembers(Absorb(buf, e, net[0]), e, net[1..]);
    }
  }

  lemma TailAbove(buf: seq<Packet>)
    requires Ascending(buf) && buf != []
    ensures Ascending(buf[1..]) && forall p | p in buf[1..] :: p.sn > buf[0].sn
  {
    forall p | p in buf[1..] ensures p.sn > buf[0].sn {
      var k :| 0 <= k < |buf[1..]| && buf[1..][k] == p;
      assert buf[0].sn < buf[k + 1].sn;
    }
  }

  /** In an ascending buffer the run is the block of consecutive numbers from `e`, and it is maximal. */
  lemma RunIsConsecutive(buf: seq<Packet>, last: u32, e: u32)
    requires Ascending(buf) && e == Expected(last)
    requires forall p | p in buf :: e <= p.sn < U32_MAX
    ensures forall i | 0 <= i < RunLength(buf, last) :: buf[i].sn == e + i
    ensures Expected(LastAfter(buf, last, RunLength(buf, last))) == e + RunLength(buf, last)
    ensures forall i | RunLength(buf, last) <= i < |buf| :: buf[i].sn > e + RunLength(buf, last)
  {
    RunIsBlock(buf, last, e);
  }

  /** The first `n` entries are numbered on from `e`, and the others lie beyond the gap that follows. */
  ghost predicate Block(buf: seq<Packet>, n: nat, e: int) {
    && n <= |buf|
    && (forall i | 0 <= i < n :: buf[i].sn == e + i)
    && (forall i | n <= i < |buf| :: buf[i].sn > e + n)
  }

  lemma {:induction false} RunIsBlock(buf: seq<Packet>, last: u32, e: u32)
    requires Ascending(buf) && e == Expected(last)
    requires forall p | p in buf :: e <= p.sn < U32_MAX
    ensures var n := RunLength(buf, last);
            Block(buf, n, e) && Expected(LastAfter(buf, last, n)) == e + n
    decreases |buf|
  {
    if buf != [] && buf[0].sn == e {
      hide Ascending, RunLength, LastAfter, Block;
      assert buf[0] in buf;
      TailAbove(buf);
      RunUnfolds(buf, last, e);
      assert forall p | p in buf[1..] :: p in buf;
      RunIsBlock(buf[1..], e, e + 1);
      BlockGrows(buf, RunLength(buf[1..], e), e);
    } else {
      assert buf != [] ==> buf[0] in buf;
      RunStops(buf, last, e);
    }
  }

  lemma BlockGrows(buf: seq<Packet>, n: nat, e: int)
    requires buf != [] && buf[0].sn == e && Block(buf[1..], n, e + 1)
    ensures Block(buf, n + 1, e)
  {
    assert forall i | 1 <= i < |buf| :: buf[i] == buf[1..][i - 1];
  }

  lemma RunUnfolds(buf: seq<Packet>, last: u32, e: u32)
    requires buf != [] && buf[0].sn == e == Expected(last) && e < U32_MAX
    ensures var n := RunLength(buf[1..], e);
            && RunLength(buf, last) == n + 1 && LastAfter(buf, last, n + 1) == LastAfter(buf[1..], e, n)
            && Expected(e) == e + 1
  {}

  lemma RunStops(buf: seq<Packet>, last: u32, e: u32)
    requires Ascending(buf) && e == Expected(last) && (buf != [] ==> buf[0].sn > e)
    ensures RunLength(buf, last) == 0 && LastAfter(buf, last, 0) == last
    ensures forall i | 0 <= i < |buf| :: buf[i].sn > e
  {}

  /** At most one entry per number, so a sorted buffer above `e` fits the window. */
  lemma {:induction false} AscendingFits(buf: seq<Packet>, lo: int, hi: int)
    requires Ascending(buf) && forall p | p in buf :: lo <= p.sn < hi
    ensures buf == [] || |buf| <= hi - lo
  {
    if |buf| > 1 {
      var front := buf[..|buf| - 1];
      var top := buf[|buf| - 1].sn;
      forall p | p in front ensures lo <= p.sn < top {
        var k :| 0 <= k < |front| && front[k] == p;
      }
      assert buf[|buf| - 1] in buf;
      AscendingFits(front, lo, top);
    } else if |buf| == 1 {
      assert buf[0] in buf;
    }
  }

  /** A number a call may deliver: buffered, or parked inside the window. */
  ghost predicate Candidate(c: Conn, k: int) {
    var e := Expected(c.lastRecvedSeq);
    Has(c.reorderBuf, k) || (Has(c.net, k) && e <= k <= e + REORDER_WINDOW)
  }

  /** The packets this call appended to the delivery queue. */
  ghost function Delivery(c: Conn): seq<Packet> {
    var buf := AbsorbAll(c.reorderBuf, Expected(c.lastRecvedSeq), c.net);
    buf[..RunLength(buf, c.lastRecvedSeq)]
  }

  /**
   Reordering is exact. The delivered packets carry e, e+1, ..., e+n-1, all of them
   candidates, and e+n is not one, so the run is the longest possible; the buffer keeps
   exactly the candidates above it, sorted and within the window; nothing stays parked.
   */
  lemma ReorderingIsExact(c: Conn)
    requires GoodBuffer(c.reorderBuf, Expected(c.lastRecvedSeq))
    requires Expected(c.lastRecvedSeq) + REORDER_WINDOW < U32_MAX
    ensures var r, d, e := Reordered(c), Delivery(c), Expected(c.lastRecvedSeq);
            && r.reordered == c.reordered + d
            && (forall i | 0 <= i < |d| :: d[i].sn == e + i)
            && (forall k | e <= k < e + |d| :: Candidate(c, k)) && !Candidate(c, e + |d|)
            && Expected(r.lastRecvedSeq) == e + |d|
            && (forall k :: Has(r.reorderBuf, k) <==> Candidate(c, k) && k > e + |d|)
            && Ascending(r.reorderBuf) && |r.reorderBuf| <= REORDER_WINDOW
            && r.net == []
  {
    var e := Expected(c.lastRecvedSeq);
    AbsorbAllExact(c.reorderBuf, e, c.net);
    RunSplits(AbsorbAll(c.reorderBuf, e, c.net), c.lastRecvedSeq, e);
  }

  lemma RunSplits(buf: seq<Packet>, last: u32, e: u32)
    requires GoodBuffer(buf, e) && e == Expected(last) && e + REORDER_WINDOW < U32_MAX
    ensures var n := RunLength(buf, last);
            && (forall i | 0 <= i < n :: buf[i].sn == e + i)
            && Expected(LastAfter(buf, last, n)) == e + n
            && (forall k | e <= k < e + n :: Has(buf, k)) && !Has(buf, e + n)
            && (forall k :: Has(buf[n..], k) <==> Has(buf, k) && k > e + n)
            && (forall p | p in buf[n..] :: p in buf && p.sn > e + n)
            && Ascending(buf[n..]) && |buf[n..]| <= REORDER_WINDOW
  {
    var n := RunLength(buf, last);
    RunIsConsecutive(buf, last, e);
    SplitNumbers(buf, e, n);
    AscendingFits(buf[n..], e + n + 1, e + REORDER_WINDOW + 1);
  }

  /** Each frame ends as exactly one of delivered, buffered or freed. */
  lemma ReorderingConserves(c: Conn)
    ensures multiset(c.reorderBuf) + multiset(c.net)
         == multiset(Delivery(c)) + multiset(Reordered(c).reorderBuf)
            + Discards(c.reorderBuf, Expected(c.lastRecvedSeq), c.net)
  {
    var buf := AbsorbAll(c.reorderBuf, Expected(c.lastRecvedSeq), c.net);
    var n := RunLength(buf, c.lastRecvedSeq);
    AbsorbAllConserves(c.reorderBuf, Expected(c.lastRecvedSeq), c.net);
    assert buf == buf[..n] + buf[n..];
  }

  lemma SplitNumbers(buf: seq<Packet>, e: u32, n: nat)
    requires n <= |buf|
    requires forall i | 0 <= i < n :: buf[i].sn == e + i
    requires forall i | n <= i < |buf| :: buf[i].sn > e + n
    ensures (forall k | e <= k < e + n :: Has(buf, k)) && !Has(buf, e + n)
    ensures forall k :: Has(buf[n..], k) <==> Has(buf, k) && k > e + n
    ensures forall p | p in buf[n..] :: p in buf && p.sn > e + n
  {
    forall k | e <= k < e + n ensures Has(buf, k) {
      assert buf[k - e] in buf;
    }
    forall k | Has(buf, k) && k > e + n ensures Has(buf[n..], k) {
      var i :| 0 <= i < |buf| && buf[i].sn == k;
      assert buf[i] == buf[n..][i - n];
    }
    assert forall p | p in buf[n..] :: p in buf;
  }

  // ------------------------------------------------------------ frames that come early

  function HeardAll(c: Conn, fs: seq<Packet>, now: int): Conn
    decreases |fs|
  {
    if fs == [] then c else AfterData(HeardAll(c, fs[..|fs| - 1], now), fs[|fs| - 1], now)
  }

  /** Frames other than the expected one are kept for later, all of them, and deliver nothing yet. */
  lemma {:induction false} EarlyFramesAreKept(c: Conn, fs: seq<Packet>, now: int)
    requires forall i | 0 <= i < |fs| :: fs[i].sn != Expected(c.lastRecvedSeq)
    ensures var r := HeardAll(c, fs, now);
            && r.net == c.net + fs && r.reorderBuf == c.reorderBuf
            && r.reordered == c.reordered && r.lastRecvedSeq == c.lastRecvedSeq
    decreases |fs|
  {
    if fs == [] {
      assert c.net + fs == c.net;
    } else {
      EarlyFramesAreKept(c, fs[..|fs| - 1], now);
      assert c.net + fs[..|fs| - 1] + [fs[|fs| - 1]] == c.net + fs;
    }
  }

  /**
   Once the gap closes nothing heard early is lost: if the next `n` numbers were heard in any order
   before the expected one, hearing that one delivers them all.
   */
  lemma GapCloses(c: Conn, fs: seq<Packet>, f: Packet, n: nat, now: int)
    requires GoodBuffer(c.reorderBuf, Expected(c.lastRecvedSeq)) && n <= REORDER_WINDOW
    requires Expected(c.lastRecvedSeq) + REORDER_WINDOW < U32_MAX && f.sn == Expected(c.lastRecvedSeq)
    requires forall i | 0 <= i < |fs| :: fs[i].sn != Expected(c.lastRecvedSeq)
    requires forall k | f.sn < k <= f.sn + n :: Has(fs, k)
    ensures var r := AfterData(HeardAll(c, fs, now), f, now);
            |r.reordered| > |c.reordered| + n && Expected(r.lastRecvedSeq) > f.sn + n
  {
    var c0 := HeardAll(c, fs, now);
    var c1 := Parked(c0, f);
    EarlyFramesAreKept(c, fs, now);
    forall k | f.sn <= k <= f.sn + n ensures Candidate(c1, k) {
      GapCandidate(c, fs, f, c1, k);
    }
    hide HeardAll, Reordered, Candidate, GoodBuffer, Has, AfterData, Delivery;
    ReorderingIsExact(c1);
    DeliveryLength(c1);
    ExpectedDelivers(c0, f, now);
    assert Candidate(c1, f.sn + |Delivery(c1)|) || |Delivery(c1)| > n;
  }

  lemma ExpectedDelivers(c: Conn, f: Packet, now: int)
    requires f.sn == Expected(c.lastRecvedSeq)
    ensures var r, q := AfterData(c, f, now), Reordered(Parked(c, f));
            r.reordered == q.reordered && r.lastRecvedSeq == q.lastRecvedSeq
  {
    hide Reordered;
  }

  lemma GapCandidate(c: Conn, fs: seq<Packet>, f: Packet, c1: Conn, k: int)
    requires c1.net == c.net + fs + [f] && c1.lastRecvedSeq == c.lastRecvedSeq
    requires f.sn == Expected(c.lastRecvedSeq) <= k <= f.sn + REORDER_WINDOW && (k == f.sn || Has(fs, k))
    ensures Candidate(c1, k)
  {
    assert f in c1.net;
    if k != f.sn {
      var p :| p in fs && p.sn == k;
      assert p in c1.net;
    }
  }

  lemma DeliveryLength(c: Conn)
    ensures |Reordered(c).reordered| == |c.reordered| + |Delivery(c)|
  {}
}
