/**
 Whole-run safety of RUDP: what the receiver delivers is a prefix of what the sender
 accepted, the two windows agree, and nothing assigned is forgotten while the sender is open.
 */
module RudpSafety {
  import opened Types
  import opened RudpSpec
  import opened RudpReorder
  import opened RudpPending
  import opened RudpSystem

  /** Sequence numbers are not reused below this many sends, stale frames included. */
  const MAX_SENDS: nat := U32_MAX - REORDER_WINDOW

  ghost predicate InLimit(s: Sys) { |s.a.accepted| < MAX_SENDS && |s.b.accepted| < MAX_SENDS }

  // ------------------------------------------------------------- the invariant

  /** `p` is the packet the sender accepted under that number. */
  ghost predicate Genuine(accepted: seq<Packet>, p: Packet) {
    p.sn < |accepted| && p == accepted[p.sn]
  }

  ghost predicate Numbered(accepted: seq<Packet>, uid: u32) {
    forall i | 0 <= i < |accepted| ::
      accepted[i].sn == i && accepted[i].ptype == PACK_DATA && accepted[i].hFrom == uid
  }

  /** The pending list against the history: no stranger, no repeat, and no gap while open. */
  ghost predicate PendingInv(s: seq<Pending>, accepted: seq<Packet>, acked: nat, closed: bool) {
    && acked <= |accepted| <= acked + SEND_WINDOW
    && Distinct(s)
    && (forall p | p in s :: acked <= p.sn && Genuine(accepted, p.pack) && p.pack.sn == p.sn)
    && (!closed ==> forall q | acked <= q < |accepted| :: Pends(s, q))
  }

  ghost predicate SenderInv(e: Endpoint) {
    && e.conn.currentSeq == |e.accepted|
    && Numbered(e.accepted, e.conn.sUid)
    && PendingInv(e.conn.fhost, e.accepted, e.acked, e.conn.closed)
  }

  /** The expected number is the count of delivered packets, and it waits in neither container. */
  ghost predicate BufferInv(c: Conn, accepted: seq<Packet>, d: nat) {
    && c.lastRecvedSeq == (if d == 0 then U32_MAX else d - 1)
    && Ascending(c.reorderBuf)
    && (forall p | p in c.reorderBuf :: Genuine(accepted, p) && d < p.sn)
    && (forall p | p in c.net :: Genuine(accepted, p) && p.sn != d)
  }

  ghost predicate ReceiverInv(r: Endpoint, accepted: seq<Packet>) {
    Delivered(r) <= accepted && BufferInv(r.conn, accepted, |Delivered(r)|)
  }

  /** Frames from the sender are genuine; acknowledgements never run ahead of delivery. */
  ghost predicate NetInv(net: set<Packet>, s: Endpoint, r: Endpoint) {
    && (forall i | 0 <= i < |s.accepted| :: s.accepted[i] in net)
    && (forall f | f in net && f.hFrom == s.conn.sUid && f.ptype == PACK_DATA :: Genuine(s.accepted, f))
    && (forall f | f in net && f.hFrom == r.conn.sUid && f.ptype == PACK_RACK :: f.sn < |Delivered(r)|)
  }

  /** One direction of the connection, from `s` to `r`. */
  ghost predicate DirInv(s: Endpoint, r: Endpoint, net: set<Packet>) {
    && s.conn.sUid != r.conn.sUid && |s.accepted| < MAX_SENDS
    && SenderInv(s) && ReceiverInv(r, s.accepted) && NetInv(net, s, r)
    && s.acked <= |Delivered(r)|
  }

  ghost predicate Inv(s: Sys) { DirInv(s.a, s.b, s.net) && DirInv(s.b, s.a, s.net) }

  // ------------------------------------------------------ the sender's own steps

  lemma SendKeepsSender(e: Endpoint, ev: Event)
    requires SenderInv(e) && ev.Send? && ev.pkt.ptype == PACK_DATA && ev.pkt.hFrom == e.conn.sUid
    requires |e.accepted| < MAX_SENDS
    ensures SenderInv(Act(e, ev)) && e.accepted <= Act(e, ev).accepted
  {
    if SendCode(e.conn) == Accepted {
      var f := e.conn.fhost;
      var p := Pending(e.conn.currentSeq, ev.now, Stamped(e.conn, ev.pkt), 0);
      var acc := e.accepted + [p.pack];
      DistinctFits(f, e.acked, |e.accepted|);
      assert forall x :: x in f + [p] <==> x in f || x == p;
      forall q | e.acked <= q < |acc| ensures Pends(f + [p], q) {
        if q < |e.accepted| {
          assert Pends(f, q);
        } else {
          assert p in f + [p];
        }
      }
      assert Distinct(f + [p]) by {
        forall i | 0 <= i < |f| ensures f[i].sn != p.sn { assert f[i] in f; }
      }
    }
  }

  /** Same numbers and packets in the same places: the invariant cannot tell the lists apart. */
  lemma SamePlacesKeepPending(s: seq<Pending>, r: seq<Pending>, accepted: seq<Packet>, acked: nat, closed: bool)
    requires PendingInv(s, accepted, acked, closed)
    requires |r| == |s| && forall j | 0 <= j < |s| :: r[j].sn == s[j].sn && r[j].pack == s[j].pack
    ensures PendingInv(r, accepted, acked, closed)
  {
    forall p | p in r ensures acked <= p.sn && Genuine(accepted, p.pack) && p.pack.sn == p.sn {
      var j :| 0 <= j < |r| && r[j] == p;
      assert s[j] in s;
    }
    forall q | !closed && acked <= q < |accepted| ensures Pends(r, q) {
      assert Pends(s, q);
      var j :| 0 <= j < |s| && s[j].sn == q;
      assert r[j] in r;
    }
  }

  lemma GiveUpKeepsPending(s: seq<Pending>, k: nat, accepted: seq<Packet>, acked: nat, closed: bool)
    requires PendingInv(s, accepted, acked, closed) && k < |s|
    ensures PendingInv(SwapRemove(s, k), accepted, acked, true)
  {
    SwapRemoveMembers(s, k);
    forall p | p in SwapRemove(s, k) ensures p in s {
      assert p in multiset(SwapRemove(s, k)) && p in multiset(s);
    }
  }

  lemma TimeoutsKeepPending(e: Endpoint, now: int)
    requires SenderInv(e)
    ensures PendingInv(AfterTimeouts(e.conn, now).fhost, e.accepted, e.acked, AfterTimeouts(e.conn, now).closed)
  {
    hide PendingInv, RetriedUpTo, Distinct;
    var s, k := e.conn.fhost, FirstCapped(e.conn.fhost);
    var r := RetriedUpTo(s, k, e.conn.avgRttMs, now);
    TimeoutsMembers(e.conn, now);
    SamePlacesKeepPending(s, r, e.accepted, e.acked, e.conn.closed);
    if k < |s| {
      GiveUpKeepsPending(r, k, e.accepted, e.acked, e.conn.closed);
    }
  }

  lemma TimeoutFramesGenuine(e: Endpoint, now: int)
    requires SenderInv(e)
    ensures forall f | f in TimeoutFrames(e.conn, now) :: Genuine(e.accepted, f)
  {
    DuePacksMembers(e.conn.fhost[..FirstCapped(e.conn.fhost)], e.conn.avgRttMs, now);
    assert forall p | p in e.conn.fhost[..FirstCapped(e.conn.fhost)] :: p in e.conn.fhost;
  }

  lemma RackKeepsPending(e: Endpoint, f: Packet, now: int)
    requires SenderInv(e) && f.sn < |e.accepted|
    ensures PendingInv(AfterRack(e.conn, f.sn, now).fhost, e.accepted, Max(e.acked, f.sn + 1), e.conn.closed)
  {
    var s := e.conn.fhost;
    var r := Sweep(s, 0, f.sn);
    SweepMembers(s, f.sn);
    SweepDistinct(s, 0, f.sn);
    forall q | !e.conn.closed && Max(e.acked, f.sn + 1) <= q < |e.accepted| ensures Pends(r, q) {
      assert Pends(s, q);
      var p :| p in s && p.sn == q;
      assert p in r;
    }
  }

  // ---------------------------------------------------- the receiver's own steps

  lemma TakenKeepsBuffer(c: Conn, f: Packet, accepted: seq<Packet>, d: nat)
    requires |accepted| < MAX_SENDS && d <= |accepted| <= d + REORDER_WINDOW
    requires BufferInv(c, accepted, d) && Genuine(accepted, f) && Numbered(accepted, f.hFrom)
    ensures var c1 := Taken(c, f);
            var n := |c1.reordered| - |c.reordered|;
            && 0 <= n && d + n <= |accepted|
            && c1.reordered == c.reordered + accepted[d..d + n]
            && BufferInv(c1, accepted, d + n)
            && (f.sn == d ==> n > 0)
  {
    hide Reordered;
    assert f in c.net + [f];
    assert forall p | p in c.net + [f] :: p in c.net || p == f;
    if f.sn == d {
      ReorderGenuine(Parked(c, f), accepted, d);
    } else {
      assert accepted[d..d] == [];
    }
  }

  /** What the handler hands to reordering: genuine frames, the expected one among those parked. */
  ghost predicate ReorderInput(held: seq<Packet>, net: seq<Packet>, accepted: seq<Packet>, d: nat) {
    && |accepted| < MAX_SENDS && d < |accepted| <= d + REORDER_WINDOW
    && Ascending(held) && Has(net, d)
    && (forall p | p in held :: Genuine(accepted, p) && d < p.sn)
    && (forall p | p in net :: Genuine(accepted, p))
  }

  ghost predicate RunInput(buf: seq<Packet>, accepted: seq<Packet>, d: nat) {
    GoodBuffer(buf, d) && Has(buf, d) && forall p | p in buf :: Genuine(accepted, p)
  }

  /** Applied to genuine frames, reordering delivers the next accepted packets. */
  lemma ReorderGenuine(c: Conn, accepted: seq<Packet>, d: nat)
    requires ReorderInput(c.reorderBuf, c.net, accepted, d)
    requires c.lastRecvedSeq == (if d == 0 then U32_MAX else d - 1)
    ensures var r := Reordered(c);
            var n := |r.reordered| - |c.reordered|;
            && 0 < n && d + n <= |accepted|
            && r.reordered == c.reordered + accepted[d..d + n]
            && BufferInv(r, accepted, d + n)
  {
    hide Reordered, AbsorbAll, RunLength, LastAfter, Ascending;
    var buf := AbsorbAll(c.reorderBuf, d, c.net);
    AbsorbGenuine(c.reorderBuf, c.net, accepted, d);
    SplitGenuine(buf, c.lastRecvedSeq, accepted, d);
    ReorderedParts(c, buf, RunLength(buf, c.lastRecvedSeq));
  }

  lemma ReorderedParts(c: Conn, buf: seq<Packet>, n: nat)
    requires buf == AbsorbAll(c.reorderBuf, Expected(c.lastRecvedSeq), c.net)
    requires n == RunLength(buf, c.lastRecvedSeq)
    ensures var r := Reordered(c);
            && r.reordered == c.reordered + buf[..n] && |r.reordered| - |c.reordered| == n
            && r.reorderBuf == buf[n..] && r.net == []
            && r.lastRecvedSeq == LastAfter(buf, c.lastRecvedSeq, n)
  {}

  lemma AbsorbGenuine(held: seq<Packet>, net: seq<Packet>, accepted: seq<Packet>, d: nat)
    requires ReorderInput(held, net, accepted, d)
    ensures RunInput(AbsorbAll(held, d, net), accepted, d)
  {
    assert GoodBuffer(held, d);
    AbsorbAllExact(held, d, net);
    AbsorbAllMembers(held, d, net);
  }

  lemma SplitGenuine(buf: seq<Packet>, last: u32, accepted: seq<Packet>, d: nat)
    requires |accepted| < MAX_SENDS && d < |accepted| && RunInput(buf, accepted, d)
    requires last == (if d == 0 then U32_MAX else d - 1)
    ensures var n := RunLength(buf, last);
            && 0 < n && d + n <= |accepted| && buf[..n] == accepted[d..d + n]
            && LastAfter(buf, last, n) == d + n - 1
            && Ascending(buf[n..])
            && (forall p | p in buf[n..] :: Genuine(accepted, p) && d + n < p.sn)
  {
    RunSplits(buf, last, d);
    RunIsSlice(buf, accepted, d, RunLength(buf, last));
  }

  lemma RunIsSlice(buf: seq<Packet>, accepted: seq<Packet>, d: nat, n: nat)
    requires n <= |buf| && d <= |accepted| && forall p | p in buf :: Genuine(accepted, p)
    requires forall i | 0 <= i < n :: buf[i].sn == d + i
    ensures d + n <= |accepted| && buf[..n] == accepted[d..d + n]
  {
    assert forall i | 0 <= i < n :: buf[i] in buf;
    if n > 0 { assert Genuine(accepted, buf[n - 1]); }
  }

  lemma DataKeepsReceiver(r: Endpoint, f: Packet, now: int, s: Endpoint)
    requires ReceiverInv(r, s.accepted) && SenderInv(s) && s.acked <= |Delivered(r)|
    requires |s.accepted| < MAX_SENDS
    requires Genuine(s.accepted, f) && f.hFrom == s.conn.sUid && f.ptype == PACK_DATA
    ensures ReceiverInv(Act(r, Arrive(f, now)), s.accepted)
    ensures Delivered(r) <= Delivered(Act(r, Arrive(f, now)))
    ensures f.sn == |Delivered(r)| ==> |Delivered(r)| < |Delivered(Act(r, Arrive(f, now)))|
  {
    var acc, d := s.accepted, |Delivered(r)|;
    TakenKeepsBuffer(r.conn, f, acc, d);
    AckLeavesReceiver(r.conn, f, now);
    var n := |Taken(r.conn, f).reordered| - |r.conn.reordered|;
    PrefixGrows(r.consumed, r.conn.reordered, acc, d, n);
  }

  /** Sending the acknowledgement touches none of the receiver's containers. */
  lemma AckLeavesReceiver(c: Conn, f: Packet, now: int)
    ensures var x, y := AfterData(c, f, now), Taken(c, f);
            && x.net == y.net && x.reorderBuf == y.reorderBuf && x.reordered == y.reordered
            && x.lastRecvedSeq == y.lastRecvedSeq
  {}

  lemma PrefixGrows(consumed: seq<Packet>, queue: seq<Packet>, acc: seq<Packet>, d: nat, n: nat)
    requires consumed + queue <= acc && d == |consumed + queue| && d + n <= |acc|
    ensures consumed + (queue + acc[d..d + n]) == acc[..d + n]
    ensures consumed + queue <= consumed + (queue + acc[d..d + n])
  {
    assert consumed + (queue + acc[d..d + n]) == (consumed + queue) + acc[d..d + n];
    assert acc[..d] + acc[d..d + n] == acc[..d + n];
  }

  lemma RackFollowsDelivery(r: Endpoint, f: Packet, now: int, accepted: seq<Packet>)
    requires ReceiverInv(Act(r, Arrive(f, now)), accepted) && f.ptype == PACK_DATA
    ensures forall m | m in DataFrames(r.conn, f, now) ::
              && m.ptype == PACK_RACK && m.hFrom == r.conn.sUid
              && m.sn == |Delivered(Act(r, Arrive(f, now)))| - 1
  {
    assert AfterData(r.conn, f, now).lastRecvedSeq == Taken(r.conn, f).lastRecvedSeq;
  }

  lemma RecvKeepsDelivered(e: Endpoint)
    ensures Delivered(Act(e, Recv)) == Delivered(e)
  {
    if RecvCode(e.conn).Got? {
      assert e.conn.reordered == [e.conn.reordered[0]] + e.conn.reordered[1..];
    }
  }

  // ------------------------------------------------------- steps and directions

  /** A step of the sending side keeps the direction. */
  lemma SenderStep(s: Endpoint, r: Endpoint, net: set<Packet>, ev: Event)
    requires DirInv(s, r, net) && Enabled(s, r.conn.sUid, net, ev)
    requires |Act(s, ev).accepted| < MAX_SENDS
    ensures DirInv(Act(s, ev), r, net + Elems(Emits(s, ev)))
    ensures s.accepted <= Act(s, ev).accepted
  {
    match ev
    case Send(pkt, now) =>
      SendKeepsSender(s, ev);
    case Recv =>
    case Timeouts(now) =>
      TimeoutsKeepPending(s, now);
      TimeoutFramesGenuine(s, now);
    case Arrive(f, now) =>
      if f.ptype == PACK_RACK {
        RackKeepsPending(s, f, now);
      }
  }

  /** A step of the receiving side keeps the direction. */
  lemma ReceiverStep(s: Endpoint, r: Endpoint, net: set<Packet>, ev: Event)
    requires DirInv(s, r, net) && Enabled(r, s.conn.sUid, net, ev)
    requires SenderInv(r)
    ensures DirInv(s, Act(r, ev), net + Elems(Emits(r, ev)))
    ensures Delivered(r) <= Delivered(Act(r, ev))
  {
    match ev
    case Send(pkt, now) =>
    case Recv =>
      RecvKeepsDelivered(r);
    case Timeouts(now) =>
      TimeoutFramesGenuine(r, now);
    case Arrive(f, now) =>
      if f.ptype == PACK_DATA {
        DataKeepsReceiver(r, f, now, s);
        RackFollowsDelivery(r, f, now, s.accepted);
      }
  }

  lemma StepKeepsInv(s: Sys, atA: bool, ev: Event)
    requires Inv(s) && CanStep(s, atA, ev) && InLimit(Step(s, atA, ev))
    ensures Inv(Step(s, atA, ev))
  {
    if atA {
      SenderStep(s.a, s.b, s.net, ev);
      ReceiverStep(s.b, s.a, s.net, ev);
    } else {
      SenderStep(s.b, s.a, s.net, ev);
      ReceiverStep(s.a, s.b, s.net, ev);
    }
  }

  /** Histories only grow, so a run within the limit was within it all along. */
  lemma StepGrows(s: Sys, s': Sys)
    requires Next(s, s')
    ensures s.a.accepted <= s'.a.accepted && s.b.accepted <= s'.b.accepted
  {}

  lemma {:induction false} RunKeepsInv(tr: seq<Sys>)
    requires Run(tr) && InLimit(Last(tr))
    ensures Inv(Last(tr))
    decreases |tr|
  {
    if |tr| == 1 {
      return;
    }
    var front := tr[..|tr| - 1];
    var s, s' := Last(front), Last(tr);
    assert s == tr[|tr| - 2] && Next(tr[|tr| - 2], tr[|tr| - 2 + 1]);
    StepGrows(s, s');
    RunKeepsInv(front);
    var atA, ev :| CanStep(s, atA, ev) && s' == Step(s, atA, ev);
    StepKeepsInv(s, atA, ev);
  }
}
