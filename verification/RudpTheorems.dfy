/** The safety theorems, over every run and every pair of moments in it. */
module RudpTheorems {
  import opened Types
  import opened RudpSpec
  import opened RudpPending
  import opened RudpSystem
  import opened RudpSafety

  lemma InvAlong(tr: seq<Sys>, i: nat)
    requires Run(tr) && InLimit(Last(tr)) && i < |tr|
    ensures Inv(tr[i])
  {
    GrowsAlong(tr, i, |tr| - 1);
    RunKeepsInv(tr[..i + 1]);
  }

  lemma NextAt(tr: seq<Sys>, i: nat)
    requires Run(tr) && i + 1 < |tr|
    ensures Next(tr[i], tr[i + 1])
  {
    hide Next, Init;
  }

  /** Histories and the network only grow. */
  lemma {:induction false} GrowsAlong(tr: seq<Sys>, i: nat, j: nat)
    requires Run(tr) && i <= j < |tr|
    ensures tr[i].a.accepted <= tr[j].a.accepted && tr[i].b.accepted <= tr[j].b.accepted
    ensures tr[i].net <= tr[j].net
    ensures tr[i].a.conn.sUid == tr[j].a.conn.sUid && tr[i].b.conn.sUid == tr[j].b.conn.sUid
    decreases j - i
  {
    hide Run;
    if i < j {
      GrowsAlong(tr, i, j - 1);
      NextAt(tr, j - 1);
      StepGrows(tr[j - 1], tr[j]);
      StepGrowsNet(tr[j - 1], tr[j]);
    }
  }

  lemma StepGrowsNet(s: Sys, s': Sys)
    requires Next(s, s')
    ensures s.net <= s'.net
    ensures s.a.conn.sUid == s'.a.conn.sUid && s.b.conn.sUid == s'.b.conn.sUid
  {
    hide Emits;
  }

  /** The two endpoints are interchangeable, so every theorem below also holds from b to a. */
  lemma RunsMirror(tr: seq<Sys>)
    requires Run(tr)
    ensures Run(seq(|tr|, i requires 0 <= i < |tr| => Swap(tr[i])))
  {
    var m := seq(|tr|, i requires 0 <= i < |tr| => Swap(tr[i]));
    forall i | 0 <= i < |m| - 1 ensures Next(m[i], m[i + 1]) {
      var s, s' := tr[i], tr[i + 1];
      assert Next(s, s');
      var atA, ev :| CanStep(s, atA, ev) && s' == Step(s, atA, ev);
      assert CanStep(Swap(s), !atA, ev) && Swap(s') == Step(Swap(s), !atA, ev);
    }
    assert Init(m[0]) by {
      var ua: u32, ub: u32, ta: int, tb: int :|
        ua != ub && tr[0] == Sys(NewEndpoint(ua, ub, ta), NewEndpoint(ub, ua, tb), {});
      assert m[0] == Sys(NewEndpoint(ub, ua, tb), NewEndpoint(ua, ub, ta), {});
    }
  }

  /**
   End-to-end safety: whatever the network does, each side's deliveries, and what its
   application consumed, are a gap-free, repeat-free, in-order prefix of what the other
   side accepted, packet contents included.
   */
  lemma DeliveryIsPrefix(tr: seq<Sys>, i: nat)
    requires Run(tr) && InLimit(Last(tr)) && i < |tr|
    ensures Delivered(tr[i].b) <= tr[i].a.accepted && Delivered(tr[i].a) <= tr[i].b.accepted
    ensures tr[i].b.consumed <= tr[i].a.accepted && tr[i].a.consumed <= tr[i].b.accepted
  {
    InvAlong(tr, i);
  }

  lemma DataOnlyAppends(c: Conn, f: Packet, now: int)
    ensures c.reordered <= AfterData(c, f, now).reordered
  {
    hide AbsorbAll, RunLength, LastAfter, Acks, NextThreshold;
  }

  /** No step of an endpoint, whatever it handles, withdraws a delivered packet. */
  lemma ActKeepsDelivered(e: Endpoint, ev: Event)
    ensures Delivered(e) <= Delivered(Act(e, ev))
  {
    hide AfterData, AfterRack;
    match ev
    case Send(_, _) =>
    case Recv => RecvKeepsDelivered(e);
    case Timeouts(_) =>
    case Arrive(f, now) =>
      DataOnlyAppends(e.conn, f, now);
      RackLeavesQueue(e.conn, f.sn, now);
  }

  lemma RackLeavesQueue(c: Conn, ack: u32, now: int)
    ensures AfterRack(c, ack, now).reordered == c.reordered
  {}

  /** Both ends delivered at least as much, the old packets in front. */
  ghost predicate Extends(s: Sys, s': Sys) {
    Delivered(s.a) <= Delivered(s'.a) && Delivered(s.b) <= Delivered(s'.b)
  }

  lemma StepExtends(s: Sys, s': Sys)
    requires Next(s, s')
    ensures Extends(s, s')
  {
    hide Act, Emits, Delivered;
    var atA, ev :| CanStep(s, atA, ev) && s' == Step(s, atA, ev);
    ActKeepsDelivered(if atA then s.a else s.b, ev);
  }

  lemma ExtendsSelf(s: Sys)
    ensures Extends(s, s)
  {}

  lemma ExtendsThrough(s: Sys, s': Sys, s'': Sys)
    requires Extends(s, s') && Extends(s', s'')
    ensures Extends(s, s'')
  {}

  /** What was delivered once is never withdrawn or changed, in any run whatever its length. */
  lemma {:induction false} DeliveryGrows(tr: seq<Sys>, i: nat, j: nat)
    requires Run(tr) && i <= j < |tr|
    ensures Extends(tr[i], tr[j])
    decreases j - i
  {
    hide Run, Extends;
    if i < j {
      DeliveryGrows(tr, i, j - 1);
      NextAt(tr, j - 1);
      StepExtends(tr[j - 1], tr[j]);
      ExtendsThrough(tr[i], tr[j - 1], tr[j]);
    } else {
      ExtendsSelf(tr[i]);
    }
  }

  /** A receive call hands over the front of the delivery queue and takes off nothing else. */
  lemma RecvTakesFront(c: Conn)
    ensures RecvCode(c).Got? ==> c.reordered == [RecvCode(c).pkt] + AfterRecv(c).reordered
    ensures RecvCode(c).Closed? <==> c.closed
    ensures RecvCode(c).QueueEmpty? <==> !c.closed && c.reordered == []
    ensures AfterRecv(c).(reordered := c.reordered) == c && (!RecvCode(c).Got? ==> AfterRecv(c) == c)
  {}

  /** While open, the pending numbers are exactly [highest ack + 1, current_seq), at most 128 of them. */
  lemma WindowIsExact(tr: seq<Sys>, i: nat)
    requires Run(tr) && InLimit(Last(tr)) && i < |tr|
    ensures var a := tr[i].a;
            && a.conn.currentSeq == |a.accepted|
            && (!a.conn.closed ==>
                  && |a.conn.fhost| == a.conn.currentSeq - a.acked <= SEND_WINDOW
                  && forall q :: Pends(a.conn.fhost, q) <==> a.acked <= q < a.conn.currentSeq)
  {
    InvAlong(tr, i);
    var a := tr[i].a;
    if !a.conn.closed {
      DistinctFits(a.conn.fhost, a.acked, |a.accepted|);
    }
  }

  /**
   Window agreement: a frame the sender emitted at any moment, whenever it arrives later,
   passes the receiver's window test exactly when it has not been delivered yet.
   */
  lemma WindowsAgree(tr: seq<Sys>, i: nat, j: nat, f: Packet)
    requires Run(tr) && InLimit(Last(tr)) && i <= j < |tr|
    requires f in tr[i].net && f.hFrom == tr[i].a.conn.sUid && f.ptype == PACK_DATA
    ensures var e := Expected(tr[j].b.conn.lastRecvedSeq);
            && e == |Delivered(tr[j].b)|
            && (InWindow(e, f.sn) <==> f.sn >= e)
            && f.sn - e < REORDER_WINDOW
            && (|tr[j].a.accepted| <= 0x8000_0000 ==> SignedDiff(f.sn, e) < REORDER_WINDOW)
  {
    InvAlong(tr, j);
    GrowsAlong(tr, i, j);
    assert Genuine(tr[j].a.accepted, f);
  }

  /** A send is refused exactly when the connection is closed or 128 packets await an acknowledgement. */
  lemma SendRefusedExactly(tr: seq<Sys>, i: nat)
    requires Run(tr) && InLimit(Last(tr)) && i < |tr|
    ensures var a := tr[i].a;
            && (SendCode(a.conn) == NotConnected <==> a.conn.closed)
            && (SendCode(a.conn) == WouldBlock <==> !a.conn.closed && |a.accepted| - a.acked == 128)
  {
    WindowIsExact(tr, i);
  }

  /** Reliability: while the sender is open, every assigned number is pending or delivered at the peer. */
  lemma NothingForgotten(tr: seq<Sys>, i: nat, q: nat)
    requires Run(tr) && InLimit(Last(tr)) && i < |tr|
    requires !tr[i].a.conn.closed && q < tr[i].a.conn.currentSeq
    ensures Pends(tr[i].a.conn.fhost, q)
         || (q < |Delivered(tr[i].b)| <= |tr[i].a.accepted| && Delivered(tr[i].b)[q] == tr[i].a.accepted[q])
  {
    InvAlong(tr, i);
  }

  /** Between steps the expected frame is in neither container, so no delivery is overdue. */
  lemma NothingOverdue(tr: seq<Sys>, i: nat, p: Packet)
    requires Run(tr) && InLimit(Last(tr)) && i < |tr|
    requires p in tr[i].b.conn.net || p in tr[i].b.conn.reorderBuf
    ensures p.sn != Expected(tr[i].b.conn.lastRecvedSeq)
  {
    InvAlong(tr, i);
  }

  ghost predicate OnlyData(c: Conn) { forall p | p in c.fhost :: p.pack.ptype == PACK_DATA }

  /** The number an endpoint will use next counts what it sent. */
  ghost predicate Counted(e: Endpoint) { e.conn.currentSeq == |e.accepted| % U32_LIMIT }

  ghost predicate AckBetween(f: Packet, x: u32, y: u32) {
    f.hFrom == x && f.hTo == y && f.data == [] && f.chsum == 0
  }

  /** Each end knows the other, and every acknowledgement on the network names both. */
  ghost predicate Addressed(s: Sys) {
    && s.a.conn.cUid == s.b.conn.sUid && s.b.conn.cUid == s.a.conn.sUid
    && Counted(s.a) && Counted(s.b) && OnlyData(s.a.conn) && OnlyData(s.b.conn)
    && forall f | f in s.net && f.ptype == PACK_RACK ::
         AckBetween(f, s.a.conn.sUid, s.b.conn.sUid) || AckBetween(f, s.b.conn.sUid, s.a.conn.sUid)
  }

  lemma EmitsAddressed(e: Endpoint, ev: Event, peer: u32, net: set<Packet>)
    requires Enabled(e, peer, net, ev) && OnlyData(e.conn) && Counted(e)
    ensures forall f | f in Emits(e, ev) && f.ptype == PACK_RACK :: AckBetween(f, e.conn.sUid, e.conn.cUid)
    ensures OnlyData(Act(e, ev).conn) && Counted(Act(e, ev))
    ensures Act(e, ev).conn.sUid == e.conn.sUid && Act(e, ev).conn.cUid == e.conn.cUid
  {
    match ev
    case Send(pkt, now) => SendCounts(e, pkt, now);
    case Recv =>
    case Timeouts(now) => SweepAddressed(e.conn, now);
    case Arrive(f, now) =>
      DataLeavesSender(e.conn, f, now);
      SweepMembers(e.conn.fhost, f.sn);
      hide AfterData, Taken, Sweep;
  }

  lemma SendCounts(e: Endpoint, pkt: Packet, now: int)
    requires Counted(e) && OnlyData(e.conn) && pkt.ptype == PACK_DATA
    ensures Counted(Act(e, Send(pkt, now))) && OnlyData(Act(e, Send(pkt, now)).conn)
  {}

  lemma SweepAddressed(c: Conn, now: int)
    requires OnlyData(c)
    ensures OnlyData(AfterTimeouts(c, now)) && forall f | f in TimeoutFrames(c, now) :: f.ptype == PACK_DATA
  {
    DuePacksMembers(c.fhost[..FirstCapped(c.fhost)], c.avgRttMs, now);
    TimeoutsMembers(c, now);
  }

  lemma DataLeavesSender(c: Conn, f: Packet, now: int)
    ensures var r := AfterData(c, f, now);
            r.fhost == c.fhost && r.currentSeq == c.currentSeq && r.sUid == c.sUid && r.cUid == c.cUid
    ensures forall m | m in DataFrames(c, f, now) :: AckBetween(m, c.sUid, c.cUid)
  {
    hide AbsorbAll, RunLength, LastAfter, NextThreshold, ShouldAck;
  }

  lemma NextAddressed(s: Sys, s': Sys)
    requires Next(s, s') && Addressed(s)
    ensures Addressed(s')
  {
    hide Act, Emits, OnlyData, Counted, AckBetween;
    var atA, ev :| CanStep(s, atA, ev) && s' == Step(s, atA, ev);
    if atA {
      EmitsAddressed(s.a, ev, s.b.conn.sUid, s.net);
    } else {
      EmitsAddressed(s.b, ev, s.a.conn.sUid, s.net);
    }
  }

  lemma InitAddressed(s: Sys)
    requires Init(s)
    ensures Addressed(s)
  {}

  /** In every run acknowledgements are addressed to the other end, and numbers count what was sent. */
  lemma {:induction false} AlwaysAddressed(tr: seq<Sys>, i: nat)
    requires Run(tr) && i < |tr|
    ensures Addressed(tr[i])
  {
    if i == 0 {
      hide Addressed, Init, Next;
      InitAddressed(tr[0]);
    } else {
      hide Run, Addressed;
      AlwaysAddressed(tr, i - 1);
      NextAt(tr, i - 1);
      NextAddressed(tr[i - 1], tr[i]);
    }
  }

  /** A FIN carries the number after the last one sent, from this end to the other. */
  lemma FinNamesTheEnds(tr: seq<Sys>, i: nat)
    requires Run(tr) && i < |tr|
    ensures var f := FinFrame(tr[i].a.conn);
            && f.ptype == PACK_FIN && f.sn == |tr[i].a.accepted| % U32_LIMIT && f.data == []
            && f.hFrom == tr[i].a.conn.sUid && f.hTo == tr[i].b.conn.sUid
  {
    hide Run;
    AlwaysAddressed(tr, i);
  }

  /** Why the limit: past 2^32 - 128 sends a long delivered frame can look like a future one. */
  lemma StaleFrameMistaken(e: u32, stale: u32)
    requires stale < e
    ensures InWindow(e, stale) <==> e - stale >= U32_LIMIT - REORDER_WINDOW
  {}
}
