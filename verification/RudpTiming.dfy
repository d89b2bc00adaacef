/** Bounds on the estimator, the acknowledgement threshold and the retransmission clock. */
module RudpTiming {
  import opened Types
  import opened RudpSpec
  import opened RudpPending
  import opened RudpSystem
  import opened RudpSafety
  import opened RudpTheorems

  const MIN_RTT: int := 20
  const MAX_RTT: int := 9999

  ghost predicate Tuned(c: Conn) {
    && MIN_RTT <= c.avgRttMs <= MAX_RTT
    && 2 <= c.ackThreshold <= 16
    && forall p | p in c.fhost :: p.retransmits <= RETRANSMISSION_CAP
  }

  function Clamped(sample: int): int { if sample < MIN_RTT then MIN_RTT else sample }

  /** A sample is an outlier when it exceeds three times an average above 50 ms. */
  predicate Outlier(avg: int, sample: int) { sample > 3 * avg && avg > 50 }

  /**
   An update moves the average towards the clamped sample and never past it: by a quarter of the
   distance, rounded down, or by an eighth for an outlier. So it stands still only within four
   milliseconds below the sample.
   */
  lemma RttMovesTowardsSample(avg: int, sample: int)
    requires MIN_RTT <= avg <= MAX_RTT
    ensures MIN_RTT <= NextRtt(avg, sample) <= MAX_RTT
    ensures 0 < sample < 10000 ==>
      && (avg <= Clamped(sample) ==> avg <= NextRtt(avg, sample) <= Clamped(sample))
      && (Clamped(sample) <= avg ==> Clamped(sample) <= NextRtt(avg, sample) <= avg)
    ensures 0 < sample < 10000 ==>
      var d, step := Clamped(sample) - avg, NextRtt(avg, sample) - avg;
      if Outlier(avg, Clamped(sample)) then 8 * step <= d < 8 * step + 8 else 4 * step <= d < 4 * step + 4
    ensures 0 < sample < 10000 ==> (NextRtt(avg, sample) == avg <==> avg <= Clamped(sample) < avg + 4)
    ensures !(0 < sample < 10000) ==> NextRtt(avg, sample) == avg
  {}

  /**
   An acknowledgement measures the round trip of the packet it names, if that is pending and was
   sent once, and moves the average by that sample; otherwise the average stays.
   */
  lemma AckMeasures(c: Conn, ack: u32, now: int)
    requires Distinct(c.fhost)
    ensures (forall j | 0 <= j < |c.fhost| && c.fhost[j].sn == ack && c.fhost[j].retransmits == 0 ::
               AfterRack(c, ack, now).avgRttMs == NextRtt(c.avgRttMs, now - c.fhost[j].timestamp))
    ensures (forall j | 0 <= j < |c.fhost| :: c.fhost[j].sn != ack || c.fhost[j].retransmits > 0) ==>
              AfterRack(c, ack, now).avgRttMs == c.avgRttMs
  {
    SampleIsExact(c.fhost, 0, ack, now, -1);
  }

  /** The threshold after acknowledging batches of these sizes at a constant average. */
  function ThresholdAfter(avg: int, t: u32, counts: seq<u32>): u32 {
    if counts == [] then t
    else NextThreshold(avg, ThresholdAfter(avg, t, counts[..|counts| - 1]), counts[|counts| - 1])
  }

  /**
   Where the threshold ends up: acknowledgements over a fast link drive it to 16 within seven,
   over a slow link to 2 within fourteen, and it stays there; in between it never moves.
   */
  lemma {:induction false} ThresholdSettles(avg: int, t: u32, counts: seq<u32>)
    requires 2 <= t <= 16 && forall i | 0 <= i < |counts| :: counts[i] > 0
    ensures 2 <= ThresholdAfter(avg, t, counts) <= 16
    ensures avg < 30 ==> ThresholdAfter(avg, t, counts) == if t + 2 * |counts| < 16 then t + 2 * |counts| else 16
    ensures avg > 100 ==> ThresholdAfter(avg, t, counts) == if t - |counts| > 2 then t - |counts| else 2
    ensures 30 <= avg <= 100 ==> ThresholdAfter(avg, t, counts) == t
    decreases |counts|
  {
    if counts != [] {
      ThresholdSettles(avg, t, counts[..|counts| - 1]);
    }
  }

  /** An acknowledgement that counts no frame also brings the threshold down to four. */
  lemma EmptyBatch(avg: int, t: u32)
    requires 2 <= t <= 16
    ensures var usual := NextThreshold(avg, t, 1);
            NextThreshold(avg, t, 0) == if usual > 4 then 4 else usual
  {}

  lemma SweptRetransmits(c: Conn, ack: u32, now: int)
    requires Tuned(c)
    ensures Tuned(AfterRack(c, ack, now))
  {
    SweepMembers(c.fhost, ack);
    RttMovesTowardsSample(c.avgRttMs, SweepSample(c.fhost, 0, ack, now, -1));
  }

  /** Where entry `j` of the pending list ends up after the retry pass. */
  lemma RetriedAt(s: seq<Pending>, k: nat, avg: int, now: int, j: nat)
    requires j < |s| && k <= |s|
    ensures RetriedUpTo(s, k, avg, now)[j] == if j < k then Retried(s[j], avg, now) else s[j]
  {
    if j < k {
      RetryAllAt(s[..k], avg, now, j);
    } else {
      assert RetriedUpTo(s, k, avg, now)[j] == RetriedUpTo(s, k, avg, now)[k..][j - k];
      assert s[j] == s[k..][j - k];
    }
  }

  lemma RetriedFrom(s: seq<Pending>, k: nat, avg: int, now: int, p: Pending) returns (q: Pending)
    requires k <= FirstCapped(s) && p in RetriedUpTo(s, k, avg, now)
    ensures q in s && (p == q || (!Capped(q) && Due(q, avg, now) && p == Retried(q, avg, now)))
  {
    var r := RetriedUpTo(s, k, avg, now);
    var j :| 0 <= j < |r| && r[j] == p;
    RetriedAt(s, k, avg, now, j);
    q := s[j];
  }

  /** Every pending packet after a sweep is an old one, retried or left alone. */
  lemma AfterTimeoutsFrom(c: Conn, now: int, p: Pending) returns (q: Pending)
    requires p in AfterTimeouts(c, now).fhost
    ensures q in c.fhost && (p == q || (!Capped(q) && Due(q, c.avgRttMs, now) && p == Retried(q, c.avgRttMs, now)))
  {
    var k := FirstCapped(c.fhost);
    var r := RetriedUpTo(c.fhost, k, c.avgRttMs, now);
    if k < |r| {
      SwapRemoveMembers(r, k);
      assert p in multiset(SwapRemove(r, k)) && p in multiset(r);
    }
    q := RetriedFrom(c.fhost, k, c.avgRttMs, now, p);
  }

  lemma TimeoutsKeepTuned(c: Conn, now: int)
    requires Tuned(c)
    ensures Tuned(AfterTimeouts(c, now))
  {
    forall p | p in AfterTimeouts(c, now).fhost ensures p.retransmits <= RETRANSMISSION_CAP {
      var q := AfterTimeoutsFrom(c, now, p);
    }
  }

  lemma ActKeepsTuned(e: Endpoint, ev: Event)
    requires Tuned(e.conn)
    ensures Tuned(Act(e, ev).conn)
  {
    match ev
    case Send(pkt, now) =>
    case Recv =>
    case Timeouts(now) =>
      TimeoutsKeepTuned(e.conn, now);
    case Arrive(f, now) =>
      if f.ptype == PACK_DATA {
        assert Taken(e.conn, f).ackThreshold == e.conn.ackThreshold;
      } else {
        SweptRetransmits(e.conn, f.sn, now);
      }
  }

  /** In every run both estimators stay in [20, 9999], both thresholds in [2, 16], retries at most 10. */
  lemma {:induction false} AlwaysTuned(tr: seq<Sys>, i: nat)
    requires Run(tr) && i < |tr|
    ensures Tuned(tr[i].a.conn) && Tuned(tr[i].b.conn)
  {
    if i > 0 {
      AlwaysTuned(tr, i - 1);
      var s, s' := tr[i - 1], tr[i - 1 + 1];
      assert Next(s, s');
      var atA, ev :| CanStep(s, atA, ev) && s' == Step(s, atA, ev);
      ActKeepsTuned(if atA then s.a else s.b, ev);
    }
  }

  // ------------------------------------------------------- the retransmission clock

  /** The least time `c` retries take: 30 + 50 + 70 + ... milliseconds. */
  function LeastWait(c: nat): int { 10 * c * (c + 2) }

  /** A packet is due once the time since it was last sent reaches avg * (1.5 + n), rounded down. */
  lemma DueExactly(p: Pending, avg: int, now: int)
    ensures Due(p, avg, now) <==> 2 * (now - p.timestamp) + 1 >= 3 * avg + 2 * avg * p.retransmits
  {
    assert avg * (3 + 2 * p.retransmits) == 3 * avg + 2 * avg * p.retransmits;
  }

  /** The first packet of a new connection is resent 375 ms after it was sent, and not before. */
  lemma FirstRetry(self: u32, other: u32, start: int, pkt: Packet, sent: int, now: int)
    ensures var c := AfterSend(NewConn(self, other, start), pkt, sent);
            TimeoutFrames(c, now) == if now - sent >= 375 then [Stamped(NewConn(self, other, start), pkt)] else []
  {
    var c := AfterSend(NewConn(self, other, start), pkt, sent);
    var p := c.fhost[0];
    assert c.fhost == [p] && [p][1..] == [] && [p][..1] == [p];
    assert FirstCapped(c.fhost) == 1 && Backoff(250, 0) == 375;
    assert DuePacks([p], 250, now) == (if Due(p, 250, now) then [p.pack] else []) + DuePacks([], 250, now);
  }

  /** A new connection acknowledges its first packet at once, and from then on every second one. */
  lemma FirstAcknowledgement(self: u32, other: u32, start: int, pkt: Packet, now: int)
    requires pkt.sn == 0
    ensures var c, r := NewConn(self, other, start), AfterData(NewConn(self, other, start), pkt, now);
            && DataFrames(c, pkt, now) == [Packet(0, 0, self, other, PACK_RACK, [])]
            && r.ackThreshold == 2 && r.packetsSinceAck == 0 && c.lastAckTimestamp == start
  {
    var c := Parked(NewConn(self, other, start), pkt);
    assert c.net == [pkt] && [pkt][1..] == [] && Absorb([], 0, pkt) == [pkt];
    assert AbsorbAll([], 0, [pkt]) == AbsorbAll(Absorb([], 0, pkt), 0, []);
    assert AbsorbAll([], 0, [pkt]) == [pkt];
    assert RunLength([pkt], U32_MAX) == 1 + RunLength([pkt][1..], 0);
  }

  lemma BackoffAddsUp(avg: int, c: nat)
    requires avg >= MIN_RTT
    ensures LeastWait(c) + Backoff(avg, c) >= LeastWait(c + 1)
  {
    assert avg * (3 + 2 * c) >= 20 * (3 + 2 * c);
    assert LeastWait(c + 1) == LeastWait(c) + 10 * (3 + 2 * c);
  }

  ghost predicate Patient(p: Pending, stamps: seq<int>, clock: int)
    requires p.sn < |stamps|
  {
    && p.timestamp >= stamps[p.sn] + LeastWait(p.retransmits)
    && (p.retransmits > 0 ==> p.timestamp <= clock)
  }

  ghost predicate StampInv(e: Endpoint) {
    && |e.firstStamps| == |e.accepted|
    && forall p | p in e.conn.fhost :: p.sn < |e.firstStamps| && Patient(p, e.firstStamps, e.timeoutClock)
  }

  lemma ActKeepsStamps(e: Endpoint, ev: Event)
    requires SenderInv(e) && Tuned(e.conn) && StampInv(e) && e.timeoutClock <= Act(e, ev).timeoutClock
    ensures StampInv(Act(e, ev))
  {
    match ev
    case Send(pkt, now) =>
    case Recv =>
    case Timeouts(now) =>
      forall p | p in AfterTimeouts(e.conn, now).fhost
        ensures p.sn < |e.firstStamps| && Patient(p, e.firstStamps, now)
      {
        var q := AfterTimeoutsFrom(e.conn, now, p);
        BackoffAddsUp(e.conn.avgRttMs, q.retransmits);
      }
    case Arrive(f, now) =>
      if f.ptype == PACK_DATA {
        assert AfterData(e.conn, f, now).fhost == Taken(e.conn, f).fhost == e.conn.fhost;
      } else {
        SweepMembers(e.conn.fhost, f.sn);
      }
  }

  /** No endpoint's time-out sweeps read a clock that went backwards. */
  ghost predicate ClockNeverRunsBack(tr: seq<Sys>) {
    forall i | 0 <= i < |tr| - 1 ::
      tr[i].a.timeoutClock <= tr[i + 1].a.timeoutClock && tr[i].b.timeoutClock <= tr[i + 1].b.timeoutClock
  }

  lemma {:induction false} AlwaysPatient(tr: seq<Sys>, i: nat)
    requires Run(tr) && InLimit(Last(tr)) && ClockNeverRunsBack(tr) && i < |tr|
    ensures StampInv(tr[i].a)
  {
    if i > 0 {
      AlwaysPatient(tr, i - 1);
      AlwaysTuned(tr, i - 1);
      InvAlong(tr, i - 1);
      assert Next(tr[i - 1], tr[i - 1 + 1]);
      assert tr[i - 1].a.timeoutClock <= tr[i - 1 + 1].a.timeoutClock;
      NextKeepsStamps(tr[i - 1], tr[i - 1 + 1]);
    }
  }

  lemma NextKeepsStamps(s: Sys, s': Sys)
    requires Next(s, s') && Inv(s) && Tuned(s.a.conn) && StampInv(s.a)
    requires s.a.timeoutClock <= s'.a.timeoutClock
    ensures StampInv(s'.a)
  {
    var atA, ev :| CanStep(s, atA, ev) && s' == Step(s, atA, ev);
    if atA {
      ActKeepsStamps(s.a, ev);
    }
  }

  /** Only a time-out sweep closes a connection, and only over a packet at the cap. */
  lemma OnlyTheCapCloses(e: Endpoint, ev: Event) returns (p: Pending)
    requires !e.conn.closed && Act(e, ev).conn.closed && Tuned(e.conn)
    ensures ev.Timeouts? && p in e.conn.fhost && p.retransmits == RETRANSMISSION_CAP
  {
    p := e.conn.fhost[FirstCapped(e.conn.fhost)];
  }

  /**
   A connection closes only in a time-out sweep that finds a packet retransmitted ten
   times, and not before 1200 ms after that packet's first timestamp.
   */
  lemma ClosingIsPatient(tr: seq<Sys>, i: nat) returns (p: Pending)
    requires Run(tr) && InLimit(Last(tr)) && ClockNeverRunsBack(tr) && i + 1 < |tr|
    requires !tr[i].a.conn.closed && tr[i + 1].a.conn.closed
    ensures p in tr[i].a.conn.fhost && p.retransmits == RETRANSMISSION_CAP
    ensures p.sn < |tr[i].a.firstStamps|
    ensures tr[i + 1].a.timeoutClock >= tr[i].a.firstStamps[p.sn] + 1200
  {
    AlwaysPatient(tr, i);
    AlwaysTuned(tr, i);
    var s, s' := tr[i], tr[i + 1];
    assert Next(s, s') && s.a.timeoutClock <= s'.a.timeoutClock;
    var atA, ev :| CanStep(s, atA, ev) && s' == Step(s, atA, ev);
    p := OnlyTheCapCloses(s.a, ev);
    assert LeastWait(RETRANSMISSION_CAP) == 1200;
  }

  // ------------------------------------------------------------------ what a sweep sends

  /** A sweep sends the packets due before the first one at the cap, and no others. */
  lemma SweepSendsExactly(c: Conn, now: int)
    ensures forall f :: f in TimeoutFrames(c, now) <==>
              exists p | p in c.fhost[..FirstCapped(c.fhost)] :: Due(p, c.avgRttMs, now) && p.pack == f
  {
    DuePacksMembers(c.fhost[..FirstCapped(c.fhost)], c.avgRttMs, now);
  }

  /** In order of their numbers, each packet under its own. */
  ghost predicate InOrder(s: seq<Pending>) {
    && (forall i, j | 0 <= i < j < |s| :: s[i].sn < s[j].sn)
    && (forall i | 0 <= i < |s| :: s[i].pack.sn == s[i].sn)
  }

  /** As long as nothing is removed, packets pend in the order they were sent. */
  lemma SendKeepsOrder(c: Conn, pkt: Packet, now: int)
    requires InOrder(c.fhost) && forall i | 0 <= i < |c.fhost| :: c.fhost[i].sn < c.currentSeq
    ensures InOrder(AfterSend(c, pkt, now).fhost)
  {}

  ghost predicate Rising(r: seq<Packet>) { forall i, j | 0 <= i < j < |r| :: r[i].sn < r[j].sn }
  ghost predicate AllAbove(r: seq<Packet>, n: int) { forall i | 0 <= i < |r| :: r[i].sn > n }

  /** And a sweep sends them again in that order, each once. */
  lemma {:induction false} ResentInOrder(s: seq<Pending>, avg: int, now: int, n: int)
    requires InOrder(s) && (s != [] ==> s[0].sn > n)
    ensures Rising(DuePacks(s, avg, now)) && AllAbove(DuePacks(s, avg, now), n)
  {
    hide Due, InOrder;
    if s != [] {
      TailInOrder(s);
      ResentInOrder(s[1..], avg, now, s[0].sn);
    }
  }

  lemma TailInOrder(s: seq<Pending>)
    requires InOrder(s) && s != []
    ensures InOrder(s[1..]) && (s[1..] != [] ==> s[1..][0].sn > s[0].sn) && s[0].pack.sn == s[0].sn
  {}

  // ----------------------------------------------------------- giving up on a silent peer

  /** A closing sweep drops exactly the packet at the cap. */
  lemma SweepGivesUp(c: Conn, now: int)
    requires FirstCapped(c.fhost) < |c.fhost|
    ensures var k := FirstCapped(c.fhost);
            multiset(RetriedUpTo(c.fhost, k, c.avgRttMs, now))
              == multiset(AfterTimeouts(c, now).fhost) + multiset{c.fhost[k]}
  {
    var k := FirstCapped(c.fhost);
    var s := RetriedUpTo(c.fhost, k, c.avgRttMs, now);
    assert s[k] == s[k..][0] == c.fhost[k..][0];
    SwapRemoveMembers(s, k);
  }

  ghost predicate NoneCapped(c: Conn) { forall j | 0 <= j < |c.fhost| :: !Capped(c.fhost[j]) }
  ghost predicate EveryoneDue(c: Conn, now: int) { forall j | 0 <= j < |c.fhost| :: Due(c.fhost[j], c.avgRttMs, now) }

  /** A sweep late enough for every packet counts one more retransmission for each, stamped now. */
  lemma LateSweepCounts(c: Conn, now: int)
    requires NoneCapped(c) && EveryoneDue(c, now)
    ensures var r := AfterTimeouts(c, now);
            && r.closed == c.closed && r.avgRttMs == c.avgRttMs && |r.fhost| == |c.fhost|
            && forall j | 0 <= j < |c.fhost| ::
                 r.fhost[j] == c.fhost[j].(timestamp := now, retransmits := c.fhost[j].retransmits + 1)
  {
    assert FirstCapped(c.fhost) == |c.fhost|;
    forall j | 0 <= j < |c.fhost|
      ensures AfterTimeouts(c, now).fhost[j] == Retried(c.fhost[j], c.avgRttMs, now)
    {
      RetriedAt(c.fhost, |c.fhost|, c.avgRttMs, now, j);
    }
  }

  function Swept(c: Conn, times: seq<int>): Conn
    decreases |times|
  {
    if times == [] then c else Swept(AfterTimeouts(c, times[0]), times[1..])
  }

  /** Each of these sweeps comes late enough for every packet then pending. */
  ghost predicate LateSweeps(c: Conn, times: seq<int>)
    decreases |times|
  {
    times == [] || (EveryoneDue(c, times[0]) && LateSweeps(AfterTimeouts(c, times[0]), times[1..]))
  }

  /** `m` is the highest retransmission count among the pending packets. */
  ghost predicate MostRetried(c: Conn, m: nat) {
    && (exists j | 0 <= j < |c.fhost| :: c.fhost[j].retransmits == m)
    && (forall j | 0 <= j < |c.fhost| :: c.fhost[j].retransmits <= m)
  }

  /**
   A peer that never answers is given up after exactly ten retransmissions: late sweeps keep the
   connection open as long as the most retried packet has some left, and the next one closes it.
   */
  lemma {:induction false} SilentPeerIsGivenUp(c: Conn, m: nat, times: seq<int>)
    requires !c.closed && MostRetried(c, m) && m <= 10 && LateSweeps(c, times) && |times| <= 11 - m
    ensures Swept(c, times).closed <==> |times| == 11 - m
    decreases |times|
  {
    if times != [] {
      var c1 := AfterTimeouts(c, times[0]);
      if m == 10 {
        var j :| 0 <= j < |c.fhost| && c.fhost[j].retransmits == m;
        assert Capped(c.fhost[j]) && FirstCapped(c.fhost) < |c.fhost|;
        assert times[1..] == [];
      } else {
        LateSweepCounts(c, times[0]);
        SilentPeerIsGivenUp(c1, m + 1, times[1..]);
      }
    }
  }
}
