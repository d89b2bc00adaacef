/**
 When the receiver acknowledges: never more than a threshold of frames, half a round trip or
 the acknowledgement time-out late, and the first delivery at once.
 */
module RudpAcks {
  import opened Types
  import opened RudpSpec
  import opened RudpPending
  import opened RudpSystem
  import opened RudpSafety
  import opened RudpTheorems
  import opened RudpProgress
  import opened RudpTiming

  const ACK_TIMEOUT: int := 2000

  /** Something was acknowledged if anything was delivered, and fewer frames than the threshold since. */
  ghost predicate Acknowledged(c: Conn) {
    && c.ackTimeoutMs == ACK_TIMEOUT
    && (c.lastRecvedSeq != U32_MAX ==> c.lastAckSentSeq != U32_MAX && c.packetsSinceAck < c.ackThreshold)
  }

  /** What a DATA frame leaves unacknowledged: too little of it, and too recent. */
  lemma DataIsAcknowledged(c: Conn, f: Packet, now: int)
    ensures var r := AfterData(c, f, now);
            && (r.lastRecvedSeq != U32_MAX ==>
                  && r.lastAckSentSeq != U32_MAX && r.packetsSinceAck < r.ackThreshold
                  && (now > r.lastAckTimestamp ==>
                        && now - r.lastAckTimestamp < r.avgRttMs / 2
                        && now - r.lastAckTimestamp < r.ackTimeoutMs))
  {
    hide Taken;
  }

  /** An acknowledgement goes out exactly when something was delivered and it is due. */
  lemma AcksExactly(c: Conn, f: Packet, now: int)
    ensures var c1, r := Taken(c, f), AfterData(c, f, now);
            DataFrames(c, f, now) != [] <==>
              && c1.lastRecvedSeq != U32_MAX
              && (|| f.sn != Expected(c.lastRecvedSeq) || c.lastAckSentSeq == U32_MAX
                  || Succ32(c.packetsSinceAck) >= c.ackThreshold
                  || now - c.lastAckTimestamp >= c.avgRttMs / 2 || now - c.lastAckTimestamp >= c.ackTimeoutMs)
  {
    TakenKeepsTimers(c, f);
    hide Taken;
  }

  lemma TakenKeepsTimers(c: Conn, f: Packet)
    ensures var c1 := Taken(c, f);
            && c1.ackThreshold == c.ackThreshold && c1.lastAckTimestamp == c.lastAckTimestamp
            && c1.avgRttMs == c.avgRttMs && c1.ackTimeoutMs == c.ackTimeoutMs
            && c1.lastAckSentSeq == c.lastAckSentSeq && c1.packetsSinceAck == Succ32(c.packetsSinceAck)
  {}

  lemma ActKeepsAcknowledged(e: Endpoint, ev: Event)
    requires Acknowledged(e.conn)
    ensures Acknowledged(Act(e, ev).conn)
  {
    match ev
    case Send(_, _) =>
    case Recv =>
    case Timeouts(_) =>
    case Arrive(f, now) =>
      if f.ptype == PACK_DATA {
        DataIsAcknowledged(e.conn, f, now);
        TakenKeepsTimers(e.conn, f);
      }
  }

  /** In every run, at both ends: whoever delivered has acknowledged, less than a threshold of frames ago. */
  lemma {:induction false} AlwaysAcknowledged(tr: seq<Sys>, i: nat)
    requires Run(tr) && i < |tr|
    ensures Acknowledged(tr[i].a.conn) && Acknowledged(tr[i].b.conn)
  {
    hide Run, Acknowledged;
    if i == 0 {
      NewAcknowledged(tr);
    } else {
      AlwaysAcknowledged(tr, i - 1);
      NextAt(tr, i - 1);
      NextKeepsAcknowledged(tr[i - 1], tr[i]);
    }
  }

  lemma NewAcknowledged(tr: seq<Sys>)
    requires Run(tr)
    ensures Acknowledged(tr[0].a.conn) && Acknowledged(tr[0].b.conn)
  {}

  lemma NextKeepsAcknowledged(s: Sys, s': Sys)
    requires Next(s, s') && Acknowledged(s.a.conn) && Acknowledged(s.b.conn)
    ensures Acknowledged(s'.a.conn) && Acknowledged(s'.b.conn)
  {
    hide Acknowledged, Act, Emits;
    var atA, ev :| CanStep(s, atA, ev) && s' == Step(s, atA, ev);
    ActKeepsAcknowledged(if atA then s.a else s.b, ev);
  }

  // ------------------------------------------------ draining by frames that arrive in order

  /** Late enough after the last acknowledgement, the expected frame is acknowledged at once. */
  lemma InOrderIsAcked(s: Sys, full: set<Packet>, now: int)
    requires Open(s, full) && now - s.b.conn.lastAckTimestamp >= s.b.conn.ackTimeoutMs
    ensures exists f | f in Hear(s, now).net ::
              f.hFrom == s.b.conn.sUid && f.ptype == PACK_RACK && f.sn >= s.a.acked
  {
    var low := Lowest(s);
    HearKeeps(s, full, now);
    assert low.ptype == PACK_DATA && low.sn == s.a.acked;
    AcksExactly(s.b.conn, low, now);
    HeardSomething(s, full, now);
    RackFollowsDelivery(s.b, low, now, s.a.accepted);
    var f := DataFrames(s.b.conn, low, now)[0];
    assert f in DataFrames(s.b.conn, low, now);
    assert f in Hear(s, now).net;
  }

  lemma HeardSomething(s: Sys, full: set<Packet>, now: int)
    requires Open(s, full)
    ensures Taken(s.b.conn, Lowest(s)).lastRecvedSeq != U32_MAX
  {
    HearKeeps(s, full, now);
    assert AfterData(s.b.conn, Lowest(s), now).lastRecvedSeq == Taken(s.b.conn, Lowest(s)).lastRecvedSeq;
  }

  /** Heard once, late enough, the lowest frame and its acknowledgement shrink the pending list. */
  lemma ShrinksHearingOnce(s: Sys, full: set<Packet>, earliest: int)
    returns (now: int, f: Packet, full': set<Packet>)
    requires Open(s, full)
    ensures now >= earliest && Playable(s, Nudges(1, Lowest(s), f, now))
    ensures var s' := Play(s, Nudges(1, Lowest(s), f, now));
            && Alive(s', full') && s'.a.accepted == s.a.accepted
            && |s'.a.conn.fhost| < |s.a.conn.fhost|
  {
    hide Alive, Step, CanStep;
    var due := s.b.conn.lastAckTimestamp + s.b.conn.ackTimeoutMs;
    now := if earliest < due then due else earliest;
    var s1 := Hear(s, now);
    HearKeeps(s, full, now);
    InOrderIsAcked(s, full, now);
    f :| f in s1.net && f.hFrom == s.b.conn.sUid && f.ptype == PACK_RACK && f.sn >= s.a.acked;
    HearLeavesUid(s, now);
    AckShrinks(s1, full + s1.net, f, now);
    PlayAck(s1, Lowest(s), f, now);
    PlayNudge(s, 0, f, now);
    full' := full + s1.net + Step(s1, true, Arrive(f, now)).net;
  }

  /**
   Draining without a single repeated frame: from every open state in which each pending frame
   is still around, hearing each once, late enough, and its acknowledgement empties the list.
   */
  lemma {:induction false} DrainsHearingOnce(s: Sys, full: set<Packet>, earliest: int) returns (moves: seq<Move>)
    requires Alive(s, full)
    ensures Playable(s, moves) && ArrivalsOnly(moves) && |moves| <= 2 * |s.a.conn.fhost|
    ensures var s' := Play(s, moves);
            && s'.a.conn.fhost == [] && !s'.a.conn.closed
            && s'.a.accepted == s.a.accepted && Delivered(s'.b) == s.a.accepted
    decreases |s.a.conn.fhost|
  {
    DistinctFits(s.a.conn.fhost, s.a.acked, |s.a.accepted|);
    if s.a.conn.fhost == [] {
      return [];
    }
    hide Alive, Playable, Play;
    var now, f, full' := ShrinksHearingOnce(s, full, earliest);
    var first := Nudges(1, Lowest(s), f, now);
    var rest := DrainsHearingOnce(Play(s, first), full', now);
    PlayAppend(s, first, rest);
    return first + rest;
  }

  /** So every run can be drained by hearing each pending frame once. */
  lemma EveryRunDrainsHearingOnce(tr: seq<Sys>, earliest: int) returns (moves: seq<Move>)
    requires Run(tr) && InLimit(Last(tr)) && !Last(tr).a.conn.closed
    ensures Playable(Last(tr), moves) && |moves| <= 2 * |Last(tr).a.conn.fhost|
    ensures Play(Last(tr), moves).a.conn.fhost == []
    ensures Delivered(Play(Last(tr), moves).b) == Last(tr).a.accepted
  {
    RunKeepsInv(tr);
    moves := DrainsHearingOnce(Last(tr), Last(tr).net, earliest);
  }
}
