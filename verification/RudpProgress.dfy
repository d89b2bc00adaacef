/**
 Progress: an open sender can always be drained, and draining it delivers everything, even
 if every frame sent so far is lost and only retransmissions remain.
 */
module RudpProgress {
  import opened Types
  import opened RudpSpec
  import opened RudpPending
  import opened RudpSystem
  import opened RudpSafety

  datatype Move = Move(atA: bool, ev: Event)

  function Play(s: Sys, moves: seq<Move>): Sys
    decreases |moves|
  {
    if moves == [] then s else Play(Step(s, moves[0].atA, moves[0].ev), moves[1..])
  }

  predicate Playable(s: Sys, moves: seq<Move>)
    decreases |moves|
  {
    moves == [] ||
    (CanStep(s, moves[0].atA, moves[0].ev) && Playable(Step(s, moves[0].atA, moves[0].ev), moves[1..]))
  }

  lemma {:induction false} PlayAppend(s: Sys, xs: seq<Move>, ys: seq<Move>)
    requires Playable(s, xs) && Playable(Play(s, xs), ys)
    ensures Playable(s, xs + ys) && Play(s, xs + ys) == Play(Play(s, xs), ys)
    decreases |xs|
  {
    hide CanStep, Step;
    if xs == [] {
      assert xs + ys == ys;
    } else {
      assert (xs + ys)[1..] == xs[1..] + ys;
      PlayAppend(Step(s, xs[0].atA, xs[0].ev), xs[1..], ys);
    }
  }

  /**
   An open sender of which every pending frame is still around. `s.net` holds the frames that
   may still arrive; `full` holds everything ever sent, which is what the invariant is about.
   */
  ghost predicate Alive(s: Sys, full: set<Packet>) {
    && Inv(s.(net := full)) && s.net <= full && !s.a.conn.closed
    && forall i | s.a.acked <= i < |s.a.accepted| :: s.a.accepted[i] in s.net
  }

  ghost predicate Open(s: Sys, full: set<Packet>) { Alive(s, full) && s.a.acked < |s.a.accepted| }

  /** A step with fewer frames around is a step with all of them. */
  lemma StepOverFull(s: Sys, full: set<Packet>, atA: bool, ev: Event)
    requires s.net <= full && CanStep(s, atA, ev)
    ensures CanStep(s.(net := full), atA, ev)
    ensures Step(s.(net := full), atA, ev) == Step(s, atA, ev).(net := full + Step(s, atA, ev).net)
    ensures s.net <= Step(s, atA, ev).net
  {
    hide Act;
    var me := if atA then s.a else s.b;
    assert full + (s.net + Elems(Emits(me, ev))) == full + Elems(Emits(me, ev));
  }

  /** The lowest pending DATA frame. */
  function Lowest(s: Sys): Packet
    requires s.a.acked < |s.a.accepted|
  {
    s.a.accepted[s.a.acked]
  }

  /** The receiver hears the lowest frame once. */
  function Hear(s: Sys, now: int): Sys
    requires s.a.acked < |s.a.accepted|
  {
    Step(s, false, Arrive(Lowest(s), now))
  }

  lemma HearKeeps(s: Sys, full: set<Packet>, now: int)
    requires Open(s, full)
    ensures CanStep(s, false, Arrive(Lowest(s), now))
    ensures Open(Hear(s, now), full + Hear(s, now).net) && Hear(s, now).a == s.a
    ensures |Delivered(Hear(s, now).b)| > s.a.acked
  {
    var low := Lowest(s);
    assert s.a.accepted[s.a.acked] in s.net;
    StepOverFull(s, full, false, Arrive(low, now));
    StepKeepsInv(s.(net := full), false, Arrive(low, now));
    DataKeepsReceiver(s.b, low, now, s.a);
  }

  /** A frame already delivered always provokes an acknowledgement. */
  lemma StaleIsAcked(s: Sys, full: set<Packet>, now: int)
    requires Open(s, full) && |Delivered(s.b)| > s.a.acked
    ensures exists f | f in Hear(s, now).net ::
              f.hFrom == s.b.conn.sUid && f.ptype == PACK_RACK && f.sn >= s.a.acked
  {
    var low := Lowest(s);
    HearKeeps(s, full, now);
    assert Acks(s.b.conn, low, now);
    RackFollowsDelivery(s.b, low, now, s.a.accepted);
    var f := DataFrames(s.b.conn, low, now)[0];
    assert f in DataFrames(s.b.conn, low, now);
    assert f in Hear(s, now).net;
  }

  /** Handling that acknowledgement frees at least the lowest pending packet. */
  lemma AckShrinks(s: Sys, full: set<Packet>, f: Packet, now: int)
    requires Open(s, full)
    requires f in s.net && f.hFrom == s.b.conn.sUid && f.ptype == PACK_RACK && f.sn >= s.a.acked
    ensures var s' := Step(s, true, Arrive(f, now));
            && CanStep(s, true, Arrive(f, now)) && Alive(s', full + s'.net)
            && s'.a.accepted == s.a.accepted && |s'.a.conn.fhost| < |s.a.conn.fhost|
  {
    var s' := Step(s, true, Arrive(f, now));
    StepOverFull(s, full, true, Arrive(f, now));
    StepKeepsInv(s.(net := full), true, Arrive(f, now));
    DistinctFits(s.a.conn.fhost, s.a.acked, |s.a.accepted|);
    DistinctFits(s'.a.conn.fhost, s'.a.acked, |s'.a.accepted|);
  }

  predicate ArrivalsOnly(moves: seq<Move>) { forall i | 0 <= i < |moves| :: moves[i].ev.Arrive? }

  /** `k` arrivals of `low` at the receiver, then the acknowledgement `f` at the sender. */
  function Nudges(k: nat, low: Packet, f: Packet, now: int): (moves: seq<Move>)
    ensures |moves| == k + 1 && ArrivalsOnly(moves)
  {
    if k == 0 then [Move(true, Arrive(f, now))]
    else [Move(false, Arrive(low, now))] + Nudges(k - 1, low, f, now)
  }

  lemma PlayNudge(s: Sys, k: nat, f: Packet, now: int)
    requires s.a.acked < |s.a.accepted| && CanStep(s, false, Arrive(Lowest(s), now))
    requires Playable(Hear(s, now), Nudges(k, Lowest(s), f, now))
    ensures Playable(s, Nudges(k + 1, Lowest(s), f, now))
    ensures Play(s, Nudges(k + 1, Lowest(s), f, now)) == Play(Hear(s, now), Nudges(k, Lowest(s), f, now))
  {
    var moves := Nudges(k + 1, Lowest(s), f, now);
    assert moves[1..] == Nudges(k, Lowest(s), f, now);
  }

  lemma PlayAck(s: Sys, low: Packet, f: Packet, now: int)
    requires CanStep(s, true, Arrive(f, now))
    ensures Playable(s, Nudges(0, low, f, now))
    ensures Play(s, Nudges(0, low, f, now)) == Step(s, true, Arrive(f, now))
  {
    var s' := Step(s, true, Arrive(f, now));
    assert Nudges(0, low, f, now)[1..] == [] && Playable(s', []) && Play(s', []) == s';
  }

  /** At most two arrivals of the lowest frame and one acknowledgement shrink the pending list. */
  lemma {:induction false} Shrinks(s: Sys, full: set<Packet>, now: int)
    returns (k: nat, f: Packet, full': set<Packet>)
    requires Open(s, full)
    ensures k == if |Delivered(s.b)| > s.a.acked then 1 else 2
    ensures Playable(s, Nudges(k, Lowest(s), f, now))
    ensures var s' := Play(s, Nudges(k, Lowest(s), f, now));
            && Alive(s', full') && s'.a.accepted == s.a.accepted
            && |s'.a.conn.fhost| < |s.a.conn.fhost|
    decreases if |Delivered(s.b)| > s.a.acked then 0 else 1
  {
    hide Alive, Step, CanStep;
    var s1 := Hear(s, now);
    HearKeeps(s, full, now);
    var full1 := full + s1.net;
    if |Delivered(s.b)| > s.a.acked {
      StaleIsAcked(s, full, now);
      f :| f in s1.net && f.hFrom == s.b.conn.sUid && f.ptype == PACK_RACK && f.sn >= s.a.acked;
      HearLeavesUid(s, now);
      AckShrinks(s1, full1, f, now);
      PlayAck(s1, Lowest(s), f, now);
      k, full' := 1, full1 + Step(s1, true, Arrive(f, now)).net;
    } else {
      k, f, full' := Shrinks(s1, full1, now);
      k := 2;
    }
    PlayNudge(s, k - 1, f, now);
  }

  lemma HearLeavesUid(s: Sys, now: int)
    requires s.a.acked < |s.a.accepted|
    ensures Hear(s, now).b.conn.sUid == s.b.conn.sUid
  {}

  /**
   From every open state a schedule of at most three moves per pending packet empties the
   pending list, leaves the connection open and everything accepted delivered at the peer.
   */
  lemma {:induction false} Drains(s: Sys, full: set<Packet>, now: int) returns (moves: seq<Move>)
    requires Alive(s, full)
    ensures Playable(s, moves) && ArrivalsOnly(moves) && |moves| <= 3 * |s.a.conn.fhost|
    ensures var s' := Play(s, moves);
            && s'.a.conn.fhost == [] && !s'.a.conn.closed
            && s'.a.accepted == s.a.accepted && Delivered(s'.b) == s.a.accepted
    decreases |s.a.conn.fhost|
  {
    DistinctFits(s.a.conn.fhost, s.a.acked, |s.a.accepted|);
    if s.a.conn.fhost == [] {
      return [];
    }
    hide Alive, Playable, Play;
    var k, f, full' := Shrinks(s, full, now);
    var first := Nudges(k, Lowest(s), f, now);
    var rest := Drains(Play(s, first), full', now);
    PlayAppend(s, first, rest);
    return first + rest;
  }

  /** The same for every run, so no reachable open state is stuck. */
  lemma EveryOpenRunDrains(tr: seq<Sys>, now: int) returns (moves: seq<Move>)
    requires Run(tr) && InLimit(Last(tr)) && !Last(tr).a.conn.closed
    ensures Playable(Last(tr), moves)
    ensures Play(Last(tr), moves).a.conn.fhost == []
    ensures Delivered(Play(Last(tr), moves).b) == Last(tr).a.accepted
  {
    RunKeepsInv(tr);
    moves := Drains(Last(tr), Last(tr).net, now);
  }

  // ------------------------------------------------------------- retransmission

  ghost predicate SomeCapped(c: Conn) { exists p | p in c.fhost :: Capped(p) }
  ghost predicate AllDue(c: Conn, now: int) { forall p | p in c.fhost :: Due(p, c.avgRttMs, now) }

  /** Nothing that was sent so far will ever arrive. */
  function LoseAll(s: Sys): Sys { s.(net := {}) }

  /** A sweep closes an open connection exactly when some packet has used up its retransmissions. */
  lemma SweepCloses(c: Conn, now: int)
    requires !c.closed
    ensures AfterTimeouts(c, now).closed <==> SomeCapped(c)
  {
    if FirstCapped(c.fhost) < |c.fhost| {
      assert c.fhost[FirstCapped(c.fhost)] in c.fhost;
    }
  }

  /** Otherwise a sweep made late enough puts every pending frame on the wire again. */
  lemma SweepReemits(s: Sys, now: int)
    requires Inv(s) && !s.a.conn.closed && !SomeCapped(s.a.conn) && AllDue(s.a.conn, now)
    ensures var s' := Step(LoseAll(s), true, Timeouts(now));
            && CanStep(LoseAll(s), true, Timeouts(now)) && Alive(s', s.net + s'.net)
            && s'.a.accepted == s.a.accepted && |s'.a.conn.fhost| == |s.a.conn.fhost|
  {
    var e, c, lost := s.a, s.a.conn, LoseAll(s);
    StepOverFull(lost, s.net, true, Timeouts(now));
    assert lost.(net := s.net) == s;
    StepKeepsInv(s, true, Timeouts(now));
    SweepCloses(c, now);
    assert FirstCapped(c.fhost) == |c.fhost| && c.fhost[..|c.fhost|] == c.fhost;
    DuePacksMembers(c.fhost, c.avgRttMs, now);
    forall i | e.acked <= i < |e.accepted| ensures e.accepted[i] in TimeoutFrames(c, now) {
      assert Pends(c.fhost, i);
      var p :| p in c.fhost && p.sn == i;
      assert p.pack == e.accepted[i] && Due(p, c.avgRttMs, now);
    }
  }

  lemma {:induction false} LateEnough(s: seq<Pending>, avg: int, earliest: int) returns (now: int)
    ensures now >= earliest && forall p | p in s :: Due(p, avg, now)
  {
    now := earliest;
    if s != [] {
      now := LateEnough(s[1..], avg, earliest);
      var t := s[0].timestamp + Backoff(avg, s[0].retransmits);
      if now < t {
        now := t;
      }
      assert s == [s[0]] + s[1..];
    }
  }

  /**
   Every run recovers from the loss of everything ever sent, as long as no packet is at the
   cap: one sweep, however late, and then only frames emitted from it on, drain the sender
   and deliver all it accepted.
   */
  lemma EveryRunRecoversFromLoss(tr: seq<Sys>, earliest: int) returns (now: int, moves: seq<Move>)
    requires Run(tr) && InLimit(Last(tr)) && !Last(tr).a.conn.closed && !SomeCapped(Last(tr).a.conn)
    ensures now >= earliest && |moves| <= 1 + 3 * |Last(tr).a.conn.fhost|
    ensures moves != [] && moves[0] == Move(true, Timeouts(now)) && ArrivalsOnly(moves[1..])
    ensures Playable(LoseAll(Last(tr)), moves)
    ensures var s' := Play(LoseAll(Last(tr)), moves);
            s'.a.conn.fhost == [] && !s'.a.conn.closed && Delivered(s'.b) == Last(tr).a.accepted
  {
    hide Alive, Step, CanStep;
    RunKeepsInv(tr);
    var s := Last(tr);
    now := LateEnough(s.a.conn.fhost, s.a.conn.avgRttMs, earliest);
    SweepReemits(s, now);
    var s1 := Step(LoseAll(s), true, Timeouts(now));
    var rest := Drains(s1, s.net + s1.net, now);
    moves := [Move(true, Timeouts(now))] + rest;
    assert moves[1..] == rest;
  }
}
