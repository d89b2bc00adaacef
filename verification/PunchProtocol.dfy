/**
 Two nodes running the NAT-punch handshake over a network that delivers every message
 once, in any order. Each may start at any time, and may punch again at any time.
 */
module PunchProtocol {
  import opened Types
  import opened Peers

  datatype Side = Side(self: u32, addr: Addr, pubkey: seq<byte>, table: Table, punched: bool)

  /** The network is unordered, so the two message kinds are kept apart; both counters are history. */
  datatype Pair = Pair(a: Side, b: Side, punches: multiset<Msg>, acks: multiset<Msg>,
                       punchesSent: nat, acksSent: nat)

  datatype Event =
    | Add(addr: Addr, server: Addr, pubkey: seq<byte>, now: int)
    | PunchPeer
    | GetPunch(m: Msg, nfd: Addr, now: int)
    | GetAck(m: Msg)

  /** 0: peer unknown, 1: INITED, 2: NATPUNCHING, 3: ACTIVE, 4: any other state. */
  function Rank(x: Side, peer: u32): nat {
    if peer !in x.table then 0
    else match x.table[peer].state
         case INITED => 1
         case NATPUNCHING => 2
         case ACTIVE => 3
         case _ => 4
  }

  predicate CanStepA(s: Pair, ev: Event) {
    match ev
    case Add(_, _, _, _) => s.b.self !in s.a.table
    case PunchPeer => s.b.self in s.a.table
    case GetPunch(m, _, _) => m in s.punches && m.Punch? && m.to == s.a.self
    case GetAck(m) => m in s.acks && m.AckMsg? && m.to == s.a.self
  }

  function StepA(s: Pair, ev: Event): Pair
    requires CanStepA(s, ev)
  {
    match ev
    case Add(addr, server, pubkey, now) =>
      s.(a := s.a.(table := NewPeer(s.a.table, s.b.self, addr, server, pubkey, now)))
    case PunchPeer =>
      s.(a := s.a.(punched := true),
         punches := s.punches + multiset(PunchSent(s.a.table, s.a.self, s.b.self, s.a.addr, s.a.pubkey)),
         punchesSent := s.punchesSent + 1)
    case GetPunch(m, nfd, now) =>
      var replies := PunchReplies(s.a.table, s.a.self, m, now);
      s.(a := s.a.(table := PunchTable(s.a.table, s.a.self, m, nfd, now)),
         punches := s.punches - multiset{m}, acks := s.acks + multiset(replies),
         acksSent := s.acksSent + |replies|)
    case GetAck(m) =>
      var replies := AckReplies(s.a.table, s.a.self, m.from);
      s.(a := s.a.(table := AckTable(s.a.table, m.from)),
         acks := s.acks - multiset{m} + multiset(replies), acksSent := s.acksSent + |replies|)
  }

  function Swap(s: Pair): Pair { s.(a := s.b, b := s.a) }

  predicate CanStep(s: Pair, atA: bool, ev: Event) {
    if atA then CanStepA(s, ev) else CanStepA(Swap(s), ev)
  }

  function Step(s: Pair, atA: bool, ev: Event): Pair
    requires CanStep(s, atA, ev)
  {
    if atA then StepA(s, ev) else Swap(StepA(Swap(s), ev))
  }

  predicate Init(s: Pair) {
    && s.a.self != s.b.self && s.b.self !in s.a.table && s.a.self !in s.b.table
    && !s.a.punched && !s.b.punched && s.punches == multiset{} && s.acks == multiset{}
    && s.punchesSent == 0 && s.acksSent == 0
  }

  ghost predicate Next(s: Pair, s': Pair) {
    exists atA: bool, ev: Event :: CanStep(s, atA, ev) && s' == Step(s, atA, ev)
  }

  ghost predicate Run(tr: seq<Pair>) {
    |tr| > 0 && Init(tr[0]) && forall i | 0 <= i < |tr| - 1 :: Next(tr[i], tr[i + 1])
  }

  // ------------------------------------------------------------- the invariant

  ghost predicate PunchFlies(s: Pair, from: u32) { exists m | m in s.punches :: m.from == from }
  ghost predicate AckFlies(s: Pair, from: u32) { exists m | m in s.acks :: m.from == from }

  ghost predicate Between(m: Msg, s: Pair) {
    (m.from == s.a.self && m.to == s.b.self) || (m.from == s.b.self && m.to == s.a.self)
  }

  ghost predicate NetInv(s: Pair) {
    && s.a.self != s.b.self
    && (forall m | m in s.punches :: m.Punch? && Between(m, s) && m.info.Some? && m.info.value.uid == m.from)
    && (forall m | m in s.acks :: m.AckMsg? && Between(m, s))
  }

  /** What holds of node A towards node B. */
  ghost predicate HalfInv(s: Pair) {
    var x, y := s.a.self, s.b.self;
    var rx, ry := Rank(s.a, y), Rank(s.b, x);
    && rx <= 3 && (y in s.a.table ==> s.a.table[y].uid == y)
    && (PunchFlies(s, x) || s.a.punched ==> rx >= 1)
    // an acknowledgement from A: A has left INITED, and B has A in its table
    && (AckFlies(s, x) ==> rx >= 2 && ry >= 1)
    && (ry == 3 ==> rx >= 2)
    // a waiting A: the punch is not sent yet, or it or its answer is on the way
    && (rx == 1 && s.a.punched ==> PunchFlies(s, x) || AckFlies(s, y))
    // once A has left INITED, its acknowledgement is on the way or has made B ACTIVE
    && (rx >= 2 ==> AckFlies(s, x) || ry == 3)
  }

  function Waiting(x: Side, peer: u32): nat { if Rank(x, peer) <= 1 then 1 else 0 }

  ghost predicate CountInv(s: Pair) {
    s.acksSent + |s.punches| + Waiting(s.a, s.b.self) + Waiting(s.b, s.a.self) <= s.punchesSent + 2
  }

  ghost predicate Inv(s: Pair) { NetInv(s) && HalfInv(s) && HalfInv(Swap(s)) && CountInv(s) }

  /** Effect of A's step on A's own rank, and what A sends. */
  lemma AddEffect(s: Pair, ev: Event)
    requires Inv(s) && ev.Add? && CanStepA(s, ev)
    ensures Inv(StepA(s, ev))
  {
    var s' := StepA(s, ev);
    assert s'.acks == s.acks && s'.punches == s.punches;
    assert !PunchFlies(s, s.a.self) && !AckFlies(s, s.b.self);
    SameFlights(s, s');
  }

  lemma SameFlights(s: Pair, s': Pair)
    requires s'.acks == s.acks && s'.punches == s.punches
    ensures forall u :: (PunchFlies(s', u) <==> PunchFlies(s, u)) && (AckFlies(s', u) <==> AckFlies(s, u))
  {}

  lemma PunchPeerFlights(s: Pair)
    requires NetInv(s) && CanStepA(s, PunchPeer)
    ensures var s' := StepA(s, PunchPeer);
            && NetInv(s') && s'.acks == s.acks && |s'.punches| == |s.punches| + 1
            && s'.a.table == s.a.table && s'.b == s.b
            && (forall u :: PunchFlies(s', u) <==> PunchFlies(s, u) || u == s.a.self)
  {
    var s' := StepA(s, PunchPeer);
    var m := PunchSent(s.a.table, s.a.self, s.b.self, s.a.addr, s.a.pubkey)[0];
    assert s'.punches == s.punches + multiset{m};
    assert m in s'.punches;
    assert forall x :: x in s'.punches <==> x in s.punches || x == m;
  }

  lemma PunchEffect(s: Pair)
    requires Inv(s) && CanStepA(s, PunchPeer)
    ensures Inv(StepA(s, PunchPeer))
  {
    PunchPeerFlights(s);
    assert forall u :: AckFlies(StepA(s, PunchPeer), u) <==> AckFlies(s, u);
  }

  /** A answers a punch in any state up to NATPUNCHING, and addresses the answer to B. */
  lemma PunchAnswer(s: Pair, m: Msg, now: int)
    requires NetInv(s) && m in s.punches && m.to == s.a.self
    requires s.b.self in s.a.table ==> s.a.table[s.b.self].uid == s.b.self
    ensures m.from == s.b.self
    ensures PunchReplies(s.a.table, s.a.self, m, now)
         == if Rank(s.a, s.b.self) <= 2 then [AckMsg(s.a.self, s.b.self)] else []
  {}

  lemma TakeOne(net: multiset<Msg>, m: Msg)
    requires m in net
    ensures |net - multiset{m}| == |net| - 1
    ensures forall x :: x in net - multiset{m} ==> x in net
    ensures forall x :: x in net && x != m ==> x in net - multiset{m}
  {
    assert net == net - multiset{m} + multiset{m};
  }

  function AckIf(answered: bool, from: u32, to: u32): multiset<Msg> {
    if answered then multiset{AckMsg(from, to)} else multiset{}
  }

  lemma GetPunchNet(s: Pair, m: Msg, nfd: Addr, now: int)
    requires NetInv(s) && CanStepA(s, GetPunch(m, nfd, now))
    requires s.b.self in s.a.table ==> s.a.table[s.b.self].uid == s.b.self
    ensures var s' := StepA(s, GetPunch(m, nfd, now));
            var answered := Rank(s.a, s.b.self) <= 2;
            && s'.a.self == s.a.self && s'.b == s.b
            && s'.punches == s.punches - multiset{m}
            && s'.acks == s.acks + AckIf(answered, s.a.self, s.b.self)
            && s'.acksSent == s.acksSent + (if answered then 1 else 0)
  {
    PunchAnswer(s, m, now);
  }

  lemma AddAnswer(net: multiset<Msg>, answered: bool, from: u32, to: u32)
    ensures var r := net + AckIf(answered, from, to);
            && (forall x :: x in r <==> x in net || (answered && x == AckMsg(from, to)))
            && |r| == |net| + (if answered then 1 else 0)
  {
    assert answered ==> AckMsg(from, to) in net + AckIf(answered, from, to);
  }

  lemma FlightsAfterPunch(s: Pair, s': Pair, m: Msg, answered: bool)
    requires NetInv(s) && m in s.punches && m.to == s.a.self
    requires s'.a.self == s.a.self && s'.b.self == s.b.self
    requires s'.punches == s.punches - multiset{m}
    requires s'.acks == s.acks + AckIf(answered, s.a.self, s.b.self)
    ensures NetInv(s') && m.from == s.b.self && |s'.punches| == |s.punches| - 1
    ensures PunchFlies(s', s.a.self) <==> PunchFlies(s, s.a.self)
    ensures PunchFlies(s', s.b.self) ==> PunchFlies(s, s.b.self)
    ensures AckFlies(s', s.b.self) <==> AckFlies(s, s.b.self)
    ensures AckFlies(s', s.a.self) <==> AckFlies(s, s.a.self) || answered
    ensures |s'.acks| == |s.acks| + (if answered then 1 else 0)
  {
    TakeOne(s.punches, m);
    AddAnswer(s.acks, answered, s.a.self, s.b.self);
    if answered {
      assert AckMsg(s.a.self, s.b.self) in s'.acks;
    }
  }

  /** Removing `m` and adding the answer: which senders still have something in flight. */
  lemma GetPunchFlights(s: Pair, m: Msg, nfd: Addr, now: int)
    requires NetInv(s) && CanStepA(s, GetPunch(m, nfd, now))
    requires s.b.self in s.a.table ==> s.a.table[s.b.self].uid == s.b.self
    ensures var s' := StepA(s, GetPunch(m, nfd, now));
            var answered := Rank(s.a, s.b.self) <= 2;
            && NetInv(s') && m.from == s.b.self && |s'.punches| == |s.punches| - 1
            && (PunchFlies(s', s.a.self) <==> PunchFlies(s, s.a.self))
            && (PunchFlies(s', s.b.self) ==> PunchFlies(s, s.b.self))
            && (AckFlies(s', s.b.self) <==> AckFlies(s, s.b.self))
            && (AckFlies(s', s.a.self) <==> AckFlies(s, s.a.self) || answered)
            && s'.acksSent == s.acksSent + (if answered then 1 else 0)
            && |s'.acks| == |s.acks| + (if answered then 1 else 0)
  {
    GetPunchNet(s, m, nfd, now);
    FlightsAfterPunch(s, StepA(s, GetPunch(m, nfd, now)), m, Rank(s.a, s.b.self) <= 2);
  }

  lemma GetPunchRanks(s: Pair, m: Msg, nfd: Addr, now: int)
    requires NetInv(s) && CanStepA(s, GetPunch(m, nfd, now))
    requires s.b.self in s.a.table ==> s.a.table[s.b.self].uid == s.b.self
    ensures var s' := StepA(s, GetPunch(m, nfd, now));
            && Rank(s'.a, s.b.self) == (if Rank(s.a, s.b.self) <= 1 then 2 else Rank(s.a, s.b.self))
            && s.b.self in s'.a.table && s'.a.table[s.b.self].uid == s.b.self
  {}

  lemma GetPunchEffect(s: Pair, m: Msg, nfd: Addr, now: int)
    requires Inv(s) && CanStepA(s, GetPunch(m, nfd, now))
    ensures Inv(StepA(s, GetPunch(m, nfd, now)))
  {
    var s' := StepA(s, GetPunch(m, nfd, now));
    GetPunchFlights(s, m, nfd, now);
    GetPunchRanks(s, m, nfd, now);
    assert PunchFlies(s, s.b.self);
    assert Rank(s'.b, s'.a.self) == Rank(s.b, s.a.self);
    SwapFlights(s);
    SwapFlights(s');
  }

  lemma SwapFlights(s: Pair)
    ensures forall u :: (PunchFlies(Swap(s), u) <==> PunchFlies(s, u)) && (AckFlies(Swap(s), u) <==> AckFlies(s, u))
  {}

  lemma FlightsAfterAck(s: Pair, s': Pair, m: Msg, answered: bool)
    requires NetInv(s) && m in s.acks && m.to == s.a.self
    requires s'.a.self == s.a.self && s'.b.self == s.b.self && s'.punches == s.punches
    requires s'.acks == s.acks - multiset{m} + AckIf(answered, s.a.self, s.b.self)
    ensures NetInv(s') && m.from == s.b.self
    ensures AckFlies(s', s.b.self) ==> AckFlies(s, s.b.self)
    ensures AckFlies(s', s.a.self) <==> AckFlies(s, s.a.self) || answered
    ensures |s'.acks| == |s.acks| - (if answered then 0 else 1)
  {
    TakeOne(s.acks, m);
    AddAnswer(s.acks - multiset{m}, answered, s.a.self, s.b.self);
    if answered {
      assert AckMsg(s.a.self, s.b.self) in s'.acks;
    }
  }

  lemma GetAckFlights(s: Pair, m: Msg)
    requires NetInv(s) && CanStepA(s, GetAck(m))
    requires s.b.self in s.a.table ==> s.a.table[s.b.self].uid == s.b.self
    ensures var s' := StepA(s, GetAck(m));
            var answered := Rank(s.a, s.b.self) == 1;
            && NetInv(s') && m.from == s.b.self && s'.punches == s.punches
            && (AckFlies(s', s.b.self) ==> AckFlies(s, s.b.self))
            && (AckFlies(s', s.a.self) <==> AckFlies(s, s.a.self) || answered)
            && s'.acksSent == s.acksSent + (if answered then 1 else 0)
            && |s'.acks| == |s.acks| - (if answered then 0 else 1)
  {
    var answered := Rank(s.a, s.b.self) == 1;
    assert AckReplies(s.a.table, s.a.self, m.from)
        == if answered then [AckMsg(s.a.self, s.b.self)] else [];
    FlightsAfterAck(s, StepA(s, GetAck(m)), m, answered);
  }

  lemma GetAckEffect(s: Pair, m: Msg)
    requires Inv(s) && CanStepA(s, GetAck(m))
    ensures Inv(StepA(s, GetAck(m)))
  {
    var s' := StepA(s, GetAck(m));
    GetAckFlights(s, m);
    assert AckFlies(s, s.b.self);
    assert Rank(s.a, s.b.self) >= 1 && Rank(s'.a, s.b.self) == 3;
    assert Rank(s'.b, s'.a.self) == Rank(s.b, s.a.self);
    assert forall u :: PunchFlies(s', u) <==> PunchFlies(s, u);
    SwapFlights(s);
    SwapFlights(s');
  }

  lemma StepAKeepsInv(s: Pair, ev: Event)
    requires Inv(s) && CanStepA(s, ev)
    ensures Inv(StepA(s, ev))
  {
    match ev
    case Add(_, _, _, _) => AddEffect(s, ev);
    case PunchPeer => PunchEffect(s);
    case GetPunch(m, nfd, now) => GetPunchEffect(s, m, nfd, now);
    case GetAck(m) => GetAckEffect(s, m);
  }

  lemma SwapInv(s: Pair)
    requires Inv(s)
    ensures Inv(Swap(s))
  {
    assert Swap(Swap(s)) == s;
    assert forall m :: Between(m, Swap(s)) <==> Between(m, s);
  }

  lemma StepKeepsInv(s: Pair, atA: bool, ev: Event)
    requires Inv(s) && CanStep(s, atA, ev)
    ensures Inv(Step(s, atA, ev))
  {
    if atA {
      StepAKeepsInv(s, ev);
    } else {
      SwapInv(s);
      StepAKeepsInv(Swap(s), ev);
      SwapInv(StepA(Swap(s), ev));
    }
  }

  lemma {:induction false} RunKeepsInv(tr: seq<Pair>, i: nat)
    requires Run(tr) && i < |tr|
    ensures Inv(tr[i])
  {
    if i > 0 {
      RunKeepsInv(tr, i - 1);
      var s, s' := tr[i - 1], tr[i - 1 + 1];
      assert Next(s, s');
      var atA, ev :| CanStep(s, atA, ev) && s' == Step(s, atA, ev);
      StepKeepsInv(s, atA, ev);
    }
  }

  // --------------------------------------------------------------- the theorems

  /** A node's view of its peer never moves back. */
  lemma RankNeverDrops(tr: seq<Pair>, i: nat)
    requires Run(tr) && i + 1 < |tr|
    ensures Rank(tr[i].a, tr[i].b.self) <= Rank(tr[i + 1].a, tr[i + 1].b.self) <= 3
    ensures Rank(tr[i].b, tr[i].a.self) <= Rank(tr[i + 1].b, tr[i + 1].a.self) <= 3
  {
    RunKeepsInv(tr, i);
    RunKeepsInv(tr, i + 1);
    var s, s' := tr[i], tr[i + 1];
    assert Next(s, s');
    var atA, ev :| CanStep(s, atA, ev) && s' == Step(s, atA, ev);
    if atA {
      StepARank(s, ev);
    } else {
      SwapInv(s);
      StepARank(Swap(s), ev);
    }
  }

  lemma StepARank(s: Pair, ev: Event)
    requires Inv(s) && CanStepA(s, ev)
    ensures var s' := StepA(s, ev);
            s'.b == s.b && s'.a.self == s.a.self && Rank(s.a, s.b.self) <= Rank(s'.a, s.b.self)
  {
    match ev
    case Add(_, _, _, _) =>
    case PunchPeer =>
    case GetPunch(m, nfd, now) => GetPunchRanks(s, m, nfd, now);
    case GetAck(m) =>
  }

  /** Acknowledgements are bounded by the punches, in every run with any number of them. */
  lemma AcksAreBounded(tr: seq<Pair>, i: nat)
    requires Run(tr) && i < |tr|
    ensures tr[i].acksSent <= tr[i].punchesSent + 2
  {
    RunKeepsInv(tr, i);
  }

  predicate Quiet(s: Pair) { s.punches == multiset{} && s.acks == multiset{} }

  function Traffic(s: Pair): nat {
    2 * |s.punches| + |s.acks| + Waiting(s.a, s.b.self) + Waiting(s.b, s.a.self)
  }

  lemma DeliveryAtA(s: Pair, ev: Event)
    requires Inv(s) && CanStepA(s, ev) && (ev.GetPunch? || ev.GetAck?)
    ensures Traffic(StepA(s, ev)) < Traffic(s)
  {
    match ev
    case GetPunch(m, nfd, now) =>
      GetPunchFlights(s, m, nfd, now);
      GetPunchRanks(s, m, nfd, now);
    case GetAck(m) =>
      GetAckFlights(s, m);
  }

  /** Every delivery uses up traffic, so without new punches the network falls silent. */
  lemma DeliveriesDieOut(s: Pair, atA: bool, ev: Event)
    requires Inv(s) && CanStep(s, atA, ev) && (ev.GetPunch? || ev.GetAck?)
    ensures Traffic(Step(s, atA, ev)) < Traffic(s)
  {
    if atA {
      DeliveryAtA(s, ev);
    } else {
      SwapInv(s);
      DeliveryAtA(Swap(s), ev);
    }
  }

  /** While anything is in flight, some delivery is possible: quiet is the only way to stop. */
  lemma NoisyCanDeliver(s: Pair)
    requires Inv(s) && !Quiet(s)
    ensures exists atA: bool, ev: Event :: CanStep(s, atA, ev) && (ev.GetPunch? || ev.GetAck?)
  {
    if s.punches != multiset{} {
      var m :| m in s.punches;
      assert CanStep(s, m.to == s.a.self, GetPunch(m, 0, 0));
    } else {
      var m :| m in s.acks;
      assert CanStep(s, m.to == s.a.self, GetAck(m));
    }
  }

  ghost predicate BothActive(s: Pair) { Rank(s.a, s.b.self) == 3 && Rank(s.b, s.a.self) == 3 }

  /** Someone has started, and no node still owes the punch of the peer it added. */
  ghost predicate Committed(s: Pair) {
    var ra, rb := Rank(s.a, s.b.self), Rank(s.b, s.a.self);
    ra + rb >= 1 && (ra == 1 ==> s.a.punched) && (rb == 1 ==> s.b.punched)
  }

  lemma QuietInv(s: Pair)
    requires Inv(s) && Quiet(s)
    ensures BothActive(s) <==> Committed(s)
  {
    SwapFlights(s);
    assert forall u :: !PunchFlies(s, u) && !AckFlies(s, u);
  }

  /**
   Convergence. In a quiet state of any run both nodes are ACTIVE exactly when someone
   has started and no node still owes the punch of the peer it added.
   */
  lemma QuietMeansActive(tr: seq<Pair>, i: nat)
    requires Run(tr) && i < |tr| && Quiet(tr[i])
    ensures BothActive(tr[i]) <==> Committed(tr[i])
  {
    RunKeepsInv(tr, i);
    QuietInv(tr[i]);
  }

  lemma DeliveryKeepsCommitted(s: Pair, ev: Event)
    requires Inv(s) && Committed(s) && CanStepA(s, ev) && (ev.GetPunch? || ev.GetAck?)
    ensures Committed(StepA(s, ev))
  {
    match ev
    case GetPunch(m, nfd, now) => GetPunchRanks(s, m, nfd, now);
    case GetAck(m) =>
      assert m.from == s.b.self;
      assert AckFlies(s, s.b.self);
  }

  lemma OneDelivery(s: Pair) returns (s': Pair)
    requires Inv(s) && !Quiet(s)
    ensures Next(s, s') && Inv(s') && Traffic(s') < Traffic(s) && s'.punchesSent == s.punchesSent
    ensures Committed(s) ==> Committed(s')
  {
    NoisyCanDeliver(s);
    var atA, ev :| CanStep(s, atA, ev) && (ev.GetPunch? || ev.GetAck?);
    s' := Step(s, atA, ev);
    hide Inv, Traffic, Committed, StepA, CanStepA;
    DeliveriesDieOut(s, atA, ev);
    StepKeepsInv(s, atA, ev);
    DeliveryCountsNoPunch(s, atA, ev);
    if Committed(s) {
      DeliveryKeepsCommittedAtEither(s, atA, ev);
    }
  }

  lemma DeliveryCountsNoPunch(s: Pair, atA: bool, ev: Event)
    requires CanStep(s, atA, ev) && (ev.GetPunch? || ev.GetAck?)
    ensures Step(s, atA, ev).punchesSent == s.punchesSent
  {}

  lemma DeliveryKeepsCommittedAtEither(s: Pair, atA: bool, ev: Event)
    requires Inv(s) && Committed(s) && CanStep(s, atA, ev) && (ev.GetPunch? || ev.GetAck?)
    ensures Committed(Step(s, atA, ev))
  {
    hide Inv, StepA, CanStepA;
    if atA {
      DeliveryKeepsCommitted(s, ev);
    } else {
      SwapInv(s);
      DeliveryKeepsCommitted(Swap(s), ev);
    }
  }

  /** Deliveries alone lead to a quiet state, and from a committed state to one where both are ACTIVE. */
  lemma {:induction false} SettlesQuietly(s: Pair) returns (tr: seq<Pair>)
    requires Inv(s)
    ensures |tr| > 0 && tr[0] == s && Quiet(tr[|tr| - 1]) && Inv(tr[|tr| - 1])
    ensures |tr| <= Traffic(s) + 1
    ensures Committed(s) ==> BothActive(tr[|tr| - 1])
    ensures tr[|tr| - 1].punchesSent == s.punchesSent
    ensures forall i | 0 <= i < |tr| - 1 :: Next(tr[i], tr[i + 1])
    decreases Traffic(s)
  {
    if Quiet(s) {
      QuietInv(s);
      return [s];
    }
    var s' := OneDelivery(s);
    var rest := SettlesQuietly(s');
    Prepend(s, rest);
    tr := [s] + rest;
  }

  lemma Prepend(s: Pair, rest: seq<Pair>)
    requires |rest| > 0 && Next(s, rest[0]) && forall i | 0 <= i < |rest| - 1 :: Next(rest[i], rest[i + 1])
    ensures forall i | 0 <= i < |[s] + rest| - 1 :: Next(([s] + rest)[i], ([s] + rest)[i + 1])
  {
    var tr := [s] + rest;
    forall i | 0 <= i < |tr| - 1 ensures Next(tr[i], tr[i + 1]) {
      if i > 0 {
        assert Next(rest[i - 1], rest[i - 1 + 1]);
      }
    }
  }

  /** The same for every run: once committed, it can always be completed by deliveries. */
  lemma EveryRunCanConverge(tr: seq<Pair>) returns (rest: seq<Pair>)
    requires Run(tr) && Committed(tr[|tr| - 1])
    ensures |rest| > 0 && rest[0] == tr[|tr| - 1]
    ensures forall i | 0 <= i < |rest| - 1 :: Next(rest[i], rest[i + 1])
    ensures Quiet(rest[|rest| - 1]) && BothActive(rest[|rest| - 1])
  {
    RunKeepsInv(tr, |tr| - 1);
    rest := SettlesQuietly(tr[|tr| - 1]);
  }
}
