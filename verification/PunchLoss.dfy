/**
 The handshake when messages may also be lost: what one lost acknowledgement can do, and
 exactly when the two nodes can still get together.
 */
module PunchLoss {
  import opened Types
  import opened Peers
  import opened PunchProtocol

  datatype Move =
    | Proper(atA: bool, ev: Event)
    | LosePunch(m: Msg)
    | LoseAck(m: Msg)

  predicate CanMove(s: Pair, mv: Move) {
    match mv
    case Proper(atA, ev) => CanStep(s, atA, ev)
    case LosePunch(m) => m in s.punches
    case LoseAck(m) => m in s.acks
  }

  function Moved(s: Pair, mv: Move): Pair
    requires CanMove(s, mv)
  {
    match mv
    case Proper(atA, ev) => Step(s, atA, ev)
    case LosePunch(m) => s.(punches := s.punches - multiset{m})
    case LoseAck(m) => s.(acks := s.acks - multiset{m})
  }

  ghost predicate LossyNext(s: Pair, s': Pair) { exists mv: Move :: CanMove(s, mv) && s' == Moved(s, mv) }

  ghost predicate LossyPath(tr: seq<Pair>) {
    |tr| > 0 && forall i | 0 <= i < |tr| - 1 :: LossyNext(tr[i], tr[i + 1])
  }

  ghost predicate LossyRun(tr: seq<Pair>) { LossyPath(tr) && Init(tr[0]) }

  function Final(tr: seq<Pair>): Pair
    requires |tr| > 0
  {
    tr[|tr| - 1]
  }

  // ------------------------------------------------------------- the invariant

  /** What survives losses. */
  ghost predicate HalfLossInv(s: Pair) {
    var x, y := s.a.self, s.b.self;
    var rx, ry := Rank(s.a, y), Rank(s.b, x);
    && rx <= 3 && (y in s.a.table ==> s.a.table[y].uid == y)
    && (PunchFlies(s, x) ==> rx >= 1)
    && (AckFlies(s, x) ==> rx >= 2 && ry >= 1)
    && (ry == 3 ==> rx >= 2)
  }

  ghost predicate LossInv(s: Pair) { NetInv(s) && HalfLossInv(s) && HalfLossInv(Swap(s)) }

  lemma SwapLossInv(s: Pair)
    requires LossInv(s)
    ensures LossInv(Swap(s))
  {
    assert Swap(Swap(s)) == s;
    assert forall m :: Between(m, Swap(s)) <==> Between(m, s);
  }

  lemma AddKeeps(s: Pair, ev: Event)
    requires LossInv(s) && ev.Add? && CanStepA(s, ev)
    ensures LossInv(StepA(s, ev))
    ensures StepA(s, ev).b == s.b && StepA(s, ev).a.self == s.a.self && Rank(StepA(s, ev).a, s.b.self) == 1
    ensures forall u :: AckFlies(StepA(s, ev), u) <==> AckFlies(s, u)
  {
    var s' := StepA(s, ev);
    SameFlights(s, s');
    SameFlights(Swap(s), Swap(s'));
  }

  lemma PunchKeeps(s: Pair)
    requires LossInv(s) && CanStepA(s, PunchPeer)
    ensures LossInv(StepA(s, PunchPeer))
    ensures forall u :: AckFlies(StepA(s, PunchPeer), u) <==> AckFlies(s, u)
  {
    var s' := StepA(s, PunchPeer);
    PunchPeerFlights(s);
    SwapFlights(s');
    SwapFlights(s);
    SameAcks(s, s');
    hide PunchFlies, AckFlies;
  }

  lemma SameAcks(s: Pair, s': Pair)
    requires s'.acks == s.acks
    ensures forall u :: AckFlies(s', u) <==> AckFlies(s, u)
  {}

  lemma GetPunchKeeps(s: Pair, m: Msg, nfd: Addr, now: int)
    requires LossInv(s) && CanStepA(s, GetPunch(m, nfd, now))
    ensures LossInv(StepA(s, GetPunch(m, nfd, now)))
  {
    var s' := StepA(s, GetPunch(m, nfd, now));
    GetPunchFlights(s, m, nfd, now);
    GetPunchRanks(s, m, nfd, now);
    assert PunchFlies(s, s.b.self);
    assert Rank(s'.b, s'.a.self) == Rank(s.b, s.a.self);
    SwapFlights(s);
    SwapFlights(s');
  }

  lemma GetAckKeeps(s: Pair, m: Msg)
    requires LossInv(s) && CanStepA(s, GetAck(m))
    ensures LossInv(StepA(s, GetAck(m)))
    ensures Rank(StepA(s, GetAck(m)).a, s.b.self) == 3
  {
    var s' := StepA(s, GetAck(m));
    GetAckFlights(s, m);
    assert AckFlies(s, s.b.self);
    SwapFlights(s);
    SwapFlights(s');
    assert forall u :: PunchFlies(s', u) <==> PunchFlies(s, u);
    assert Rank(s'.b, s'.a.self) == Rank(s.b, s.a.self);
    assert s.b.self in s'.a.table && s'.a.table[s.b.self].uid == s.b.self && Rank(s'.a, s.b.self) == 3;
    hide PunchFlies, AckFlies, StepA, Rank;
  }

  lemma HalfFewer(s: Pair, s': Pair)
    requires HalfLossInv(s) && s'.a == s.a && s'.b == s.b
    requires forall u :: (PunchFlies(s', u) ==> PunchFlies(s, u)) && (AckFlies(s', u) ==> AckFlies(s, u))
    ensures HalfLossInv(s')
  {
    hide Rank, PunchFlies, AckFlies;
  }

  lemma FewerFlights(s: Pair, s': Pair)
    requires LossInv(s) && s'.a == s.a && s'.b == s.b
    requires (forall m | m in s'.punches :: m in s.punches) && (forall m | m in s'.acks :: m in s.acks)
    ensures LossInv(s')
  {
    hide HalfLossInv, Rank;
    HalfFewer(s, s');
    HalfFewer(Swap(s), Swap(s'));
  }

  lemma LossKeeps(s: Pair, mv: Move)
    requires LossInv(s) && CanMove(s, mv) && !mv.Proper?
    ensures LossInv(Moved(s, mv))
  {
    hide LossInv;
    TakeOne(if mv.LosePunch? then s.punches else s.acks, mv.m);
    FewerFlights(s, Moved(s, mv));
  }

  lemma StepAKeepsLossInv(s: Pair, ev: Event)
    requires LossInv(s) && CanStepA(s, ev)
    ensures LossInv(StepA(s, ev))
  {
    hide LossInv;
    match ev
    case Add(_, _, _, _) => AddKeeps(s, ev);
    case PunchPeer => PunchKeeps(s);
    case GetPunch(m, nfd, now) => GetPunchKeeps(s, m, nfd, now);
    case GetAck(m) => GetAckKeeps(s, m);
  }

  lemma MoveKeeps(s: Pair, mv: Move)
    requires LossInv(s) && CanMove(s, mv)
    ensures LossInv(Moved(s, mv))
  {
    hide LossInv, StepA, CanStepA;
    match mv
    case Proper(true, ev) => StepAKeepsLossInv(s, ev);
    case Proper(false, ev) =>
      SwapLossInv(s);
      StepAKeepsLossInv(Swap(s), ev);
      SwapLossInv(StepA(Swap(s), ev));
    case LosePunch(_) => LossKeeps(s, mv);
    case LoseAck(_) => LossKeeps(s, mv);
  }

  lemma NextAt(tr: seq<Pair>, i: nat)
    requires LossyPath(tr) && i + 1 < |tr|
    ensures LossyNext(tr[i], tr[i + 1])
  {
    hide LossyNext;
  }

  lemma {:induction false} PathKeepsLossInv(tr: seq<Pair>, i: nat)
    requires LossyPath(tr) && LossInv(tr[0]) && i < |tr|
    ensures LossInv(tr[i])
  {
    hide LossyPath, LossInv, LossyNext, Stuck;
    if i > 0 {
      PathKeepsLossInv(tr, i - 1);
      NextAt(tr, i - 1);
      NextKeeps(tr[i - 1], tr[i]);
    }
  }

  lemma NextKeeps(s: Pair, s': Pair)
    requires LossInv(s) && LossyNext(s, s')
    ensures LossInv(s')
    ensures Stuck(s) ==> Stuck(s')
  {
    hide LossInv, Stuck, CanMove, Moved;
    var mv :| CanMove(s, mv) && s' == Moved(s, mv);
    MoveKeeps(s, mv);
    if Stuck(s) {
      StuckStays(s, mv);
    }
  }

  // ---------------------------------------------------------------- being stuck

  /** A is ACTIVE and will never acknowledge again; B still needs an acknowledgement and none is coming. */
  ghost predicate Stuck(s: Pair) {
    Rank(s.a, s.b.self) == 3 && Rank(s.b, s.a.self) != 3 && !AckFlies(s, s.a.self)
  }

  lemma StuckAtA(s: Pair, ev: Event)
    requires LossInv(s) && Stuck(s) && CanStepA(s, ev)
    ensures Stuck(StepA(s, ev))
  {
    match ev
    case PunchPeer => PunchKeeps(s);
    case GetPunch(m, nfd, now) =>
      GetPunchFlights(s, m, nfd, now);
      GetPunchRanks(s, m, nfd, now);
    case GetAck(m) =>
      GetAckFlights(s, m);
      GetAckKeeps(s, m);
  }

  lemma StuckAtB(s: Pair, ev: Event)
    requires LossInv(s) && Stuck(s) && CanStepA(Swap(s), ev)
    ensures Stuck(Swap(StepA(Swap(s), ev)))
  {
    var t := Swap(s);
    SwapLossInv(s);
    SwapFlights(s);
    SwapFlights(StepA(t, ev));
    match ev
    case Add(_, _, _, _) => AddKeeps(t, ev);
    case PunchPeer => PunchKeeps(t);
    case GetPunch(m, nfd, now) =>
      GetPunchFlights(t, m, nfd, now);
      GetPunchRanks(t, m, nfd, now);
    case GetAck(m) =>
      assert false;
  }

  /** Nothing that either node does, and no loss, ends it. */
  lemma StuckStays(s: Pair, mv: Move)
    requires LossInv(s) && Stuck(s) && CanMove(s, mv)
    ensures Stuck(Moved(s, mv))
  {
    match mv
    case Proper(true, ev) => StuckAtA(s, ev);
    case Proper(false, ev) => StuckAtB(s, ev);
    case LosePunch(m) =>
    case LoseAck(m) => TakeOne(s.acks, m);
  }

  lemma {:induction false} StuckAlong(tr: seq<Pair>, i: nat)
    requires LossyPath(tr) && LossInv(tr[0]) && Stuck(tr[0]) && i < |tr|
    ensures Stuck(tr[i])
  {
    hide LossyPath, LossInv, LossyNext, Stuck;
    if i > 0 {
      StuckAlong(tr, i - 1);
      PathKeepsLossInv(tr, i - 1);
      NextAt(tr, i - 1);
      NextKeeps(tr[i - 1], tr[i]);
    }
  }

  // ------------------------------------------------------------ getting together

  /** One move of A: `s'` follows, the invariant holds, and B is as before. */
  ghost predicate ByA(s: Pair, s': Pair) {
    && LossyNext(s, s') && LossInv(s') && s'.a.self == s.a.self && s'.b.self == s.b.self
    && Rank(s'.b, s.a.self) == Rank(s.b, s.a.self)
    && (AckFlies(s, s.b.self) && Rank(s'.a, s.b.self) < 3 ==> AckFlies(s', s.b.self))
    && (AckFlies(s, s.a.self) ==> AckFlies(s', s.a.self))
  }

  lemma NextByA(s: Pair, ev: Event)
    requires CanStepA(s, ev)
    ensures LossyNext(s, StepA(s, ev))
  {
    assert CanMove(s, Proper(true, ev)) && Moved(s, Proper(true, ev)) == StepA(s, ev);
  }

  lemma Joins(s: Pair) returns (s': Pair)
    requires LossInv(s) && Rank(s.a, s.b.self) == 0
    ensures ByA(s, s') && Rank(s'.a, s.b.self) == 1
  {
    var ev := Add(0, 0, [], 0);
    s' := StepA(s, ev);
    AddKeeps(s, ev);
    NextByA(s, ev);
  }

  lemma Punches(s: Pair) returns (s': Pair)
    requires LossInv(s) && Rank(s.a, s.b.self) >= 1
    ensures ByA(s, s') && Rank(s'.a, s.b.self) == Rank(s.a, s.b.self) && PunchFlies(s', s.a.self)
  {
    s' := StepA(s, PunchPeer);
    PunchPeerFlights(s);
    PunchKeeps(s);
    NextByA(s, PunchPeer);
  }

  lemma Answers(s: Pair) returns (s': Pair)
    requires LossInv(s) && Rank(s.a, s.b.self) <= 2 && PunchFlies(s, s.b.self)
    ensures ByA(s, s') && Rank(s'.a, s.b.self) == 2 && AckFlies(s', s.a.self)
  {
    var m :| m in s.punches && m.from == s.b.self;
    var ev := GetPunch(m, 0, 0);
    s' := StepA(s, ev);
    GetPunchFlights(s, m, 0, 0);
    GetPunchRanks(s, m, 0, 0);
    GetPunchKeeps(s, m, 0, 0);
    NextByA(s, ev);
  }

  lemma Hears(s: Pair) returns (s': Pair)
    requires LossInv(s) && AckFlies(s, s.b.self)
    ensures ByA(s, s') && Rank(s'.a, s.b.self) == 3
  {
    var m :| m in s.acks && m.from == s.b.self;
    s' := StepA(s, GetAck(m));
    GetAckFlights(s, m);
    GetAckKeeps(s, m);
    NextByA(s, GetAck(m));
  }

  lemma SwapNext(s: Pair, s': Pair)
    requires LossyNext(Swap(s), Swap(s'))
    ensures LossyNext(s, s')
  {
    assert Swap(Swap(s)) == s && Swap(Swap(s')) == s';
    var mv :| CanMove(Swap(s), mv) && Swap(s') == Moved(Swap(s), mv);
    var mw := if mv.Proper? then Proper(!mv.atA, mv.ev) else mv;
    assert CanMove(s, mw) && Moved(s, mw) == s';
  }

  ghost predicate ByB(s: Pair, s': Pair) {
    && LossyNext(s, s') && LossInv(s') && s'.a.self == s.a.self && s'.b.self == s.b.self
    && Rank(s'.a, s.b.self) == Rank(s.a, s.b.self)
    && (AckFlies(s, s.a.self) && Rank(s'.b, s.a.self) < 3 ==> AckFlies(s', s.a.self))
    && (AckFlies(s, s.b.self) ==> AckFlies(s', s.b.self))
  }

  lemma Mirrored(s: Pair, t': Pair)
    requires ByA(Swap(s), t')
    ensures ByB(s, Swap(t'))
  {
    SwapNext(s, Swap(t'));
    SwapLossInv(t');
    SwapFlights(s);
    SwapFlights(t');
    assert Swap(Swap(t')) == t';
  }

  ghost predicate Completable(s: Pair) {
    exists tr: seq<Pair> :: LossyPath(tr) && tr[0] == s && BothActive(Final(tr))
  }

  lemma Completed(s: Pair, s': Pair)
    requires LossyNext(s, s') && Completable(s')
    ensures Completable(s)
  {
    hide LossyNext, BothActive;
    var rest: seq<Pair> :| LossyPath(rest) && rest[0] == s' && BothActive(Final(rest));
    var tr := [s] + rest;
    forall i | 0 <= i < |tr| - 1 ensures LossyNext(tr[i], tr[i + 1]) {
      if i > 0 {
        NextAt(rest, i - 1);
      }
    }
    assert Final(tr) == Final(rest);
  }

  lemma AlreadyThere(s: Pair)
    requires BothActive(s)
    ensures Completable(s)
  {
    assert LossyPath([s]) && Final([s]) == s;
  }

  /** B only has to hear A's acknowledgement. */
  lemma LastStep(s: Pair)
    requires LossInv(s) && Rank(s.a, s.b.self) == 3 && AckFlies(s, s.a.self)
    ensures Completable(s)
  {
    SwapLossInv(s);
    SwapFlights(s);
    var t := Hears(Swap(s));
    Mirrored(s, t);
    AlreadyThere(Swap(t));
    Completed(s, Swap(t));
  }

  /** Both answered a punch: each hears the other's acknowledgement. */
  lemma BothAnswered(s: Pair)
    requires LossInv(s) && AckFlies(s, s.a.self) && AckFlies(s, s.b.self)
    ensures Completable(s)
  {
    var s1 := Hears(s);
    LastStep(s1);
    Completed(s, s1);
  }

  /** B has answered A; B punches and A answers. */
  lemma OneAnswered(s: Pair)
    requires LossInv(s) && Rank(s.a, s.b.self) <= 2 && AckFlies(s, s.b.self)
    ensures Completable(s)
  {
    SwapLossInv(s);
    var t := Punches(Swap(s));
    Mirrored(s, t);
    SwapFlights(t);
    var s1 := Swap(t);
    var s2 := Answers(s1);
    BothAnswered(s2);
    Completed(s1, s2);
    Completed(s, s1);
  }

  /** Neither is ACTIVE: A joins if it has to and punches, B answers. */
  lemma NeitherActive(s: Pair)
    requires LossInv(s) && Rank(s.a, s.b.self) <= 2 && Rank(s.b, s.a.self) <= 2
    ensures Completable(s)
  {
    if Rank(s.a, s.b.self) == 0 {
      var s1 := Joins(s);
      JoinedNeitherActive(s1);
      Completed(s, s1);
    } else {
      JoinedNeitherActive(s);
    }
  }

  lemma JoinedNeitherActive(s: Pair)
    requires LossInv(s) && 1 <= Rank(s.a, s.b.self) <= 2 && Rank(s.b, s.a.self) <= 2
    ensures Completable(s)
  {
    var s1 := Punches(s);
    SwapLossInv(s1);
    SwapFlights(s1);
    var t := Answers(Swap(s1));
    Mirrored(s1, t);
    SwapFlights(t);
    OneAnswered(Swap(t));
    Completed(s1, Swap(t));
    Completed(s, s1);
  }

  lemma SwapCompletable(s: Pair)
    requires Completable(Swap(s))
    ensures Completable(s)
  {
    var tr: seq<Pair> :| LossyPath(tr) && tr[0] == Swap(s) && BothActive(Final(tr));
    var back := seq(|tr|, i requires 0 <= i < |tr| => Swap(tr[i]));
    forall i | 0 <= i < |back| - 1 ensures LossyNext(back[i], back[i + 1]) {
      NextAt(tr, i);
      assert Swap(back[i]) == tr[i] && Swap(back[i + 1]) == tr[i + 1];
      SwapNext(back[i], back[i + 1]);
    }
    assert back[0] == s;
  }

  lemma StuckFails(s: Pair)
    requires LossInv(s) && Stuck(s)
    ensures !Completable(s)
  {
    if Completable(s) {
      var tr: seq<Pair> :| LossyPath(tr) && tr[0] == s && BothActive(Final(tr));
      StuckAlong(tr, |tr| - 1);
    }
  }

  lemma CompletableExactly(s: Pair)
    requires LossInv(s)
    ensures Completable(s) <==> !Stuck(s) && !Stuck(Swap(s))
  {
    hide Completable;
    SwapLossInv(s);
    SwapFlights(s);
    assert Swap(Swap(s)) == s;
    if Stuck(s) {
      StuckFails(s);
    } else if Stuck(Swap(s)) {
      StuckFails(Swap(s));
      if Completable(s) {
        SwapCompletable(Swap(s));
      }
    } else if Rank(s.a, s.b.self) == 3 {
      if Rank(s.b, s.a.self) == 3 {
        AlreadyThere(s);
      } else {
        LastStep(s);
      }
    } else if Rank(s.b, s.a.self) == 3 {
      LastStep(Swap(s));
      SwapCompletable(s);
    } else {
      NeitherActive(s);
    }
  }

  lemma InitLossInv(s: Pair)
    requires Init(s)
    ensures LossInv(s)
  {}

  /**
   Convergence under loss. Whatever was lost in a run, it can still be completed to both ACTIVE
   exactly when neither node is ACTIVE while the other waits for an acknowledgement that is
   not on its way.
   */
  lemma LossBlocksExactly(tr: seq<Pair>)
    requires LossyRun(tr)
    ensures Completable(Final(tr)) <==> !Stuck(Final(tr)) && !Stuck(Swap(Final(tr)))
  {
    InitLossInv(tr[0]);
    PathKeepsLossInv(tr, |tr| - 1);
    CompletableExactly(Final(tr));
  }

  lemma PathEnd(tr: seq<Pair>, s: Pair)
    requires LossyPath(tr) && LossyNext(Final(tr), s)
    ensures LossyPath(tr + [s]) && Final(tr + [s]) == s && (tr + [s])[0] == tr[0]
  {
    hide LossyNext;
    var r := tr + [s];
    forall i | 0 <= i < |r| - 1 ensures LossyNext(r[i], r[i + 1]) {
      if i + 1 < |tr| {
        NextAt(tr, i);
      }
    }
  }

  /** A adds B and punches. */
  lemma FirstPunch(s: Pair) returns (s1: Pair, s2: Pair, punch: Msg)
    requires Init(s)
    ensures LossyNext(s, s1) && LossyNext(s1, s2)
    ensures s2.b == s.b && s2.a.self == s.a.self && Rank(s2.a, s.b.self) == 1 && s2.acks == multiset{}
    ensures s.b.self in s2.a.table && s2.a.table[s.b.self].uid == s.b.self
    ensures punch.Punch? && punch.from == s.a.self && punch.to == s.b.self
    ensures punch.info.Some? && punch.info.value.uid == s.a.self && s2.punches == multiset{punch}
  {
    var add := Add(0, 0, [], 0);
    punch := Punch(s.a.self, s.b.self, Some(LightInfo(s.a.self, 0, s.a.addr, s.a.pubkey)));
    s1 := StepA(s, add);
    s2 := StepA(s1, PunchPeer);
    assert s2.punches == multiset{punch};
    NextByA(s, add);
    NextByA(s1, PunchPeer);
  }

  /** B, which does not know A, answers. */
  lemma FirstAnswer(s: Pair, punch: Msg) returns (s': Pair)
    requires punch.Punch? && punch.from == s.a.self && punch.to == s.b.self && s.a.self != s.b.self
    requires punch.info.Some? && punch.info.value.uid == s.a.self && s.punches == multiset{punch}
    requires s.acks == multiset{} && s.a.self !in s.b.table
    ensures LossyNext(s, s') && s'.a == s.a && s'.b.self == s.b.self && Rank(s'.b, s.a.self) == 2
    ensures s'.acks == multiset{AckMsg(s.b.self, s.a.self)}
  {
    var mv := Proper(false, GetPunch(punch, 0, 0));
    assert CanMove(s, mv);
    s' := Moved(s, mv);
  }

  /** A hears it, becomes ACTIVE and acknowledges; that acknowledgement is lost. */
  lemma FirstLoss(s: Pair) returns (s1: Pair, s2: Pair)
    requires Rank(s.a, s.b.self) == 1 && s.a.table[s.b.self].uid == s.b.self
    requires s.acks == multiset{AckMsg(s.b.self, s.a.self)} && s.a.self != s.b.self
    ensures LossyNext(s, s1) && LossyNext(s1, s2)
    ensures s2.a.self == s.a.self && s2.b == s.b && Rank(s2.a, s.b.self) == 3 && s2.acks == multiset{}
  {
    var ackB, ackA := AckMsg(s.b.self, s.a.self), AckMsg(s.a.self, s.b.self);
    s1 := StepA(s, GetAck(ackB));
    assert s1.acks == multiset{ackA};
    s2 := Moved(s1, LoseAck(ackA));
    assert s2.acks == multiset{};
    NextByA(s, GetAck(ackB));
  }

  /** One lost acknowledgement is enough. */
  lemma OneLossCanBlock(s: Pair) returns (tr: seq<Pair>)
    requires Init(s)
    ensures LossyRun(tr) && tr[0] == s && |tr| == 6 && Stuck(Final(tr)) && !Completable(Final(tr))
  {
    hide LossyNext, LossyPath, Completable;
    var s1, s2, punch := FirstPunch(s);
    var s3 := FirstAnswer(s2, punch);
    var s4, s5 := FirstLoss(s3);
    SinglePath(s);
    tr := [s];
    PathEnd(tr, s1);
    tr := tr + [s1];
    PathEnd(tr, s2);
    tr := tr + [s2];
    PathEnd(tr, s3);
    tr := tr + [s3];
    PathEnd(tr, s4);
    tr := tr + [s4];
    PathEnd(tr, s5);
    tr := tr + [s5];
    assert Stuck(s5);
    InitLossInv(s);
    PathKeepsLossInv(tr, 5);
    StuckFails(s5);
  }

  lemma SinglePath(s: Pair)
    ensures LossyPath([s])
  {}
}
