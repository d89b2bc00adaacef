/**
 What the handshake teaches: over every run each node stores its peer under the address the
 peer was last heard from, and under the key it was added with or described itself with.
 */
module PunchAddresses {
  import opened Types
  import opened Peers
  import opened PunchProtocol

  datatype Deed = Deed(atA: bool, ev: Event)

  function After(s: Pair, deeds: seq<Deed>): Pair
    requires Possible(s, deeds)
    decreases |deeds|, 1
  {
    if deeds == [] then s
    else
      var n := |deeds| - 1;
      Step(After(s, deeds[..n]), deeds[n].atA, deeds[n].ev)
  }

  predicate Possible(s: Pair, deeds: seq<Deed>)
    decreases |deeds|, 0
  {
    deeds == [] ||
    (var n := |deeds| - 1;
     Possible(s, deeds[..n]) && CanStep(After(s, deeds[..n]), deeds[n].atA, deeds[n].ev))
  }

  /** The address of the last PUNCH that side handled, else the one it added its peer with. */
  function LastAddress(deeds: seq<Deed>, atA: bool): Option<Addr>
    decreases |deeds|
  {
    if deeds == [] then None
    else
      var d, rest := deeds[|deeds| - 1], deeds[..|deeds| - 1];
      if d.atA != atA then LastAddress(rest, atA)
      else match d.ev
           case Add(addr, _, _, _) => Some(addr)
           case GetPunch(_, nfd, _) => Some(nfd)
           case _ => LastAddress(rest, atA)
  }

  /** The key that side added its peer with, if it did. */
  function AddedKey(deeds: seq<Deed>, atA: bool): Option<seq<byte>>
    decreases |deeds|
  {
    if deeds == [] then None
    else
      var d, rest := deeds[|deeds| - 1], deeds[..|deeds| - 1];
      if d.atA == atA && d.ev.Add? then Some(d.ev.pubkey) else AddedKey(rest, atA)
  }

  // ------------------------------------------------------------- the invariant

  /** A PUNCH in flight carries its sender's key. */
  ghost predicate TruePunches(s: Pair) {
    forall m | m in s.punches && m.Punch? && m.info.Some? ::
      && (m.from == s.a.self ==> m.info.value.pubkey == s.a.pubkey)
      && (m.from == s.b.self ==> m.info.value.pubkey == s.b.pubkey)
  }

  /** What A has stored about B. */
  ghost predicate Stored(s: Pair, address: Option<Addr>, key: Option<seq<byte>>) {
    && (s.b.self in s.a.table <==> address.Some?)
    && (key.Some? ==> address.Some?)
    && (address.Some? ==>
          && s.a.table[s.b.self].nfd == address.value
          && s.a.table[s.b.self].pubkey == if key.Some? then key.value else s.b.pubkey)
  }

  function Told(ev: Event, address: Option<Addr>): Option<Addr> {
    match ev
    case Add(addr, _, _, _) => Some(addr)
    case GetPunch(_, nfd, _) => Some(nfd)
    case _ => address
  }

  function KeyTold(ev: Event, key: Option<seq<byte>>): Option<seq<byte>> { if ev.Add? then Some(ev.pubkey) else key }

  /** One step of A against what it was told before. */
  lemma StepAStores(s: Pair, ev: Event, address: Option<Addr>, key: Option<seq<byte>>)
    requires Inv(s) && TruePunches(s) && CanStepA(s, ev) && Stored(s, address, key)
    ensures Stored(StepA(s, ev), Told(ev, address), KeyTold(ev, key))
  {
    match ev
    case Add(_, _, _, _) =>
    case PunchPeer =>
    case GetPunch(m, nfd, now) =>
      assert m.from == s.b.self;
      PunchTeachesAddress(s.a.table, s.a.self, m, nfd, now);
    case GetAck(m) =>
      assert m.from == s.b.self;
      AckTeachesNothing(s.a.table, s.a.self, m.from);
  }

  lemma StepAKeepsTruth(s: Pair, ev: Event)
    requires NetInv(s) && TruePunches(s) && CanStepA(s, ev)
    ensures TruePunches(StepA(s, ev)) && StepA(s, ev).b == s.b
    ensures StepA(s, ev).a.self == s.a.self && StepA(s, ev).a.pubkey == s.a.pubkey
  {
    match ev
    case Add(_, _, _, _) =>
    case PunchPeer =>
      var sent := PunchSent(s.a.table, s.a.self, s.b.self, s.a.addr, s.a.pubkey);
      assert forall m :: m in StepA(s, ev).punches <==> m in s.punches || m in sent;
    case GetPunch(m, nfd, now) => TakeOne(s.punches, m);
    case GetAck(m) =>
  }

  lemma SwapTruth(s: Pair)
    requires TruePunches(s)
    ensures TruePunches(Swap(s))
  {}

  lemma {:induction false} EverStored(s: Pair, deeds: seq<Deed>)
    requires Init(s) && Possible(s, deeds)
    ensures var t := After(s, deeds);
            && Inv(t) && TruePunches(t)
            && Stored(t, LastAddress(deeds, true), AddedKey(deeds, true))
            && Stored(Swap(t), LastAddress(deeds, false), AddedKey(deeds, false))
    decreases |deeds|
  {
    if deeds == [] {
      NothingStored(s);
    } else {
      hide Inv, TruePunches, Stored, StepA, CanStepA;
      var n := |deeds| - 1;
      EverStored(s, deeds[..n]);
      var t, d := After(s, deeds[..n]), deeds[n];
      StepKeepsInv(t, d.atA, d.ev);
      OneDeed(t, d, LastAddress(deeds[..n], true), AddedKey(deeds[..n], true),
              LastAddress(deeds[..n], false), AddedKey(deeds[..n], false));
    }
  }

  lemma NothingStored(s: Pair)
    requires Init(s)
    ensures Inv(s) && TruePunches(s) && Stored(s, None, None) && Stored(Swap(s), None, None)
  {}

  lemma OneDeed(t: Pair, d: Deed, aa: Option<Addr>, ka: Option<seq<byte>>, ab: Option<Addr>, kb: Option<seq<byte>>)
    requires Inv(t) && TruePunches(t) && CanStep(t, d.atA, d.ev) && Stored(t, aa, ka) && Stored(Swap(t), ab, kb)
    ensures var t' := Step(t, d.atA, d.ev);
            && TruePunches(t')
            && (if d.atA then Stored(t', Told(d.ev, aa), KeyTold(d.ev, ka)) && Stored(Swap(t'), ab, kb)
                else Stored(t', aa, ka) && Stored(Swap(t'), Told(d.ev, ab), KeyTold(d.ev, kb)))
  {
    hide Inv, StepA, CanStepA;
    SwapTwice(t);
    if d.atA {
      ByOne(t, d.ev, aa, ka, ab, kb);
    } else {
      SwapInv(t);
      SwapTruth(t);
      ByOne(Swap(t), d.ev, ab, kb, aa, ka);
      SwapTruth(StepA(Swap(t), d.ev));
      SwapTwice(StepA(Swap(t), d.ev));
    }
  }

  lemma SwapTwice(t: Pair)
    ensures Swap(Swap(t)) == t
  {}

  /** A's step: A stores what it is told, B keeps what it has. */
  lemma ByOne(t: Pair, ev: Event, aa: Option<Addr>, ka: Option<seq<byte>>, ab: Option<Addr>, kb: Option<seq<byte>>)
    requires Inv(t) && TruePunches(t) && CanStepA(t, ev) && Stored(t, aa, ka) && Stored(Swap(t), ab, kb)
    ensures var t' := StepA(t, ev);
            && TruePunches(t') && Stored(t', Told(ev, aa), KeyTold(ev, ka)) && Stored(Swap(t'), ab, kb)
  {
    hide StepA;
    StepAStores(t, ev, aa, ka);
    StepAKeepsTruth(t, ev);
  }

  // --------------------------------------------------------------- the theorem

  /**
   In every run each node knows its peer exactly if it added it or heard a PUNCH from it, under
   the address of the last PUNCH handled, else the one given when it was added; under the key
   it was added with, else the peer's own. Acknowledgements never change either.
   */
  lemma AddressIsLastHeard(s: Pair, deeds: seq<Deed>)
    requires Init(s) && Possible(s, deeds)
    ensures var t := After(s, deeds);
            && Stored(t, LastAddress(deeds, true), AddedKey(deeds, true))
            && Stored(Swap(t), LastAddress(deeds, false), AddedKey(deeds, false))
  {
    EverStored(s, deeds);
  }
}
