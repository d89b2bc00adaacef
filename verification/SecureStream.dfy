/**
 The encrypted session on top of RUDP, over the same lossy network: one side encrypts and
 sends, whether RUDP takes the ciphertext or refuses it; the other receives and decrypts;
 handshakes may be repeated in between, and anything else goes on around them.
 */
module SecureStream {
  import opened Types
  import opened RudpSpec
  import opened RudpSystem
  import opened RudpSafety
  import opened RudpProgress
  import E = E2ee
  import Wire

  type Bytes = seq<byte>

  datatype Talk = Talk(
    net: Sys,
    speaker: E.Session,        // at endpoint a
    hearer: E.Session,         // at endpoint b
    said: seq<Bytes>,          // plaintexts encrypted
    made: seq<Bytes>,          // their ciphertexts
    seals: seq<nat>,           // which of them rudp_conn_send accepted
    heard: seq<Bytes>,         // plaintexts decrypted at b
    rejected: nat,             // received payloads that did not decrypt
    deaf: set<nat>)            // which payloads were received while b's session was not ended

  datatype Act =
    | Say(msg: Bytes, now: int)
    | Hear
    | Offer(atA: bool)                      // e2ee_conn_handshake_init
    | Answer(atA: bool, hs: E.Handshake)    // e2ee_conn_handshake_resp
    | Other(atA: bool, ev: Event)    // any other RUDP step of either endpoint

  /** If this handshake verifies it derives the keys the session has: it is the same peer's again. */
  predicate SameKeys(c: E.Crypto, s: E.Session, hs: E.Handshake) {
    E.Verifies(c, s, hs) ==> E.Derived(c, s, hs.pub) == Some(s.skeys)
  }

  /** Any message may be encrypted at any time; only the other applications of a and b stay out of the stream. */
  predicate CanAct(c: E.Crypto, t: Talk, act: Act) {
    match act
    case Say(_, _) => true
    case Hear => true
    case Offer(_) => true
    case Answer(atA, hs) => SameKeys(c, if atA then t.speaker else t.hearer, hs)
    case Other(atA, ev) => CanStep(t.net, atA, ev) && !(atA && ev.Send?) && !(!atA && ev.Recv?)
  }

  function Payload(t: Talk, data: Bytes): Packet {
    Packet(0, 0, t.net.a.conn.sUid, t.net.b.conn.sUid, PACK_DATA, data)
  }

  /** e2ee_encrypt, then rudp_conn_send whatever its result. */
  function SayIt(c: E.Crypto, t: Talk, msg: Bytes, now: int): Talk {
    match E.Sealed(c, t.speaker, msg)
    case None => t
    case Some(data) =>
      t.(net := Step(t.net, true, Send(Payload(t, data), now)),
         speaker := E.AfterEncrypt(c, t.speaker, msg), said := t.said + [msg], made := t.made + [data],
         seals := t.seals + if SendCode(t.net.a.conn) == Accepted then [|t.said|] else [])
  }

  /** rudp_conn_recv, then e2ee_decrypt on what it returned. */
  function HearIt(c: E.Crypto, t: Talk): Talk {
    match RecvCode(t.net.b.conn)
    case QueueEmpty => t.(net := Step(t.net, false, Recv))
    case Closed => t.(net := Step(t.net, false, Recv))
    case Got(p) =>
      var out := E.Opened(c, t.hearer, p.data);
      t.(net := Step(t.net, false, Recv), hearer := E.AfterDecrypt(c, t.hearer, p.data),
         heard := if out.Some? then t.heard + [out.value] else t.heard,
         rejected := if out.Some? then t.rejected else t.rejected + 1,
         deaf := if t.hearer.hstate == E.HandshakeEnded then t.deaf else t.deaf + {|t.net.b.consumed|})
  }

  function Do(c: E.Crypto, t: Talk, act: Act): Talk {
    match act
    case Say(msg, now) => SayIt(c, t, msg, now)
    case Hear => HearIt(c, t)
    case Offer(true) => t.(speaker := E.AfterInit(t.speaker))
    case Offer(false) => t.(hearer := E.AfterInit(t.hearer))
    case Answer(true, hs) => t.(speaker := E.AfterResp(c, t.speaker, hs))
    case Answer(false, hs) => t.(hearer := E.AfterResp(c, t.hearer, hs))
    case Other(atA, ev) => t.(net := Step(t.net, atA, ev))
  }

  ghost predicate Start(t: Talk) {
    && Init(t.net) && t.said == [] && t.made == [] && t.seals == [] && t.heard == [] && t.rejected == 0
    && t.deaf == {}
    && E.Paired(t.speaker, t.hearer) && t.speaker.txNonce == 0
  }

  ghost predicate TalkNext(c: E.Crypto, t: Talk, t': Talk) {
    exists act: Act :: CanAct(c, t, act) && t' == Do(c, t, act)
  }

  ghost predicate TalkRun(c: E.Crypto, tr: seq<Talk>) {
    |tr| > 0 && Start(tr[0]) && forall i | 0 <= i < |tr| - 1 :: TalkNext(c, tr[i], tr[i + 1])
  }

  /** Either a ciphertext opens under no other nonce, or none was refused and none met an unfinished session. */
  ghost predicate Separated(c: E.Crypto, t: Talk) {
    E.NonceBinds(c) || (|t.seals| >= |t.said| && t.deaf == {})
  }

  /** Fewer sends than sequence numbers, fewer encryptions than counters. */
  ghost predicate TalkLimit(t: Talk) { InLimit(t.net) && |t.said| < E.U64_LIMIT }

  /** Ciphertext `k` was made, and rudp_conn_send refused it. */
  ghost predicate Refused(t: Talk, k: nat) { k < |t.said| && k !in t.seals }

  // ------------------------- the theorems, proved from the invariant further down

  function Final(tr: seq<Talk>): Talk
    requires |tr| > 0
  {
    tr[|tr| - 1]
  }

  /** Ciphertext `k` comes before the `n`-th accepted one. */
  ghost predicate Before(t: Talk, k: nat, n: nat) { exists i | 0 <= i < n && i < |t.seals| :: k < t.seals[i] }

  /**
   The encrypted stream over RUDP, exactly. In every run, whatever was refused and whenever
   handshakes were repeated, what comes out is the plaintexts up to the first refused ciphertext
   or the first one received while the session was not ended, as far as they were received; all
   else that is received is rejected.
   */
  lemma HeardIsExact(c: E.Crypto, tr: seq<Talk>)
    requires E.AeadWorks(c) && TalkRun(c, tr) && TalkLimit(Final(tr)) && Separated(c, Final(tr))
    ensures var t := Final(tr);
            && t.heard <= t.said
            && |t.heard| + t.rejected == |t.net.b.consumed|
            && (forall k | 0 <= k < |t.heard| :: !Refused(t, k) && k !in t.deaf)
            && (t.rejected > 0 ==> Refused(t, |t.heard|) || |t.heard| in t.deaf)
            && (t.rejected == 0 <==>
                  t.deaf == {} && forall k: nat | Refused(t, k) :: !Before(t, k, |t.net.b.consumed|))
  {
    hide TalkNext, Start, InLimit, Inv;
    TalkRunKeepsInv(c, tr);
    RejectedExactly(c, Final(tr));
  }

  /** Every plaintext e2ee_encrypt takes gives a payload that fits a datagram. */
  lemma AcceptedAlwaysFits(c: E.Crypto, tr: seq<Talk>)
    requires E.AeadWorks(c) && TalkRun(c, tr) && |Final(tr).said| < E.U64_LIMIT
    ensures forall p | p in Final(tr).net.a.accepted ::
              Wire.MakePack(p.sn, p.hFrom, p.hTo, p.ptype, p.data).Some?
  {
    hide TalkNext, Start;
    RunKeepsSpeaker(c, tr);
    AcceptedFits(c, Final(tr));
  }

  /**
   In particular, while nothing was refused and nothing met an unfinished session the stream is
   complete, for any AEAD that works.
   */
  lemma HeardIsPrefixOfSaid(c: E.Crypto, tr: seq<Talk>)
    requires E.AeadWorks(c) && TalkRun(c, tr) && TalkLimit(Final(tr))
    requires |Final(tr).seals| >= |Final(tr).said| && Final(tr).deaf == {}
    ensures var t := Final(tr);
            t.heard <= t.said && |t.heard| == |t.net.b.consumed| && t.rejected == 0
  {
    hide TalkNext, Start, InLimit, Inv;
    TalkRunKeepsInv(c, tr);
    var t := Final(tr);
    if t.rejected > 0 {
      SealsTight(t.seals, |t.said|, |t.heard|);
    }
  }

  /**
   No nonce is used twice, whatever the AEAD, however many packets are sent, refused ciphertexts
   included and handshakes in between; and nothing but these ciphertexts is ever sent.
   */
  lemma NoncesNeverRepeat(c: E.Crypto, tr: seq<Talk>)
    requires TalkRun(c, tr) && |Final(tr).said| < E.U64_LIMIT
    ensures var t := Final(tr);
            && |t.made| == |t.said|
            && (forall i | 0 <= i < |t.made| :: t.made[i] == c.enc(t.speaker.skeys.tx, E.Nonce(i), t.said[i]))
            && (forall i, j | 0 <= i < j < |t.made| :: E.Nonce(i) != E.Nonce(j))
            && (forall p | p in t.net.a.accepted :: p.data in t.made)
  {
    hide TalkNext, Start, E.Nonce;
    RunKeepsSpeaker(c, tr);
    var t := Final(tr);
    forall i, j | 0 <= i < j < |t.made| ensures E.Nonce(i) != E.Nonce(j) {
      if E.Nonce(i) == E.Nonce(j) {
        E.NonceInjective(i, j);
      }
    }
    forall p | p in t.net.a.accepted ensures p.data in t.made {
      var i :| 0 <= i < |t.net.a.accepted| && t.net.a.accepted[i] == p;
      assert p.data == t.made[t.seals[i]];
    }
  }

  /** Once a payload was rejected the hearer never decrypts anything again. */
  lemma LossIsForever(c: E.Crypto, tr: seq<Talk>, i: nat)
    requires E.AeadWorks(c) && E.NonceBinds(c) && TalkRun(c, tr) && TalkLimit(Final(tr)) && i < |tr|
    requires tr[i].rejected > 0
    ensures Final(tr).heard == tr[i].heard
  {
    hide E.AeadWorks, E.NonceBinds, Start, InLimit, Inv, SpeakerInv;
    ContinuesAlong(c, tr, i);
    TalkRunKeepsInv(c, tr);
    assert TalkLimit(tr[i]) by { TalkLimitEarlier(tr[i], Final(tr)); }
    TalkRunKeepsInv(c, tr[..i + 1]);
    var n := |tr[i].heard|;
    assert Final(tr).seals[n] == tr[i].seals[n];
  }

  /** A reachable run whose window is full: of 129 ciphertexts in a row the last one is refused. */
  lemma FullWindowRefuses(c: E.Crypto, t: Talk, now: int) returns (tr: seq<Talk>)
    requires Start(t)
    ensures TalkRun(c, tr) && tr[0] == t && Refused(Final(tr), 128)
    ensures var t' := Final(tr);
            && !t'.net.a.conn.closed && |t'.said| == 129 && |t'.net.a.accepted| == 128
            && t'.net.b == t.net.b && t'.speaker.hstate == E.HandshakeEnded
  {
    hide TalkNext, Perform, Able, SayIt;
    FillWindow(c, t, 128, now);
    var full := Perform(c, t, Says(128, now));
    assert forall i | i in full.seals :: i < 128;
    SayRefused(c, full, now);
    tr := RunExtends(c, [t], Says(128, now));
    tr := RunExtendsOnce(c, tr, Say([], now));
  }

  /**
   Every refusal is fatal: from any run in which a ciphertext was refused, both ends are open, the
   speaker can encrypt and one more send is within the limits, the run goes on to lose the stream.
   */
  lemma RefusalIsFatal(c: E.Crypto, tr: seq<Talk>, k: nat, now: int) returns (tr': seq<Talk>)
    requires E.AeadWorks(c) && E.NonceBinds(c) && TalkRun(c, tr) && TalkLimit(Final(tr)) && Refused(Final(tr), k)
    requires !Final(tr).net.a.conn.closed && !Final(tr).net.b.conn.closed
    requires |Final(tr).net.a.accepted| + 1 < MAX_SENDS && |Final(tr).said| + 1 < E.U64_LIMIT
    requires Final(tr).speaker.hstate == E.HandshakeEnded
    ensures TalkRun(c, tr') && tr <= tr' && Final(tr').rejected > 0
  {
    hide TalkNext, Start, E.AeadWorks, E.NonceBinds, Inv;
    TalkRunKeepsInv(c, tr);
    var tr1 := DrainTalk(c, tr, now);
    var t, t1 := Final(tr), Final(tr1);
    LimitKept(t, t1);
    TalkRunKeepsInv(c, tr1);
    tr' := SayAndHear(c, tr1, now);
    LastSealTooHigh(c, t, Final(tr'), k);
  }

  /** So runs that lose the stream exist: fill the window, encrypt once more, and carry on. */
  lemma SomeRunLosesTheStream(c: E.Crypto, t: Talk, now: int) returns (tr: seq<Talk>)
    requires E.AeadWorks(c) && E.NonceBinds(c) && Start(t)
    ensures TalkRun(c, tr) && tr[0] == t && Final(tr).rejected > 0
  {
    hide TalkNext, E.AeadWorks, E.NonceBinds;
    var front := FullWindowRefuses(c, t, now);
    assert TalkLimit(Final(front));
    tr := RefusalIsFatal(c, front, 128, now);
  }

  /**
   A handshake in mid-stream is as bad: from any run with both ends open, the speaker able to
   encrypt and one more send within the limits, an offer by the hearer can lose the stream, and
   no later answer brings it back.
   */
  lemma OfferMidStreamIsFatal(c: E.Crypto, tr: seq<Talk>, now: int) returns (tr': seq<Talk>)
    requires E.AeadWorks(c) && E.NonceBinds(c) && TalkRun(c, tr) && TalkLimit(Final(tr))
    requires !Final(tr).net.a.conn.closed && !Final(tr).net.b.conn.closed
    requires |Final(tr).net.a.accepted| + 1 < MAX_SENDS && |Final(tr).said| + 1 < E.U64_LIMIT
    requires Final(tr).speaker.hstate == E.HandshakeEnded
    ensures TalkRun(c, tr') && tr <= tr' && Final(tr').rejected > 0
    ensures |Final(tr').said| == |Final(tr).said| + 1 && Final(tr').seals == Final(tr).seals + [|Final(tr).said|]
  {
    hide TalkNext, Start, E.AeadWorks, E.NonceBinds, Inv, SayIt, SpeakerInv;
    TalkRunKeepsInv(c, tr);
    var tr1 := DrainTalk(c, tr, now);
    SayFits(c, Final(tr1), now);
    var tr2 := RunExtendsOnce(c, tr1, Say([], now));
    LimitAfterSay(c, Final(tr), Final(tr2));
    TalkRunKeepsInv(c, tr2);
    var tr3 := DrainTalk(c, tr2, now);
    var tr4 := RunExtendsOnce(c, tr3, Offer(false));
    SomethingWaits(c, Final(tr), Final(tr4));
    tr' := RunExtendsOnce(c, tr4, Hear);
  }

  // ------------------------------------------------------------- the invariant

  ghost predicate Increasing(s: seq<nat>) { forall i, j | 0 <= i < j < |s| :: s[i] < s[j] }

  /** Ciphertext i is plaintext i under counter i; the accepted packets carry an increasing selection. */
  ghost predicate SpeakerInv(c: E.Crypto, t: Talk) {
    var accepted := t.net.a.accepted;
    && |t.made| == |t.said| == t.speaker.txNonce
    && (forall i | 0 <= i < |t.said| ::
          t.made[i] == c.enc(t.speaker.skeys.tx, E.Nonce(i), t.said[i]) && |t.said[i]| <= E.BIGGEST)
    && |t.seals| == |accepted| && Increasing(t.seals)
    && (forall i | 0 <= i < |t.seals| :: t.seals[i] < |t.said| && accepted[i].data == t.made[t.seals[i]])
  }

  /** The hearer opened what came before the first gap or deaf moment, and nothing else. */
  ghost predicate HearerInv(t: Talk) {
    var n := |t.heard|;
    && t.hearer.rxNonce == n <= |t.said| && t.heard == t.said[..n]
    && n + t.rejected == |t.net.b.consumed| <= |t.seals|
    && (forall i | 0 <= i < n :: t.seals[i] == i && i !in t.deaf)
    && (t.rejected > 0 ==> t.seals[n] > n || n in t.deaf)
    && (forall i | i in t.deaf :: i < |t.net.b.consumed|)
  }

  ghost predicate KeysMatch(t: Talk) { t.speaker.skeys.tx == t.hearer.skeys.rx }

  ghost predicate TalkInv(c: E.Crypto, t: Talk) {
    Inv(t.net) && |t.said| < E.U64_LIMIT && KeysMatch(t) && SpeakerInv(c, t) && HearerInv(t)
  }

  lemma {:induction false} SealsAhead(s: seq<nat>, i: nat)
    requires Increasing(s) && i < |s|
    ensures s[i] >= i
  {
    if i > 0 {
      SealsAhead(s, i - 1);
    }
  }

  /** As many accepted as made: none was refused. */
  lemma {:induction false} SealsTight(s: seq<nat>, n: nat, i: nat)
    requires Increasing(s) && |s| >= n && i < |s| && forall j | 0 <= j < |s| :: s[j] < n
    ensures s[i] == i
    decreases |s| - i
  {
    SealsAhead(s, i);
    SealsAhead(s, |s| - 1);
    if i + 1 < |s| {
      SealsTight(s, n, i + 1);
    }
  }

  // What holds of the speaker holds for any AEAD and any number of sends.

  lemma SayKeepsSpeaker(c: E.Crypto, t: Talk, msg: Bytes, now: int)
    requires SpeakerInv(c, t) && |SayIt(c, t, msg, now).said| < E.U64_LIMIT
    ensures SpeakerInv(c, SayIt(c, t, msg, now))
  {
    hide Step;
    if E.Sealed(c, t.speaker, msg).Some? {
      SayGrows(t.net, Payload(t, E.Sealed(c, t.speaker, msg).value), now);
    }
  }

  lemma StepKeepsSpeaker(c: E.Crypto, t: Talk, act: Act)
    requires SpeakerInv(c, t) && CanAct(c, t, act) && |Do(c, t, act).said| < E.U64_LIMIT
    ensures SpeakerInv(c, Do(c, t, act))
  {
    hide Increasing, E.Sealed, E.Opened;
    match act
    case Say(msg, now) => SayKeepsSpeaker(c, t, msg, now);
    case Hear =>
    case Offer(_) =>
    case Answer(_, _) =>
    case Other(atA, ev) => OtherLeavesStream(t.net, atA, ev);
  }

  lemma {:induction false} RunKeepsSpeaker(c: E.Crypto, tr: seq<Talk>)
    requires TalkRun(c, tr) && |Final(tr).said| < E.U64_LIMIT
    ensures SpeakerInv(c, Final(tr))
    decreases |tr|
  {
    if |tr| > 1 {
      hide SpeakerInv, Start, Do, CanAct;
      var t, t' := tr[|tr| - 2], tr[|tr| - 2 + 1];
      assert TalkNext(c, t, t');
      TalkGrows(c, t, t');
      RunKeepsSpeaker(c, tr[..|tr| - 1]);
      var act :| CanAct(c, t, act) && t' == Do(c, t, act);
      StepKeepsSpeaker(c, t, act);
    }
  }

  lemma SayKeeps(c: E.Crypto, t: Talk, msg: Bytes, now: int)
    requires TalkInv(c, t) && TalkLimit(SayIt(c, t, msg, now))
    ensures TalkInv(c, SayIt(c, t, msg, now))
  {
    hide Inv, InLimit, SpeakerInv, Step;
    SayKeepsSpeaker(c, t, msg, now);
    if E.Sealed(c, t.speaker, msg).Some? {
      var pkt := Payload(t, E.Sealed(c, t.speaker, msg).value);
      SayEnabled(t.net, pkt, now);
      StepKeepsInv(t.net, true, Send(pkt, now));
      SayGrows(t.net, pkt, now);
    }
  }

  lemma SayEnabled(s: Sys, pkt: Packet, now: int)
    requires pkt.ptype == PACK_DATA && pkt.hFrom == s.a.conn.sUid
    ensures CanStep(s, true, Send(pkt, now))
  {}

  lemma SayGrows(s: Sys, pkt: Packet, now: int)
    ensures var s' := Step(s, true, Send(pkt, now));
            && s'.b == s.b
            && s'.a.accepted == s.a.accepted + if SendCode(s.a.conn) == Accepted then [Stamped(s.a.conn, pkt)] else []
  {}

  /** A received payload is opened exactly when the session is ended and no payload was lost before. */
  lemma HearOne(c: E.Crypto, t: Talk)
    requires E.AeadWorks(c) && KeysMatch(t) && SpeakerInv(c, t) && HearerInv(t) && |t.said| < E.U64_LIMIT
    requires |t.net.b.consumed| < |t.seals| && Separated(c, t)
    ensures var n, k := |t.heard|, |t.net.b.consumed|;
            var out := E.Opened(c, t.hearer, t.net.a.accepted[k].data);
            && k <= t.seals[k] < |t.said|
            && out == if t.hearer.hstate == E.HandshakeEnded && t.rejected == 0 && t.seals[k] == n
                      then Some(t.said[t.seals[k]]) else None
  {
    hide E.NonceBinds;
    var n, k := |t.heard|, |t.net.b.consumed|;
    SealsAhead(t.seals, k);
    if t.seals[k] > n {
      if !E.NonceBinds(c) {
        SealsTight(t.seals, |t.said|, k);
        SealsTight(t.seals, |t.said|, n);
        assert false;
      }
      E.OtherNonceRejected(c, t.hearer, t.seals[k], t.said[t.seals[k]]);
    }
  }

  /** What rudp_conn_recv hands over is the next accepted packet. */
  lemma HearTakes(s: Sys)
    requires Inv(s)
    ensures var s', r := Step(s, false, Recv), RecvCode(s.b.conn);
            && s'.a == s.a && CanStep(s, false, Recv) && InLimit(s')
            && s'.b.consumed == s.b.consumed + (if r.Got? then [r.pkt] else [])
            && (r.Got? ==> |s.b.consumed| < |s.a.accepted| && r.pkt == s.a.accepted[|s.b.consumed|])
  {
    if RecvCode(s.b.conn).Got? {
      assert Delivered(s.b)[|s.b.consumed|] == s.b.conn.reordered[0];
    }
  }

  lemma HearKeeps(c: E.Crypto, t: Talk)
    requires E.AeadWorks(c) && TalkInv(c, t) && Separated(c, t)
    ensures TalkInv(c, HearIt(c, t))
  {
    hide E.AeadWorks, E.NonceBinds, Inv, Step;
    HearTakes(t.net);
    StepKeepsInv(t.net, false, Recv);
    if RecvCode(t.net.b.conn).Got? {
      HearOne(c, t);
      HearerMoves(c, t, HearIt(c, t));
    }
  }

  lemma HearerMoves(c: E.Crypto, t: Talk, t': Talk)
    requires HearerInv(t) && |t.said| < E.U64_LIMIT
    requires |t.net.b.consumed| < |t.seals| && RecvCode(t.net.b.conn).Got?
    requires t' == HearIt(c, t) && |t'.net.b.consumed| == |t.net.b.consumed| + 1
    requires var n, k := |t.heard|, |t.net.b.consumed|;
             var out := E.Opened(c, t.hearer, RecvCode(t.net.b.conn).pkt.data);
             && k <= t.seals[k] < |t.said|
             && out == if t.hearer.hstate == E.HandshakeEnded && t.rejected == 0 && t.seals[k] == n
                       then Some(t.said[t.seals[k]]) else None
    ensures HearerInv(t') && KeysMatch(t') == KeysMatch(t)
  {
    hide E.Opened, Step;
    var n := |t.heard|;
    assert n < |t.said| ==> t.said[..n + 1] == t.said[..n] + [t.said[n]];
  }

  lemma OtherKeeps(c: E.Crypto, t: Talk, act: Act)
    requires TalkInv(c, t) && CanAct(c, t, act) && act.Other? && InLimit(Do(c, t, act).net)
    ensures TalkInv(c, Do(c, t, act))
  {
    StepKeepsInv(t.net, act.atA, act.ev);
    OtherLeavesStream(t.net, act.atA, act.ev);
  }

  lemma OtherLeavesStream(s: Sys, atA: bool, ev: Event)
    requires !(atA && ev.Send?) && !(!atA && ev.Recv?)
    ensures Step(s, atA, ev).a.accepted == s.a.accepted && Step(s, atA, ev).b.consumed == s.b.consumed
  {}

  /** `t'` continues `t`: histories only grow, and a refusal stays a refusal. */
  ghost predicate Continues(t: Talk, t': Talk) {
    && t.net.a.accepted <= t'.net.a.accepted && t.net.b.accepted <= t'.net.b.accepted
    && t.said <= t'.said && t.seals <= t'.seals && t.heard <= t'.heard
    && |t.said| - |t.seals| <= |t'.said| - |t'.seals| && t.deaf <= t'.deaf
  }

  lemma TalkGrows(c: E.Crypto, t: Talk, t': Talk)
    requires TalkNext(c, t, t')
    ensures Continues(t, t')
  {
    hide E.Sealed, E.Opened, E.AfterEncrypt, E.AfterDecrypt;
  }

  lemma HandshakeKeeps(c: E.Crypto, t: Talk, act: Act)
    requires TalkInv(c, t) && CanAct(c, t, act) && (act.Offer? || act.Answer?)
    ensures TalkInv(c, Do(c, t, act))
  {
    hide Inv, Increasing, E.Derived;
  }

  lemma DoKeeps(c: E.Crypto, t: Talk, act: Act)
    requires E.AeadWorks(c) && TalkInv(c, t) && CanAct(c, t, act) && TalkLimit(Do(c, t, act)) && Separated(c, t)
    ensures TalkInv(c, Do(c, t, act))
  {
    hide TalkInv, SayIt, HearIt, E.AeadWorks;
    match act
    case Say(msg, now) => SayKeeps(c, t, msg, now);
    case Hear => HearKeeps(c, t);
    case Offer(_) => HandshakeKeeps(c, t, act);
    case Answer(_, _) => HandshakeKeeps(c, t, act);
    case Other(_, _) => OtherKeeps(c, t, act);
  }

  lemma StartInv(c: E.Crypto, t: Talk)
    requires Start(t)
    ensures TalkInv(c, t)
  {}

  lemma {:induction false} TalkRunKeepsInv(c: E.Crypto, tr: seq<Talk>)
    requires E.AeadWorks(c) && TalkRun(c, tr) && TalkLimit(Final(tr)) && Separated(c, Final(tr))
    ensures TalkInv(c, Final(tr))
    decreases |tr|
  {
    hide E.AeadWorks;
    if |tr| == 1 {
      StartInv(c, tr[0]);
    } else {
      hide Start, TalkInv, CanAct, Do;
      var front := tr[..|tr| - 1];
      var t, t' := tr[|tr| - 2], tr[|tr| - 2 + 1];
      assert TalkNext(c, t, t');
      TalkGrows(c, t, t');
      TalkRunKeepsInv(c, front);
      var act :| CanAct(c, t, act) && t' == Do(c, t, act);
      DoKeeps(c, t, act);
    }
  }

  // ------------------------------------------- from the invariant to the theorems

  /** e2ee_encrypt takes exactly the plaintexts whose ciphertexts make a packet. */
  lemma EncryptsExactlyWhatFits(c: E.Crypto, s: E.Session, msg: Bytes, p: Packet)
    requires E.AeadWorks(c) && s.hstate == E.HandshakeEnded
    ensures E.Sealed(c, s, msg).Some? <==>
      Wire.MakePack(p.sn, p.hFrom, p.hTo, p.ptype, c.enc(s.skeys.tx, E.Nonce(s.txNonce), msg)).Some?
    ensures E.Sealed(c, s, msg).Some? ==> E.Sealed(c, s, msg) == Some(c.enc(s.skeys.tx, E.Nonce(s.txNonce), msg))
  {}

  /** A payload shorter than the overhead opens nothing and moves no counter, whatever the library would say. */
  lemma ShortIsRejected(c: E.Crypto, s: E.Session, data: Bytes)
    requires |data| < E.OVERHEAD || s.hstate != E.HandshakeEnded
    ensures E.Opened(c, s, data) == None && E.AfterDecrypt(c, s, data) == s
  {}

  lemma AcceptedFits(c: E.Crypto, t: Talk)
    requires E.AeadWorks(c) && SpeakerInv(c, t)
    ensures forall p | p in t.net.a.accepted :: Wire.MakePack(p.sn, p.hFrom, p.hTo, p.ptype, p.data).Some?
  {
    hide Increasing;
    forall p | p in t.net.a.accepted ensures |p.data| <= E.BIGGEST + E.OVERHEAD {
      var i :| 0 <= i < |t.net.a.accepted| && t.net.a.accepted[i] == p;
      assert p.data == t.made[t.seals[i]];
    }
  }

  lemma RejectedExactly(c: E.Crypto, t: Talk)
    requires SpeakerInv(c, t) && HearerInv(t)
    ensures forall k | 0 <= k < |t.heard| :: !Refused(t, k) && k !in t.deaf
    ensures t.rejected > 0 ==> Refused(t, |t.heard|) || |t.heard| in t.deaf
    ensures t.rejected == 0 <==>
              t.deaf == {} && forall k: nat | Refused(t, k) :: !Before(t, k, |t.net.b.consumed|)
  {
    var n := |t.heard|;
    forall k | 0 <= k < n ensures !Refused(t, k) {
      assert t.seals[k] == k;
    }
    if t.rejected == 0 {
      assert forall i | i in t.deaf :: i < n;
    } else if n !in t.deaf {
      assert Refused(t, n) by {
        forall j | 0 <= j < |t.seals| ensures t.seals[j] != n {
          assert j < n ==> t.seals[j] == j;
          assert j > n ==> t.seals[n] < t.seals[j];
        }
      }
      assert Before(t, n, |t.net.b.consumed|);
    }
  }

  lemma {:induction false} ContinuesAlong(c: E.Crypto, tr: seq<Talk>, i: nat)
    requires TalkRun(c, tr) && i < |tr|
    ensures Continues(tr[i], Final(tr))
    decreases |tr| - i
  {
    hide Start;
    if i < |tr| - 1 {
      assert TalkNext(c, tr[i], tr[i + 1]);
      TalkGrows(c, tr[i], tr[i + 1]);
      ContinuesAlong(c, tr, i + 1);
    }
  }

  lemma TalkLimitEarlier(t: Talk, t': Talk)
    requires Continues(t, t') && TalkLimit(t')
    ensures TalkLimit(t)
  {}

  // ------------------------------------------------------ runs that lose the stream

  function Perform(c: E.Crypto, t: Talk, acts: seq<Act>): Talk
    decreases |acts|
  {
    if acts == [] then t else Perform(c, Do(c, t, acts[0]), acts[1..])
  }

  predicate Able(c: E.Crypto, t: Talk, acts: seq<Act>)
    decreases |acts|
  {
    acts == [] || (CanAct(c, t, acts[0]) && Able(c, Do(c, t, acts[0]), acts[1..]))
  }

  lemma {:induction false} RunExtends(c: E.Crypto, tr: seq<Talk>, acts: seq<Act>) returns (tr': seq<Talk>)
    requires TalkRun(c, tr) && Able(c, Final(tr), acts)
    ensures TalkRun(c, tr') && tr <= tr' && Final(tr') == Perform(c, Final(tr), acts)
    decreases |acts|
  {
    hide Start, CanAct, Do;
    if acts == [] {
      return tr;
    }
    var t' := Do(c, Final(tr), acts[0]);
    var next := tr + [t'];
    assert TalkNext(c, Final(tr), t');
    tr' := RunExtends(c, next, acts[1..]);
    assert tr <= next <= tr';
  }

  function Says(n: nat, now: int): seq<Act> { seq(n, _ => Say([], now)) }

  /** Filling the window: the first `n` ciphertexts are accepted as long as there is room. */
  lemma {:induction false} FillWindow(c: E.Crypto, t: Talk, n: nat, now: int)
    requires t.speaker.hstate == E.HandshakeEnded && !t.net.a.conn.closed
    requires |t.net.a.conn.fhost| + n <= SEND_WINDOW
    ensures var t' := Perform(c, t, Says(n, now));
            && Able(c, t, Says(n, now)) && t'.net.b == t.net.b
            && t'.speaker.hstate == E.HandshakeEnded && !t'.net.a.conn.closed
            && |t'.net.a.conn.fhost| == |t.net.a.conn.fhost| + n
            && |t'.net.a.accepted| == |t.net.a.accepted| + n && t'.net.b == t.net.b
            && t'.said == t.said + seq(n, _ => []) && t'.seals == t.seals + seq(n, i => |t.said| + i)
    decreases n
  {
    hide SayIt;
    if n > 0 {
      SayFits(c, t, now);
      assert Says(n, now)[1..] == Says(n - 1, now);
      FillWindow(c, SayIt(c, t, [], now), n - 1, now);
    }
  }

  /** With room in the window a ciphertext is made and accepted. */
  lemma SayFits(c: E.Crypto, t: Talk, now: int)
    requires t.speaker.hstate == E.HandshakeEnded && !t.net.a.conn.closed && |t.net.a.conn.fhost| < SEND_WINDOW
    ensures var t' := SayIt(c, t, [], now);
            && t'.net.b == t.net.b && t'.speaker.hstate == E.HandshakeEnded && !t'.net.a.conn.closed
            && |t'.net.a.conn.fhost| == |t.net.a.conn.fhost| + 1
            && |t'.net.a.accepted| == |t.net.a.accepted| + 1
            && t'.said == t.said + [[]] && t'.seals == t.seals + [|t.said|]
  {}

  /** With a full window it is made and refused. */
  lemma SayRefused(c: E.Crypto, t: Talk, now: int)
    requires t.speaker.hstate == E.HandshakeEnded && !t.net.a.conn.closed && |t.net.a.conn.fhost| >= SEND_WINDOW
    ensures var t' := SayIt(c, t, [], now);
            && t'.net.b == t.net.b && t'.speaker.hstate == E.HandshakeEnded && !t'.net.a.conn.closed
            && t'.net.a.accepted == t.net.a.accepted && t'.said == t.said + [[]] && t'.seals == t.seals
  {}

  function Others(moves: seq<Move>): seq<Act> {
    seq(|moves|, i requires 0 <= i < |moves| => Other(moves[i].atA, moves[i].ev))
  }

  /** Arrivals of frames happen in a talk as they do without it. */
  lemma {:induction false} PlayIsPerform(c: E.Crypto, t: Talk, moves: seq<Move>)
    requires Playable(t.net, moves) && ArrivalsOnly(moves)
    ensures Able(c, t, Others(moves))
    ensures var t' := Perform(c, t, Others(moves));
            && t' == t.(net := Play(t.net, moves))
            && t'.net.b.conn.closed == t.net.b.conn.closed && t'.net.b.consumed == t.net.b.consumed
            && t'.net.b.accepted == t.net.b.accepted
    decreases |moves|
  {
    hide RudpSystem.Act, CanStep;
    if moves != [] {
      var m := moves[0];
      var t1 := t.(net := Step(t.net, m.atA, m.ev));
      assert Others(moves)[0] == Other(m.atA, m.ev) && Others(moves)[1..] == Others(moves[1..]);
      ArrivalLeaves(t.net, m);
      PlayIsPerform(c, t1, moves[1..]);
    }
  }

  lemma ArrivalLeaves(s: Sys, m: Move)
    requires m.ev.Arrive?
    ensures var s' := Step(s, m.atA, m.ev);
            && s'.b.conn.closed == s.b.conn.closed && s'.b.consumed == s.b.consumed
            && s'.b.accepted == s.b.accepted
  {}

  function Hears(n: nat): seq<Act> { seq(n, _ => Hear) }

  /** The hearer empties its delivery queue. */
  lemma {:induction false} HearAll(c: E.Crypto, t: Talk)
    requires !t.net.b.conn.closed
    ensures Able(c, t, Hears(|t.net.b.conn.reordered|))
    ensures var t' := Perform(c, t, Hears(|t.net.b.conn.reordered|));
            && t'.net.a == t.net.a && t'.net.b.accepted == t.net.b.accepted
            && t'.net.b.consumed == Delivered(t.net.b)
            && t'.said == t.said && t'.seals == t.seals && t'.speaker == t.speaker
    decreases |t.net.b.conn.reordered|
  {
    var n := |t.net.b.conn.reordered|;
    hide HearIt;
    if n > 0 {
      HearMoves(c, t);
      assert Hears(n)[1..] == Hears(n - 1);
      HearAll(c, HearIt(c, t));
      assert t.net.b.conn.reordered == [t.net.b.conn.reordered[0]] + t.net.b.conn.reordered[1..];
    }
  }

  lemma HearMoves(c: E.Crypto, t: Talk)
    requires !t.net.b.conn.closed && t.net.b.conn.reordered != []
    ensures var t', q := HearIt(c, t), t.net.b.conn.reordered;
            && t'.net.a == t.net.a && t'.net.b.accepted == t.net.b.accepted
            && !t'.net.b.conn.closed && t'.net.b.conn.reordered == q[1..]
            && t'.net.b.consumed == t.net.b.consumed + [q[0]]
            && t'.said == t.said && t'.seals == t.seals && t'.speaker == t.speaker
  {
    hide E.Opened, E.AfterDecrypt;
  }

  /** Draining the sender is part of a talk like anything else. */
  lemma DrainTalk(c: E.Crypto, tr: seq<Talk>, now: int) returns (tr': seq<Talk>)
    requires TalkRun(c, tr) && Inv(Final(tr).net) && !Final(tr).net.a.conn.closed
    ensures TalkRun(c, tr') && tr <= tr'
    ensures var t, t' := Final(tr), Final(tr');
            && t' == t.(net := t'.net) && t'.net.a.accepted == t.net.a.accepted
            && t'.net.a.conn.fhost == [] && !t'.net.a.conn.closed && Delivered(t'.net.b) == t.net.a.accepted
            && t'.net.b.conn.closed == t.net.b.conn.closed && t'.net.b.consumed == t.net.b.consumed
            && t'.net.b.accepted == t.net.b.accepted
  {
    hide TalkNext, Start, Playable, Play, Able, Perform;
    var s := Final(tr).net;
    var moves := Drains(s, s.net, now);
    PlayIsPerform(c, Final(tr), moves);
    tr' := RunExtends(c, tr, Others(moves));
  }

  /** One more ciphertext gets through, and the hearer takes everything. */
  lemma SayAndHear(c: E.Crypto, tr: seq<Talk>, now: int) returns (tr': seq<Talk>)
    requires E.AeadWorks(c) && E.NonceBinds(c) && TalkRun(c, tr) && TalkInv(c, Final(tr))
    requires !Final(tr).net.a.conn.closed && !Final(tr).net.b.conn.closed && Final(tr).net.a.conn.fhost == []
    requires |Final(tr).net.a.accepted| + 1 < MAX_SENDS && |Final(tr).said| + 1 < E.U64_LIMIT
    requires Final(tr).speaker.hstate == E.HandshakeEnded
    ensures TalkRun(c, tr') && tr <= tr' && TalkInv(c, Final(tr'))
    ensures var t, t' := Final(tr), Final(tr');
            && t'.said == t.said + [[]] && t'.seals == t.seals + [|t.said|]
            && t'.net.b.consumed == t'.net.a.accepted
  {
    hide TalkNext, Start, E.AeadWorks, E.NonceBinds, SayIt, SpeakerInv, HearerInv, Able, Perform, Inv;
    var t := Final(tr);
    SayFits(c, t, now);
    var tr1 := RunExtendsOnce(c, tr, Say([], now));
    var t1 := Final(tr1);
    LimitAfterSay(c, t, t1);
    TalkRunKeepsInv(c, tr1);
    var tr2 := DrainTalk(c, tr1, now);
    HearAll(c, Final(tr2));
    tr' := RunExtends(c, tr2, Hears(|Final(tr2).net.b.conn.reordered|));
    LimitAfterSay(c, t, Final(tr'));
    TalkRunKeepsInv(c, tr');
  }

  lemma RunExtendsOnce(c: E.Crypto, tr: seq<Talk>, act: Act) returns (tr': seq<Talk>)
    requires TalkRun(c, tr) && CanAct(c, Final(tr), act)
    ensures TalkRun(c, tr') && tr <= tr' && Final(tr') == Do(c, Final(tr), act)
  {
    hide Start, CanAct, Do;
    assert [act][1..] == [] && Perform(c, Do(c, Final(tr), act), []) == Do(c, Final(tr), act);
    assert Able(c, Final(tr), [act]);
    tr' := RunExtends(c, tr, [act]);
  }

  lemma LimitAfterSay(c: E.Crypto, t: Talk, t': Talk)
    requires TalkInv(c, t) && |t.net.a.accepted| + 1 < MAX_SENDS && |t.said| + 1 < E.U64_LIMIT
    requires |t'.net.a.accepted| <= |t.net.a.accepted| + 1 && t'.net.b.accepted == t.net.b.accepted
    requires |t'.said| == |t.said| + 1
    ensures TalkLimit(t')
  {}

  lemma LimitKept(t: Talk, t': Talk)
    requires TalkLimit(t) && t'.said == t.said
    requires t'.net.a.accepted == t.net.a.accepted && t'.net.b.accepted == t.net.b.accepted
    ensures TalkLimit(t')
  {}

  lemma LastSealTooHigh(c: E.Crypto, t: Talk, t': Talk, k: nat)
    requires SpeakerInv(c, t) && SpeakerInv(c, t') && HearerInv(t') && Refused(t, k)
    requires t'.said == t.said + [[]] && t'.seals == t.seals + [|t.said|]
    requires t'.net.b.consumed == t'.net.a.accepted
    ensures t'.rejected > 0
  {
    if |t.seals| >= |t.said| {
      SealsTight(t.seals, |t.said|, k);
    }
    assert t'.seals[|t.seals|] > |t.seals|;
  }

  lemma SomethingWaits(c: E.Crypto, t: Talk, t': Talk)
    requires HearerInv(t) && SpeakerInv(c, t)
    requires t'.net.b.consumed == t.net.b.consumed && !t'.net.b.conn.closed
    requires |Delivered(t'.net.b)| == |t.net.a.accepted| + 1
    ensures RecvCode(t'.net.b.conn).Got?
  {}
}
