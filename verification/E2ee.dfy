/** The end-to-end encrypted session: roles, session keys and the two nonce counters. */
module E2ee {
  import opened Types

  type Bytes = seq<byte>

  const U64_LIMIT: int := 0x1_0000_0000_0000_0000
  type u64 = x: int | 0 <= x < 0x1_0000_0000_0000_0000

  const OVERHEAD: nat := 16
  const BIGGEST: nat := 1395   // UDP_MTU - header - OVERHEAD

  datatype Keys = Keys(rx: Bytes, tx: Bytes)

  /** The library the program calls: an AEAD, a key exchange, a signature and the uid of a key. */
  datatype Crypto = Crypto(
    enc: (Bytes, Bytes, Bytes) -> Bytes,               // key, nonce, plaintext
    dec: (Bytes, Bytes, Bytes) -> Option<Bytes>,       // key, nonce, ciphertext
    kxPub: Bytes -> Bytes,
    kxServer: (Bytes, Bytes) -> Option<Keys>,          // own secret, other public key
    kxClient: (Bytes, Bytes) -> Option<Keys>,
    sigPub: Bytes -> Bytes,
    sign: (Bytes, Bytes) -> Bytes,                     // secret, message
    verify: (Bytes, Bytes, Bytes) -> bool,             // message, signature, public key
    uidOf: Bytes -> u32)

  /** Section 2.8 of RFC 8439: decryption undoes encryption, at a cost of 16 bytes. */
  ghost predicate AeadWorks(c: Crypto) {
    forall k, n, m :: c.dec(k, n, c.enc(k, n, m)) == Some(m) && |c.enc(k, n, m)| == |m| + OVERHEAD
  }

  /** The exchange gives server and client crossed keys, and one key per direction. */
  ghost predicate KxWorks(c: Crypto) {
    forall s, t ::
      var ks, kt := c.kxServer(s, c.kxPub(t)), c.kxClient(t, c.kxPub(s));
      ks.Some? && kt.Some? && ks.value.rx == kt.value.tx && ks.value.tx == kt.value.rx
      && ks.value.rx != ks.value.tx
  }

  ghost predicate SigWorks(c: Crypto) {
    forall s, m :: c.verify(m, c.sign(s, m), c.sigPub(s))
  }

  /** A ciphertext opens only under the nonce it was made with. */
  ghost predicate NonceBinds(c: Crypto) {
    forall k, n: Bytes, n': Bytes, m :: |n| == |n'| == 12 && n != n' ==> c.dec(k, n', c.enc(k, n, m)).None?
  }

  // ------------------------------------------------------------------- nonces

  function LittleEndian(x: nat, n: nat): (b: Bytes)
    ensures |b| == n
  {
    if n == 0 then [] else [x % 256] + LittleEndian(x / 256, n - 1)
  }

  /** Twelve bytes: four zero bytes and the counter. */
  function Nonce(counter: u64): Bytes { [0, 0, 0, 0] + LittleEndian(counter, 8) }

  function Limit(n: nat): nat { if n == 0 then 1 else 256 * Limit(n - 1) }

  lemma {:induction false} LittleEndianInjective(x: nat, y: nat, n: nat)
    requires x < Limit(n) && y < Limit(n) && LittleEndian(x, n) == LittleEndian(y, n)
    ensures x == y
  {
    if n > 0 {
      var a, b := LittleEndian(x, n), LittleEndian(y, n);
      assert a[0] == b[0] && a[1..] == LittleEndian(x / 256, n - 1) && b[1..] == LittleEndian(y / 256, n - 1);
      LittleEndianInjective(x / 256, y / 256, n - 1);
    }
  }

  function FromLittle(b: Bytes): nat { if b == [] then 0 else b[0] + 256 * FromLittle(b[1..]) }

  lemma {:induction false} LittleEndianBack(x: nat, n: nat)
    requires x < Limit(n)
    ensures FromLittle(LittleEndian(x, n)) == x
  {
    if n > 0 {
      LittleEndianBack(x / 256, n - 1);
      assert LittleEndian(x, n)[1..] == LittleEndian(x / 256, n - 1);
    }
  }

  /** The counter can be read back from the nonce, behind four zero bytes. */
  lemma NonceBack(x: u64)
    ensures Nonce(x)[..4] == [0, 0, 0, 0] && |Nonce(x)| == 12 && FromLittle(Nonce(x)[4..]) == x
  {
    LimitOf8();
    LittleEndianBack(x, 8);
    assert Nonce(x)[4..] == LittleEndian(x, 8);
  }

  lemma LimitOf8()
    ensures Limit(8) == U64_LIMIT && Limit(4) == U32_LIMIT
  {
    assert Limit(8) == 256 * Limit(7) && Limit(7) == 256 * Limit(6) && Limit(6) == 256 * Limit(5);
    assert Limit(5) == 256 * Limit(4) && Limit(4) == 0x1_0000_0000;
  }

  /** The signature covers the random number and the public half: no two of them are signed as the same bytes. */
  lemma SignedInjective(n: u32, pub: Bytes, n': u32, pub': Bytes)
    requires Signed(n, pub) == Signed(n', pub')
    ensures n == n' && pub == pub'
  {
    LimitOf8();
    assert Signed(n, pub)[..4] == LittleEndian(n, 4) && Signed(n, pub)[4..] == pub;
    assert Signed(n', pub')[..4] == LittleEndian(n', 4) && Signed(n', pub')[4..] == pub';
    LittleEndianInjective(n, n', 4);
  }

  /** Different counters give different nonces. */
  lemma NonceInjective(x: u64, y: u64)
    requires Nonce(x) == Nonce(y)
    ensures x == y
  {
    assert Nonce(x)[4..] == LittleEndian(x, 8) && Nonce(y)[4..] == LittleEndian(y, 8);
    LimitOf8();
    LittleEndianInjective(x, y, 8);
  }

  // ------------------------------------------------------------------ sessions

  datatype HsState = NotHandshaked | HandshakeSent | HandshakeEnded

  datatype Session = Session(
    sigSecret: Bytes, otherPub: Bytes, kpSecret: Bytes,
    skeys: Keys, hstate: HsState, asServer: bool, txNonce: u64, rxNonce: u64)

  datatype Handshake = Handshake(nonce: u32, pub: Bytes, signature: Bytes)

  function Signed(nonce: u32, pub: Bytes): Bytes { LittleEndian(nonce, 4) + pub }

  function NewSession(c: Crypto, sigSecret: Bytes, otherPub: Bytes, kpSecret: Bytes): Session {
    Session(sigSecret, otherPub, kpSecret, Keys([], []), NotHandshaked,
            c.uidOf(c.sigPub(sigSecret)) < c.uidOf(otherPub), 0, 0)
  }

  function Hello(c: Crypto, s: Session, nonce: u32): Handshake {
    var pub := c.kxPub(s.kpSecret);
    Handshake(nonce, pub, c.sign(s.sigSecret, Signed(nonce, pub)))
  }

  function AfterInit(s: Session): Session { s.(hstate := HandshakeSent) }

  function Derived(c: Crypto, s: Session, pub: Bytes): Option<Keys> {
    if s.asServer then c.kxServer(s.kpSecret, pub) else c.kxClient(s.kpSecret, pub)
  }

  predicate RespOk(c: Crypto, s: Session, hs: Handshake) {
    c.verify(Signed(hs.nonce, hs.pub), hs.signature, s.otherPub) && Derived(c, s, hs.pub).Some?
  }

  function AfterResp(c: Crypto, s: Session, hs: Handshake): Session {
    if RespOk(c, s, hs) then s.(skeys := Derived(c, s, hs.pub).value, hstate := HandshakeEnded) else s
  }

  function Next64(x: u64): u64 { if x + 1 == U64_LIMIT then 0 else x + 1 }

  /** A 64-bit counter that wraps around. */
  lemma CounterWraps(x: u64)
    ensures Next64(x) == (x + 1) % U64_LIMIT
  {}

  /** What goes out carries the given number and the own public half, under the own signature. */
  lemma HelloCarries(c: Crypto, s: Session, nonce: u32)
    ensures var h := Hello(c, s, nonce);
            && h.nonce == nonce && h.pub == c.kxPub(s.kpSecret)
            && (SigWorks(c) ==> c.verify(LittleEndian(nonce, 4) + h.pub, h.signature, c.sigPub(s.sigSecret)))
  {
    var pub := c.kxPub(s.kpSecret);
    assert SigWorks(c) ==> c.verify(Signed(nonce, pub), c.sign(s.sigSecret, Signed(nonce, pub)), c.sigPub(s.sigSecret));
  }

  function Sealed(c: Crypto, s: Session, data: Bytes): Option<Bytes> {
    if s.hstate != HandshakeEnded || |data| > BIGGEST then None
    else Some(c.enc(s.skeys.tx, Nonce(s.txNonce), data))
  }

  function AfterEncrypt(c: Crypto, s: Session, data: Bytes): Session {
    if Sealed(c, s, data).None? then s else s.(txNonce := Next64(s.txNonce))
  }

  function Opened(c: Crypto, s: Session, data: Bytes): Option<Bytes> {
    if s.hstate != HandshakeEnded || |data| < OVERHEAD then None
    else c.dec(s.skeys.rx, Nonce(s.rxNonce), data)
  }

  function AfterDecrypt(c: Crypto, s: Session, data: Bytes): Session {
    if Opened(c, s, data).None? then s else s.(rxNonce := Next64(s.rxNonce))
  }

  /** e2ee_connection and its methods. */
  class Connection {
    const crypto: Crypto
    const sigSecret: Bytes
    const otherPub: Bytes
    const kpSecret: Bytes
    const asServer: bool
    var skeys: Keys
    var hstate: HsState
    var txNonce: u64
    var rxNonce: u64

    ghost function State(): Session
      reads this
    {
      Session(sigSecret, otherPub, kpSecret, skeys, hstate, asServer, txNonce, rxNonce)
    }

    constructor (crypto: Crypto, sigSecret: Bytes, otherPub: Bytes, kpSecret: Bytes)
      ensures State() == NewSession(crypto, sigSecret, otherPub, kpSecret) && this.crypto == crypto
    {
      this.crypto, this.sigSecret, this.otherPub, this.kpSecret := crypto, sigSecret, otherPub, kpSecret;
      hstate := NotHandshaked;
      asServer := crypto.uidOf(crypto.sigPub(sigSecret)) < crypto.uidOf(otherPub);
      skeys := Keys([], []);
      txNonce, rxNonce := 0, 0;
    }

    method HandshakeInit(random: u32) returns (hs: Handshake)
      modifies `hstate
      ensures hs == Hello(crypto, old(State()), random)
      ensures State() == AfterInit(old(State()))
    {
      var pub := crypto.kxPub(kpSecret);
      var payload := LittleEndian(random, 4) + pub;
      hs := Handshake(random, pub, crypto.sign(sigSecret, payload));
      hstate := HandshakeSent;
    }

    method HandshakeResp(hs: Handshake) returns (ok: bool)
      modifies `skeys, `hstate
      ensures ok <==> RespOk(crypto, old(State()), hs)
      ensures ok ==> crypto.verify(LittleEndian(hs.nonce, 4) + hs.pub, hs.signature, otherPub)
      ensures !ok ==> State() == old(State())
      ensures State() == AfterResp(crypto, old(State()), hs)
    {
      var payload := LittleEndian(hs.nonce, 4) + hs.pub;
      if !crypto.verify(payload, hs.signature, otherPub) {
        return false;
      }
      var keys: Option<Keys>;
      if asServer {
        keys := crypto.kxServer(kpSecret, hs.pub);
      } else {
        keys := crypto.kxClient(kpSecret, hs.pub);
      }
      if keys.None? {
        return false;
      }
      skeys := keys.value;
      hstate := HandshakeEnded;
      return true;
    }

    method Encrypt(data: Bytes) returns (out: Option<Bytes>)
      modifies `txNonce
      ensures out == Sealed(crypto, old(State()), data)
      ensures State() == AfterEncrypt(crypto, old(State()), data)
    {
      if hstate != HandshakeEnded {
        return None;
      }
      if |data| > BIGGEST {
        return None;
      }
      var nonce := [0, 0, 0, 0] + LittleEndian(txNonce, 8);
      out := Some(crypto.enc(skeys.tx, nonce, data));
      txNonce := Next64(txNonce);
    }

    method Decrypt(data: Bytes) returns (out: Option<Bytes>)
      modifies `rxNonce
      ensures out == Opened(crypto, old(State()), data)
      ensures State() == AfterDecrypt(crypto, old(State()), data)
    {
      if hstate != HandshakeEnded {
        return None;
      }
      if |data| < OVERHEAD {
        return None;
      }
      var nonce := [0, 0, 0, 0] + LittleEndian(rxNonce, 8);
      out := crypto.dec(skeys.rx, nonce, data);
      if out.Some? {
        rxNonce := Next64(rxNonce);
      }
    }
  }

  // --------------------------------------------------------------- the theorems

  /** Ready to talk: crossed keys, one per direction, equal counters. */
  ghost predicate Paired(a: Session, b: Session) {
    && a.hstate == HandshakeEnded && b.hstate == HandshakeEnded
    && a.skeys.tx == b.skeys.rx && a.skeys.rx == b.skeys.tx && a.skeys.tx != b.skeys.tx
    && a.txNonce == b.rxNonce && a.rxNonce == b.txNonce
  }

  // Handshakes as they may go: each end sends any number of them, and answers, in any order and as
  // often as it likes, whatever arrives: its peer's, broken ones, or anybody else's. The one thing
  // that does not arrive is a forgery, somebody's half under a signature that verifies as the peer's.

  /** The signature under the peer's long-term key is right. */
  predicate Verifies(c: Crypto, me: Session, hs: Handshake) {
    c.verify(LittleEndian(hs.nonce, 4) + hs.pub, hs.signature, me.otherPub)
  }

  predicate Unforged(c: Crypto, me: Session, peer: Session, hs: Handshake) {
    Verifies(c, me, hs) ==> hs.pub == c.kxPub(peer.kpSecret)
  }

  datatype Exchange = Exchange(a: Session, b: Session, fromA: set<Handshake>, fromB: set<Handshake>)

  datatype HsMove = Offer(atA: bool, nonce: u32) | Answer(atA: bool, hs: Handshake)

  function Begin(c: Crypto, sa: Bytes, sb: Bytes, ka: Bytes, kb: Bytes): Exchange {
    Exchange(NewSession(c, sa, c.sigPub(sb), ka), NewSession(c, sb, c.sigPub(sa), kb), {}, {})
  }

  predicate CanMove(c: Crypto, x: Exchange, m: HsMove) {
    m.Answer? ==> if m.atA then Unforged(c, x.a, x.b, m.hs) else Unforged(c, x.b, x.a, m.hs)
  }

  function Moved(c: Crypto, x: Exchange, m: HsMove): Exchange {
    match m
    case Offer(true, nonce) => x.(a := AfterInit(x.a), fromA := x.fromA + {Hello(c, x.a, nonce)})
    case Offer(false, nonce) => x.(b := AfterInit(x.b), fromB := x.fromB + {Hello(c, x.b, nonce)})
    case Answer(true, hs) => x.(a := AfterResp(c, x.a, hs))
    case Answer(false, hs) => x.(b := AfterResp(c, x.b, hs))
  }

  function After(c: Crypto, x: Exchange, moves: seq<HsMove>): Exchange
    decreases |moves|
  {
    if moves == [] then x else Moved(c, After(c, x, moves[..|moves| - 1]), moves[|moves| - 1])
  }

  predicate Feasible(c: Crypto, x: Exchange, moves: seq<HsMove>)
    decreases |moves|
  {
    moves == [] ||
    (var front := moves[..|moves| - 1];
     Feasible(c, x, front) && CanMove(c, After(c, x, front), moves[|moves| - 1]))
  }

  /** Is the last thing that end did, apart from answers to what does not verify, an answer? */
  predicate AnsweredLast(c: Crypto, x: Exchange, moves: seq<HsMove>, atA: bool)
    decreases |moves|
  {
    moves != [] &&
    var front, m := moves[..|moves| - 1], moves[|moves| - 1];
    var me := if atA then After(c, x, front).a else After(c, x, front).b;
    if m.atA != atA || (m.Answer? && !Verifies(c, me, m.hs)) then AnsweredLast(c, x, front, atA) else m.Answer?
  }

  /** Only a handshake that verifies and yields keys, those of the own role, changes a session. */
  lemma OnlyVerifiedChanges(c: Crypto, s: Session, hs: Handshake)
    ensures var keys := if s.asServer then c.kxServer(s.kpSecret, hs.pub) else c.kxClient(s.kpSecret, hs.pub);
            AfterResp(c, s, hs) ==
              if Verifies(c, s, hs) && keys.Some? then s.(skeys := keys.value, hstate := HandshakeEnded) else s
  {}

  /** A session that never took any half but `peer`'s. */
  ghost predicate EndInv(c: Crypto, fresh0: Session, s: Session, peer: Session, heard: set<Handshake>, answered: bool) {
    && s == fresh0.(skeys := s.skeys, hstate := s.hstate)
    && (s.hstate == HandshakeEnded <==> answered)
    && (answered ==> Derived(c, fresh0, c.kxPub(peer.kpSecret)) == Some(s.skeys))
    && forall hs | hs in heard :: hs == Hello(c, peer, hs.nonce)
  }

  lemma {:induction false} ExchangeInv(c: Crypto, x: Exchange, moves: seq<HsMove>)
    requires Feasible(c, x, moves) && x.fromA == {} && x.fromB == {}
    requires x.a.hstate == NotHandshaked && x.b.hstate == NotHandshaked
    requires KxWorks(c) && x.a.asServer != x.b.asServer
    ensures var y := After(c, x, moves);
            && EndInv(c, x.a, y.a, x.b, y.fromB, AnsweredLast(c, x, moves, true))
            && EndInv(c, x.b, y.b, x.a, y.fromA, AnsweredLast(c, x, moves, false))
    decreases |moves|
  {
    hide KxWorks;
    KeysCross(c, x.a, x.b);
    if moves != [] {
      ExchangeInv(c, x, moves[..|moves| - 1]);
    }
  }

  /** Opposite roles derive crossed keys from each other's public halves. */
  lemma KeysCross(c: Crypto, a: Session, b: Session)
    requires KxWorks(c) && a.asServer != b.asServer
    ensures var ka, kb := Derived(c, a, c.kxPub(b.kpSecret)), Derived(c, b, c.kxPub(a.kpSecret));
            && ka.Some? && kb.Some? && ka.value.tx == kb.value.rx && ka.value.rx == kb.value.tx
            && ka.value.tx != kb.value.tx
  {
    if a.asServer {
      KeysCrossFromServer(c, a.kpSecret, b.kpSecret);
    } else {
      KeysCrossFromServer(c, b.kpSecret, a.kpSecret);
    }
  }

  lemma KeysCrossFromServer(c: Crypto, s: Bytes, t: Bytes)
    requires KxWorks(c)
    ensures var ks, kt := c.kxServer(s, c.kxPub(t)), c.kxClient(t, c.kxPub(s));
            && ks.Some? && kt.Some? && ks.value.rx == kt.value.tx && ks.value.tx == kt.value.rx
            && ks.value.rx != ks.value.tx
  {
    var ks, kt := c.kxServer(s, c.kxPub(t)), c.kxClient(t, c.kxPub(s));
    assert ks.Some? && kt.Some?;
  }

  /** Distinct uids give opposite roles, the server's to the smaller one. */
  lemma RolesDiffer(c: Crypto, sa: Bytes, sb: Bytes, ka: Bytes, kb: Bytes)
    requires c.uidOf(c.sigPub(sa)) != c.uidOf(c.sigPub(sb))
    ensures var x := Begin(c, sa, sb, ka, kb);
            && x.a.asServer != x.b.asServer
            && (x.a.asServer <==> c.uidOf(c.sigPub(sa)) < c.uidOf(c.sigPub(sb)))
  {}

  /**
   With distinct uids, after any exchange of handshakes the two ends hold crossed keys and equal
   counters exactly when at each end the last step was an answer to a verified handshake: whoever
   offers after having answered takes its own session out of the ended state, and what does not
   verify under the peer's key has no effect at all.
   */
  lemma PairedExactly(c: Crypto, sa: Bytes, sb: Bytes, ka: Bytes, kb: Bytes, moves: seq<HsMove>)
    requires KxWorks(c) && c.uidOf(c.sigPub(sa)) != c.uidOf(c.sigPub(sb))
    requires Feasible(c, Begin(c, sa, sb, ka, kb), moves)
    ensures var x := Begin(c, sa, sb, ka, kb);
            var y := After(c, x, moves);
            && (Paired(y.a, y.b) <==> AnsweredLast(c, x, moves, true) && AnsweredLast(c, x, moves, false))
            && y.a.txNonce == y.a.rxNonce == y.b.txNonce == y.b.rxNonce == 0
  {
    hide KxWorks;
    var x := Begin(c, sa, sb, ka, kb);
    RolesDiffer(c, sa, sb, ka, kb);
    ExchangeInv(c, x, moves);
    KeysCross(c, x.a, x.b);
  }

  /** An end accepts everything its peer has sent, at any moment of the exchange. */
  lemma GenuineIsAccepted(
      c: Crypto, sa: Bytes, sb: Bytes, ka: Bytes, kb: Bytes, moves: seq<HsMove>, hs: Handshake)
    requires KxWorks(c) && SigWorks(c) && c.uidOf(c.sigPub(sa)) != c.uidOf(c.sigPub(sb))
    requires Feasible(c, Begin(c, sa, sb, ka, kb), moves)
    ensures var y := After(c, Begin(c, sa, sb, ka, kb), moves);
            && (hs in y.fromB ==> Verifies(c, y.a, hs) && RespOk(c, y.a, hs) && Unforged(c, y.a, y.b, hs))
            && (hs in y.fromA ==> Verifies(c, y.b, hs) && RespOk(c, y.b, hs) && Unforged(c, y.b, y.a, hs))
  {
    hide KxWorks;
    var x := Begin(c, sa, sb, ka, kb);
    var ha, hb := Hello(c, x.a, hs.nonce), Hello(c, x.b, hs.nonce);
    RolesDiffer(c, sa, sb, ka, kb);
    ExchangeInv(c, x, moves);
    KeysCross(c, x.a, x.b);
    assert c.verify(Signed(hs.nonce, ha.pub), c.sign(sa, Signed(hs.nonce, ha.pub)), c.sigPub(sa));
    assert c.verify(Signed(hs.nonce, hb.pub), c.sign(sb, Signed(hs.nonce, hb.pub)), c.sigPub(sb));
  }

  /** Once both have offered, whatever happened before, an answer at each end pairs them. */
  lemma AnswersPair(
      c: Crypto, sa: Bytes, sb: Bytes, ka: Bytes, kb: Bytes, moves: seq<HsMove>, ha: Handshake, hb: Handshake)
    requires KxWorks(c) && SigWorks(c) && c.uidOf(c.sigPub(sa)) != c.uidOf(c.sigPub(sb))
    requires Feasible(c, Begin(c, sa, sb, ka, kb), moves)
    requires ha in After(c, Begin(c, sa, sb, ka, kb), moves).fromA
    requires hb in After(c, Begin(c, sa, sb, ka, kb), moves).fromB
    ensures var x := Begin(c, sa, sb, ka, kb);
            var all := moves + [Answer(true, hb)] + [Answer(false, ha)];
            Feasible(c, x, all) && Paired(After(c, x, all).a, After(c, x, all).b)
  {
    hide KxWorks, SigWorks, RespOk, Paired, Unforged, Verifies;
    var x := Begin(c, sa, sb, ka, kb);
    var most := moves + [Answer(true, hb)];
    var all := most + [Answer(false, ha)];
    assert most[..|moves|] == moves && all[..|most|] == most;
    GenuineIsAccepted(c, sa, sb, ka, kb, moves, hb);
    assert Feasible(c, x, most) && AnsweredLast(c, x, most, true);
    GenuineIsAccepted(c, sa, sb, ka, kb, most, ha);
    assert Feasible(c, x, all) && AnsweredLast(c, x, all, true) && AnsweredLast(c, x, all, false);
    PairedExactly(c, sa, sb, ka, kb, all);
  }

  /** Everything sent in one direction, as ciphertexts under consecutive counters. */
  function SealAll(c: Crypto, key: Bytes, n: u64, msgs: seq<Bytes>): (r: seq<Bytes>)
    ensures |r| == |msgs|
    decreases |msgs|
  {
    if msgs == [] then [] else [c.enc(key, Nonce(n), msgs[0])] + SealAll(c, key, Next64(n), msgs[1..])
  }

  /** What a session returns for a list of inputs, rejected ones left out. */
  function OpenAll(c: Crypto, s: Session, inputs: seq<Bytes>): seq<Bytes>
    decreases |inputs|
  {
    if inputs == [] then []
    else
      var rest := OpenAll(c, AfterDecrypt(c, s, inputs[0]), inputs[1..]);
      if Opened(c, s, inputs[0]).Some? then [Opened(c, s, inputs[0]).value] + rest else rest
  }

  /** `inputs` is the ciphertext stream, cut off anywhere, with rejected inputs mixed in. */
  ghost predicate Mixed(c: Crypto, s: Session, inputs: seq<Bytes>, stream: seq<Bytes>)
    decreases |inputs|
  {
    inputs == [] ||
    (stream != [] && inputs[0] == stream[0] && Mixed(c, AfterDecrypt(c, s, inputs[0]), inputs[1..], stream[1..])) ||
    (Opened(c, s, inputs[0]).None? && Mixed(c, s, inputs[1..], stream))
  }

  /** Rejected inputs never desynchronise the counters: what comes out is a prefix of what went in. */
  lemma {:induction false} StreamSurvivesJunk(c: Crypto, s: Session, msgs: seq<Bytes>, inputs: seq<Bytes>)
    requires AeadWorks(c) && s.hstate == HandshakeEnded
    requires Mixed(c, s, inputs, SealAll(c, s.skeys.rx, s.rxNonce, msgs))
    ensures OpenAll(c, s, inputs) <= msgs
    decreases |inputs|
  {
    if inputs != [] {
      var stream := SealAll(c, s.skeys.rx, s.rxNonce, msgs);
      if stream != [] && inputs[0] == stream[0] && Mixed(c, AfterDecrypt(c, s, inputs[0]), inputs[1..], stream[1..]) {
        assert stream[0] == c.enc(s.skeys.rx, Nonce(s.rxNonce), msgs[0]);
        assert Opened(c, s, inputs[0]) == Some(msgs[0]);
        StreamSurvivesJunk(c, AfterDecrypt(c, s, inputs[0]), msgs[1..], inputs[1..]);
        assert msgs == [msgs[0]] + msgs[1..];
      } else {
        StreamSurvivesJunk(c, s, msgs, inputs[1..]);
      }
    }
  }

  lemma OtherNonceRejected(c: Crypto, s: Session, n: u64, msg: Bytes)
    requires NonceBinds(c) && n != s.rxNonce
    ensures Opened(c, s, c.enc(s.skeys.rx, Nonce(n), msg)).None?
  {
    if Nonce(n) == Nonce(s.rxNonce) {
      NonceInjective(n, s.rxNonce);
    }
    assert |Nonce(n)| == |Nonce(s.rxNonce)| == 12;
    assert c.dec(s.skeys.rx, Nonce(s.rxNonce), c.enc(s.skeys.rx, Nonce(n), msg)).None?;
  }

  /** A ciphertext that is made but never sent stops the stream for good. */
  lemma {:induction false} LostCiphertextStalls(c: Crypto, s: Session, n: u64, msgs: seq<Bytes>)
    requires NonceBinds(c) && s.hstate == HandshakeEnded && s.rxNonce < n && n + |msgs| <= U64_LIMIT - 1
    ensures OpenAll(c, s, SealAll(c, s.skeys.rx, n, msgs)) == []
    decreases |msgs|
  {
    hide Nonce, NonceBinds, Opened;
    if msgs != [] {
      var stream := SealAll(c, s.skeys.rx, n, msgs);
      OtherNonceRejected(c, s, n, msgs[0]);
      LostCiphertextStalls(c, s, n + 1, msgs[1..]);
      assert stream[1..] == SealAll(c, s.skeys.rx, n + 1, msgs[1..]);
    }
  }

  // ------------------------------------------------ a library meeting every assumption

  const NO_TAG: Bytes := [0, 0, 0, 0, 0, 0, 0, 0, 0, 0, 0, 0, 0, 0, 0, 0]

  /** Sixteen bytes that tell nonces of twelve bytes apart. */
  function Tag(n: Bytes): (r: Bytes)
    ensures |r| == 16
  {
    if |n| == 12 then n + [0, 0, 0, 0] else NO_TAG
  }

  function ToyDec(n: Bytes, x: Bytes): Option<Bytes> {
    if |x| >= 16 && x[|x| - 16..] == Tag(n) then Some(x[..|x| - 16]) else None
  }

  /** It appends the nonce to a text and the text to the signer's key; the empty key has a uid of its own. */
  function Toy(): Crypto {
    Crypto((k: Bytes, n: Bytes, m: Bytes) => m + Tag(n), (k: Bytes, n: Bytes, x: Bytes) => ToyDec(n, x),
           (s: Bytes) => s, (s: Bytes, p: Bytes) => Some(Keys([0], [1])), (s: Bytes, p: Bytes) => Some(Keys([1], [0])),
           (s: Bytes) => s, (s: Bytes, m: Bytes) => s + m, (m: Bytes, g: Bytes, p: Bytes) => g == p + m,
           (p: Bytes) => if p == [] then 0 else 1)
  }

  lemma ToyOpens(n: Bytes, m: Bytes)
    ensures ToyDec(n, m + Tag(n)) == Some(m)
  {
    hide Tag;
    var x := m + Tag(n);
    assert x[|x| - 16..] == Tag(n) && x[..|x| - 16] == m;
  }

  lemma ToyBinds(n: Bytes, n': Bytes, m: Bytes)
    requires |n| == |n'| == 12 && n != n'
    ensures ToyDec(n', m + Tag(n)).None?
  {
    var x := m + Tag(n);
    assert x[|x| - 16..] == Tag(n);
    assert Tag(n)[..12] == n && Tag(n')[..12] == n';
  }

  /** The assumptions on the library do not contradict each other, nor that two keys have distinct uids. */
  lemma AssumptionsConsistent()
    ensures exists c: Crypto, sa: Bytes, sb: Bytes ::
              && AeadWorks(c) && NonceBinds(c) && KxWorks(c) && SigWorks(c)
              && c.uidOf(c.sigPub(sa)) != c.uidOf(c.sigPub(sb))
  {
    hide ToyDec, Tag;
    var c, none, some: Bytes := Toy(), [], [0];
    forall k: Bytes, n: Bytes, m: Bytes
      ensures c.dec(k, n, c.enc(k, n, m)) == Some(m) && |c.enc(k, n, m)| == |m| + OVERHEAD
    {
      ToyOpens(n, m);
    }
    forall k: Bytes, n: Bytes, n': Bytes, m: Bytes | |n| == |n'| == 12 && n != n'
      ensures c.dec(k, n', c.enc(k, n, m)).None?
    {
      ToyBinds(n, n', m);
    }
    assert c.uidOf(c.sigPub(none)) != c.uidOf(c.sigPub(some));
  }
}
