/** The peer table of one node and the two handlers of the NAT-punch handshake. */
module Peers {
  import opened Types

  datatype PeerState = INITED | NATPUNCHING | ACTIVE | HELLO_SENT | CRYPTO_HANDSHAKING | PROTECTED

  /** A socket address; the model never looks inside it. */
  type Addr = int

  datatype LightInfo = LightInfo(uid: u32, server: Addr, addr: Addr, pubkey: seq<byte>)

  datatype PeerInfo = PeerInfo(uid: u32, server: Addr, state: PeerState, lastSeen: int, pubkey: seq<byte>, nfd: Addr)

  type Table = map<u32, PeerInfo>

  /** Handshake messages. A PUNCH whose payload has the wrong size carries no info. */
  datatype Msg =
    | Punch(from: u32, to: u32, info: Option<LightInfo>)
    | AckMsg(from: u32, to: u32)

  function Reconstruct(l: LightInfo, now: int): PeerInfo {
    PeerInfo(l.uid, l.server, INITED, now, l.pubkey, l.addr)
  }

  function SetState(t: Table, uid: u32, st: PeerState): Table {
    if uid in t then t[uid := t[uid].(state := st)] else t
  }

  function SetNfd(t: Table, uid: u32, nfd: Addr): Table {
    if uid in t then t[uid := t[uid].(nfd := nfd)] else t
  }

  // --------------------------------------------------------- soter2_hnd_ACK

  function AckTable(t: Table, from: u32): Table {
    if from in t then SetState(t, t[from].uid, ACTIVE) else t
  }

  function AckReplies(t: Table, self: u32, from: u32): seq<Msg> {
    if from in t && t[from].state == INITED then [AckMsg(self, t[from].uid)] else []
  }

  /** The address that answer goes to. */
  function AckRoutes(t: Table, from: u32): seq<Addr> {
    if from in t && t[from].state == INITED then [t[from].nfd] else []
  }

  // ------------------------------------------------------- soter2_hnd_PUNCH

  /** The record the handler works on: the stored one, or one rebuilt from the payload. */
  function Known(t: Table, self: u32, m: Msg, now: int): Option<PeerInfo>
    requires m.Punch?
  {
    if m.from == self then None
    else if m.from in t then Some(t[m.from])
    else if m.info.None? then None
    else Some(Reconstruct(m.info.value, now))
  }

  predicate Replies(st: PeerState) { st == INITED || st == NATPUNCHING }

  function PunchTable(t: Table, self: u32, m: Msg, nfd: Addr, now: int): Table
    requires m.Punch?
  {
    match Known(t, self, m, now)
    case None => t
    case Some(info) =>
      var t1 := SetNfd(if m.from in t then t else t[info.uid := info], info.uid, nfd);
      if info.state == INITED then SetState(t1, info.uid, NATPUNCHING) else t1
  }

  function PunchReplies(t: Table, self: u32, m: Msg, now: int): seq<Msg>
    requires m.Punch?
  {
    match Known(t, self, m, now)
    case None => []
    case Some(info) => if Replies(info.state) then [AckMsg(self, info.uid)] else []
  }

  /** The answer goes back to where the PUNCH came from. */
  function PunchRoutes(t: Table, self: u32, m: Msg, nfd: Addr, now: int): seq<Addr>
    requires m.Punch?
  {
    if PunchReplies(t, self, m, now) == [] then [] else [nfd]
  }

  // ------------------------------------------- s2_sys_new_peer, s2_sys_nat_punch

  function NewPeer(t: Table, uid: u32, addr: Addr, server: Addr, pubkey: seq<byte>, now: int): Table {
    t[uid := PeerInfo(uid, server, INITED, now, pubkey, addr)]
  }

  function PunchSent(t: Table, self: u32, uid: u32, addr: Addr, pubkey: seq<byte>): seq<Msg> {
    if uid in t then [Punch(self, uid, Some(LightInfo(self, t[uid].server, addr, pubkey)))] else []
  }

  function PunchSentTo(t: Table, uid: u32): seq<Addr> { if uid in t then [t[uid].nfd] else [] }

  // ------------------------------------------------- what the table learns

  /**
   The point of the step: the peer is stored with the address the PUNCH came from, where the
   answer goes too. What else is known of it stays, or comes from the payload; no other peer changes.
   */
  lemma PunchTeachesAddress(t: Table, self: u32, m: Msg, nfd: Addr, now: int)
    requires m.Punch? && Known(t, self, m, now).Some?
    requires m.from in t ==> t[m.from].uid == m.from
    ensures var info, r := Known(t, self, m, now).value, PunchTable(t, self, m, nfd, now);
            && info.uid in r && r[info.uid].nfd == nfd
            && r[info.uid].(state := info.state, nfd := info.nfd) == info
            && r.Keys == t.Keys + {info.uid} && (forall u | u in t && u != info.uid :: r[u] == t[u])
            && (forall a | a in PunchRoutes(t, self, m, nfd, now) :: a == r[info.uid].nfd)
            && |PunchRoutes(t, self, m, nfd, now)| == |PunchReplies(t, self, m, now)|
  {}

  /** A node ignores its own PUNCH, and one from an unknown peer that describes nobody. */
  lemma UselessPunchIgnored(t: Table, self: u32, m: Msg, nfd: Addr, now: int)
    requires m.Punch? && (m.from == self || (m.from !in t && m.info.None?))
    ensures PunchTable(t, self, m, nfd, now) == t && PunchReplies(t, self, m, now) == []
  {}

  /** An ACK makes its sender ACTIVE and changes nothing else, the address least of all. */
  lemma AckTeachesNothing(t: Table, self: u32, from: u32)
    requires from in t ==> t[from].uid == from
    ensures var r := AckTable(t, from);
            && r.Keys == t.Keys && (forall u | u in t && u != from :: r[u] == t[u])
            && (from in t ==> r[from] == t[from].(state := ACTIVE))
            && (forall a | a in AckRoutes(t, from) :: from in t && a == r[from].nfd)
            && |AckRoutes(t, from)| == |AckReplies(t, self, from)|
  {}

  /** A PUNCH describes its sender: who rebuilds a peer from it gets the sender's uid, key and address. */
  lemma PunchDescribesSender(t: Table, self: u32, uid: u32, addr: Addr, pubkey: seq<byte>, now: int)
    requires uid in t
    ensures var sent := PunchSent(t, self, uid, addr, pubkey);
            && |sent| == 1 && sent[0].Punch? && sent[0].from == self && sent[0].to == uid && sent[0].info.Some?
            && Reconstruct(sent[0].info.value, now) == PeerInfo(self, t[uid].server, INITED, now, pubkey, addr)
            && PunchSentTo(t, uid) == [t[uid].nfd]
  {}

  /** The first PUNCH to a peer just added goes to the address given, and tells it the server given. */
  lemma AddedThenPunched(t: Table, uid: u32, addr: Addr, server: Addr, key: seq<byte>, now: int, self: u32, own: Addr,
                         ownKey: seq<byte>)
    ensures var r := NewPeer(t, uid, addr, server, key, now);
            && PunchSentTo(r, uid) == [addr]
            && PunchSent(r, self, uid, own, ownKey) == [Punch(self, uid, Some(LightInfo(self, server, own, ownKey)))]
            && r[uid].state == INITED && r[uid].uid == uid && r[uid].pubkey == key && r[uid].lastSeen == now
            && (forall u | u in t && u != uid :: u in r && r[u] == t[u])
  {}

  /** The node as the program keeps it. */
  class Node {
    const self: u32
    const addr: Addr
    const pubkey: seq<byte>
    var peers: Table
    /** Everything handed to the sender, and where each message went. */
    var sent: seq<Msg>
    var sentTo: seq<Addr>

    constructor (self: u32, addr: Addr, pubkey: seq<byte>)
      ensures this.self == self && this.addr == addr && this.pubkey == pubkey
      ensures peers == map[] && sent == [] && sentTo == []
    {
      this.self, this.addr, this.pubkey := self, addr, pubkey;
      peers, sent, sentTo := map[], [], [];
    }

    method DbAdd(info: PeerInfo)
      modifies `peers
      ensures peers == old(peers)[info.uid := info]
    {
      peers := peers[info.uid := info];
    }

    method DbGet(uid: u32) returns (r: Option<PeerInfo>)
      ensures r == if uid in peers then Some(peers[uid]) else None
    {
      if uid in peers {
        return Some(peers[uid]);
      }
      return None;
    }

    method DbSetState(uid: u32, st: PeerState) returns (ok: bool)
      modifies `peers
      ensures peers == SetState(old(peers), uid, st) && (ok <==> uid in peers)
    {
      if uid !in peers {
        return false;
      }
      peers := peers[uid := peers[uid].(state := st)];
      return true;
    }

    method DbSetNfd(uid: u32, nfd: Addr) returns (ok: bool)
      modifies `peers
      ensures peers == SetNfd(old(peers), uid, nfd) && (ok <==> uid in peers)
    {
      if uid !in peers {
        return false;
      }
      peers := peers[uid := peers[uid].(nfd := nfd)];
      return true;
    }

    method AddPeer(addr: Addr, server: Addr, uid: u32, pubkey: seq<byte>, now: int)
      modifies `peers
      ensures peers == NewPeer(old(peers), uid, addr, server, pubkey, now)
    {
      DbAdd(PeerInfo(uid, server, INITED, now, pubkey, addr));
    }

    method NatPunch(uid: u32) returns (ok: bool)
      modifies `sent, `sentTo
      ensures ok <==> uid in peers
      ensures sent == old(sent) + PunchSent(peers, self, uid, addr, pubkey)
      ensures sentTo == old(sentTo) + PunchSentTo(peers, uid)
    {
      var info := DbGet(uid);
      if info.None? {
        return false;
      }
      var linfo := LightInfo(self, info.value.server, addr, pubkey);
      sent := sent + [Punch(self, uid, Some(linfo))];
      sentTo := sentTo + [info.value.nfd];
      return true;
    }

    method HandleAck(m: Msg) returns (ok: bool)
      requires m.AckMsg?
      modifies `peers, `sent, `sentTo
      ensures peers == AckTable(old(peers), m.from)
      ensures sentTo == old(sentTo) + AckRoutes(old(peers), m.from)
      ensures sent == old(sent) + AckReplies(old(peers), self, m.from)
      ensures ok <==> m.from in old(peers)
    {
      var info := DbGet(m.from);
      if info.None? {
        return false;
      }
      if info.value.state == INITED {
        sent := sent + [AckMsg(self, info.value.uid)];
        sentTo := sentTo + [info.value.nfd];
      }
      var changed := DbSetState(info.value.uid, ACTIVE);
      return true;
    }

    method HandlePunch(m: Msg, nfd: Addr, now: int) returns (ok: bool)
      requires m.Punch?
      modifies `peers, `sent, `sentTo
      ensures sentTo == old(sentTo) + PunchRoutes(old(peers), self, m, nfd, now)
      ensures peers == PunchTable(old(peers), self, m, nfd, now)
      ensures sent == old(sent) + PunchReplies(old(peers), self, m, now)
      ensures ok <==> PunchReplies(old(peers), self, m, now) != []
    {
      if m.from == self {
        return false;
      }
      var got := DbGet(m.from);
      var info: PeerInfo;
      if got.None? {
        if m.info.None? {
          return false;
        }
        info := Reconstruct(m.info.value, now);
        DbAdd(info);
      } else {
        info := got.value;
      }
      var moved := DbSetNfd(info.uid, nfd);
      if info.state != INITED && info.state != NATPUNCHING {
        return false;
      }
      sent := sent + [AckMsg(self, info.uid)];
      sentTo := sentTo + [nfd];
      if info.state == NATPUNCHING {
        return true;
      }
      var changed := DbSetState(info.uid, NATPUNCHING);
      return true;
    }
  }
}
