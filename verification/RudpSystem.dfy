/**
 Two endpoints of one connection and the network between them. The network is the set
 of all frames ever sent: any of them may be handled any number of times, in any order,
 or never, so it loses, duplicates and reorders at will.
 */
module RudpSystem {
  import opened Types
  import opened RudpSpec

  /** A connection with the history that the theorems speak about. */
  datatype Endpoint = Endpoint(
    conn: Conn,
    accepted: seq<Packet>,      // what rudp_conn_send accepted, as stamped
    consumed: seq<Packet>,      // what rudp_conn_recv returned
    acked: nat,                 // 1 + the highest acknowledgement handled, 0 if none
    firstStamps: seq<int>,      // the first timestamp of each accepted packet
    timeoutClock: int)          // the clock of the last timeout sweep

  /** Everything this endpoint ever pushed to its delivery queue. */
  function Delivered(e: Endpoint): seq<Packet> { e.consumed + e.conn.reordered }

  datatype Event =
    | Send(pkt: Packet, now: int)
    | Recv
    | Timeouts(now: int)
    | Arrive(frame: Packet, now: int)

  function NewEndpoint(self: u32, other: u32, now: int): Endpoint {
    Endpoint(NewConn(self, other, now), [], [], 0, [], now)
  }

  /** The dispatcher finds the connection by the sender's uid; the application sends DATA packets. */
  predicate Enabled(me: Endpoint, peer: u32, net: set<Packet>, ev: Event) {
    match ev
    case Send(pkt, _) => pkt.ptype == PACK_DATA && pkt.hFrom == me.conn.sUid
    case Recv => true
    case Timeouts(_) => true
    case Arrive(f, _) => f in net && f.hFrom == peer && (f.ptype == PACK_DATA || f.ptype == PACK_RACK)
  }

  function Max(a: nat, b: nat): nat { if a < b then b else a }

  function Act(me: Endpoint, ev: Event): Endpoint {
    match ev
    case Send(pkt, now) =>
      me.(conn := AfterSend(me.conn, pkt, now),
          accepted := me.accepted + SendFrames(me.conn, pkt),
          firstStamps := me.firstStamps + if SendCode(me.conn) == Accepted then [now] else [])
    case Recv =>
      me.(conn := AfterRecv(me.conn),
          consumed := me.consumed + if RecvCode(me.conn).Got? then [RecvCode(me.conn).pkt] else [])
    case Timeouts(now) => me.(conn := AfterTimeouts(me.conn, now), timeoutClock := now)
    case Arrive(f, now) =>
      if f.ptype == PACK_DATA then me.(conn := AfterData(me.conn, f, now))
      else me.(conn := AfterRack(me.conn, f.sn, now), acked := Max(me.acked, f.sn + 1))
  }

  function Emits(me: Endpoint, ev: Event): seq<Packet> {
    match ev
    case Send(pkt, _) => SendFrames(me.conn, pkt)
    case Recv => []
    case Timeouts(now) => TimeoutFrames(me.conn, now)
    case Arrive(f, now) => if f.ptype == PACK_DATA then DataFrames(me.conn, f, now) else []
  }

  datatype Sys = Sys(a: Endpoint, b: Endpoint, net: set<Packet>)

  function Swap(s: Sys): Sys { Sys(s.b, s.a, s.net) }

  function Elems(s: seq<Packet>): set<Packet> { set p | p in s }

  ghost predicate Init(s: Sys) {
    exists ua: u32, ub: u32, ta: int, tb: int ::
      ua != ub && s == Sys(NewEndpoint(ua, ub, ta), NewEndpoint(ub, ua, tb), {})
  }

  predicate CanStepA(s: Sys, ev: Event) { Enabled(s.a, s.b.conn.sUid, s.net, ev) }

  function StepA(s: Sys, ev: Event): Sys {
    Sys(Act(s.a, ev), s.b, s.net + Elems(Emits(s.a, ev)))
  }

  predicate CanStep(s: Sys, atA: bool, ev: Event) {
    if atA then CanStepA(s, ev) else CanStepA(Swap(s), ev)
  }

  function Step(s: Sys, atA: bool, ev: Event): Sys {
    if atA then StepA(s, ev) else Swap(StepA(Swap(s), ev))
  }

  ghost predicate Next(s: Sys, s': Sys) {
    exists atA: bool, ev: Event :: CanStep(s, atA, ev) && s' == Step(s, atA, ev)
  }

  /** A finite run: any interleaving of the two endpoints' steps. */
  ghost predicate Run(tr: seq<Sys>) {
    |tr| > 0 && Init(tr[0]) && forall i | 0 <= i < |tr| - 1 :: Next(tr[i], tr[i + 1])
  }

  function Last(tr: seq<Sys>): Sys
    requires |tr| > 0
  {
    tr[|tr| - 1]
  }
}
