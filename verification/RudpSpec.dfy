/**
 One RUDP connection as a value, and what each operation of connection.c and
 dispatcher.c does to it. The class in RudpConnection.dfy is the imperative form;
 its methods are proved equal to these functions.
 */
module RudpSpec {
  import opened Types

  const SEND_WINDOW: nat := 128
  const REORDER_WINDOW: nat := 128
  const RETRANSMISSION_CAP: nat := 10

  /** An unacknowledged packet kept by the sender (rudp_pending_pkt). */
  datatype Pending = Pending(sn: u32, timestamp: int, pack: Packet, retransmits: nat)

  datatype Conn = Conn(
    sUid: u32, cUid: u32,
    fhost: seq<Pending>,        // sent and not yet acknowledged
    reorderBuf: seq<Packet>,    // early frames, sorted by seq
    net: seq<Packet>,           // frames parked by the handler
    reordered: seq<Packet>,     // in order, waiting for rudp_conn_recv
    currentSeq: u32,
    lastRecvedSeq: u32,         // U32_MAX: nothing delivered yet
    lastAckSentSeq: u32,
    packetsSinceAck: u32,
    lastAckTimestamp: int,
    ackThreshold: u32,
    ackTimeoutMs: int,
    avgRttMs: int,
    closed: bool)

  datatype SendResult = Accepted | NotConnected | WouldBlock

  function NewConn(self: u32, other: u32, now: int): Conn {
    Conn(self, other, [], [], [], [], 0, U32_MAX, U32_MAX, 0, now, 2, 2000, 250, false)
  }

  // ---------------------------------------------------------------- sending

  function SendCode(c: Conn): SendResult {
    if c.closed then NotConnected
    else if |c.fhost| >= SEND_WINDOW then WouldBlock
    else Accepted
  }

  /** The copy of `pkt` that goes on the wire and into the pending list. */
  function Stamped(c: Conn, pkt: Packet): Packet { pkt.(sn := c.currentSeq) }

  function AfterSend(c: Conn, pkt: Packet, now: int): Conn {
    if SendCode(c) != Accepted then c
    else c.(fhost := c.fhost + [Pending(c.currentSeq, now, Stamped(c, pkt), 0)],
            currentSeq := Succ32(c.currentSeq))
  }

  function SendFrames(c: Conn, pkt: Packet): seq<Packet> {
    if SendCode(c) == Accepted then [Stamped(c, pkt)] else []
  }

  // ------------------------------------------------------------- reordering

  function Expected(last: u32): u32 { if last == U32_MAX then 0 else last + 1 }

  predicate InWindow(expected: u32, s: u32) {
    0 <= SignedDiff(s, expected) <= REORDER_WINDOW
  }

  /** The first position whose entry is not below `s`. */
  function Slot(buf: seq<Packet>, s: u32): (i: nat)
    ensures i <= |buf|
    ensures forall j | 0 <= j < i :: buf[j].sn < s
    ensures i < |buf| ==> buf[i].sn >= s
  {
    if buf == [] || buf[0].sn >= s then 0 else 1 + Slot(buf[1..], s)
  }

  predicate Occupied(buf: seq<Packet>, s: u32) {
    Slot(buf, s) < |buf| && buf[Slot(buf, s)].sn == s
  }

  /** A popped frame is kept exactly when it is in the window and not a duplicate. */
  predicate Keeps(buf: seq<Packet>, expected: u32, p: Packet) {
    InWindow(expected, p.sn) && !Occupied(buf, p.sn)
  }

  function Absorb(buf: seq<Packet>, expected: u32, p: Packet): seq<Packet> {
    if Keeps(buf, expected, p)
    then buf[..Slot(buf, p.sn)] + [p] + buf[Slot(buf, p.sn)..]
    else buf
  }

  function AbsorbAll(buf: seq<Packet>, expected: u32, net: seq<Packet>): seq<Packet>
    decreases |net|
  {
    if net == [] then buf else AbsorbAll(Absorb(buf, expected, net[0]), expected, net[1..])
  }

  /** The popped frames that are freed instead of kept. */
  function Discards(buf: seq<Packet>, expected: u32, net: seq<Packet>): multiset<Packet>
    decreases |net|
  {
    if net == [] then multiset{}
    else (if Keeps(buf, expected, net[0]) then multiset{} else multiset{net[0]})
         + Discards(Absorb(buf, expected, net[0]), expected, net[1..])
  }

  /** How many packets the delivery loop takes off the front of the buffer. */
  function RunLength(buf: seq<Packet>, last: u32): (n: nat)
    ensures n <= |buf|
  {
    if buf != [] && buf[0].sn == Expected(last) then 1 + RunLength(buf[1..], buf[0].sn) else 0
  }

  function LastAfter(buf: seq<Packet>, last: u32, n: nat): u32
    requires n <= |buf|
  {
    if n == 0 then last else buf[n - 1].sn
  }

  function Reordered(c: Conn): Conn {
    var buf := AbsorbAll(c.reorderBuf, Expected(c.lastRecvedSeq), c.net);
    var n := RunLength(buf, c.lastRecvedSeq);
    c.(net := [], reorderBuf := buf[n..], reordered := c.reordered + buf[..n],
       lastRecvedSeq := LastAfter(buf, c.lastRecvedSeq, n))
  }

  // ------------------------------------------------- the handler on a DATA frame

  function NextThreshold(avgRtt: int, threshold: u32, count: u32): (t: u32)
    ensures 2 <= t <= 16
  {
    var t: int := if avgRtt < 30 then (if threshold < 16 then threshold + 2 else 16)
                  else if avgRtt > 100 then (if threshold > 2 then threshold - 1 else 2)
                  else threshold;
    var t := if count == 0 && t > 4 then 4 else t;
    if t < 2 then 2 else if t > 16 then 16 else t
  }

  function Parked(c: Conn, pkt: Packet): Conn { c.(net := c.net + [pkt]) }

  /** The connection once the frame is parked, reordered if due, and counted. */
  function Taken(c: Conn, pkt: Packet): Conn {
    var c1 := if pkt.sn != Expected(c.lastRecvedSeq) then Parked(c, pkt) else Reordered(Parked(c, pkt));
    c1.(packetsSinceAck := Succ32(c.packetsSinceAck))
  }

  /** `c` is the connection on arrival, `c1` the one after the frame was taken. */
  predicate ShouldAck(c: Conn, c1: Conn, pkt: Packet, now: int) {
    || pkt.sn != Expected(c.lastRecvedSeq)
    || c1.packetsSinceAck >= c1.ackThreshold
    || now - c1.lastAckTimestamp >= c1.avgRttMs / 2
    || now - c1.lastAckTimestamp >= c1.ackTimeoutMs
    || c1.lastAckSentSeq == U32_MAX
  }

  predicate Acks(c: Conn, pkt: Packet, now: int) {
    ShouldAck(c, Taken(c, pkt), pkt, now) && Taken(c, pkt).lastRecvedSeq != U32_MAX
  }

  function RackFrame(c: Conn): Packet {
    Packet(c.lastRecvedSeq, 0, c.sUid, c.cUid, PACK_RACK, [])
  }

  function FinFrame(c: Conn): Packet { Packet(c.currentSeq, 0, c.sUid, c.cUid, PACK_FIN, []) }

  function AfterData(c: Conn, pkt: Packet, now: int): Conn {
    var c1 := Taken(c, pkt);
    if !Acks(c, pkt, now) then c1
    else c1.(lastAckSentSeq := c1.lastRecvedSeq, packetsSinceAck := 0, lastAckTimestamp := now,
             ackThreshold := NextThreshold(c1.avgRttMs, c1.ackThreshold, c1.packetsSinceAck))
  }

  function DataFrames(c: Conn, pkt: Packet, now: int): seq<Packet> {
    if Acks(c, pkt, now) then [RackFrame(Taken(c, pkt))] else []
  }

  // ------------------------------------------------- the handler on a RACK frame

  /** Overwrites entry `i` with the last entry and drops the last entry. */
  function SwapRemove(s: seq<Pending>, i: nat): (r: seq<Pending>)
    requires i < |s|
    ensures |r| == |s| - 1
  {
    s[i := s[|s| - 1]][..|s| - 1]
  }

  function Sweep(s: seq<Pending>, i: nat, ack: u32): seq<Pending>
    requires i <= |s|
    decreases |s| - i
  {
    if i == |s| then s
    else if s[i].sn <= ack then Sweep(SwapRemove(s, i), i, ack)
    else Sweep(s, i + 1, ack)
  }

  /** The round-trip sample the sweep ends with; -1 stands for no sample. */
  function SweepSample(s: seq<Pending>, i: nat, ack: u32, now: int, sample: int): int
    requires i <= |s|
    decreases |s| - i
  {
    if i == |s| then sample
    else if s[i].sn <= ack then
      SweepSample(SwapRemove(s, i), i, ack, now,
                  if s[i].sn == ack && s[i].retransmits == 0 then now - s[i].timestamp else sample)
    else SweepSample(s, i + 1, ack, now, sample)
  }

  function NextRtt(avg: int, sample: int): int {
    if 0 < sample < 10000 then
      var s := if sample < 20 then 20 else sample;
      if s > avg * 3 && avg > 50 then (avg * 7 + s) / 8 else (avg * 3 + s) / 4
    else avg
  }

  function AfterRack(c: Conn, ack: u32, now: int): Conn {
    c.(fhost := Sweep(c.fhost, 0, ack),
       avgRttMs := NextRtt(c.avgRttMs, SweepSample(c.fhost, 0, ack, now, -1)))
  }

  // ---------------------------------------------------------------- timeouts

  /** `avg_rtt_ms * (1.5 + retransmit_count)` truncated to an integer. */
  function Backoff(avg: int, retransmits: nat): int { avg * (3 + 2 * retransmits) / 2 }

  predicate Due(p: Pending, avg: int, now: int) {
    now - p.timestamp >= Backoff(avg, p.retransmits)
  }

  predicate Capped(p: Pending) { p.retransmits >= RETRANSMISSION_CAP }

  function Retried(p: Pending, avg: int, now: int): Pending {
    if Due(p, avg, now) then p.(timestamp := now, retransmits := p.retransmits + 1) else p
  }

  /** The first pending packet that has used up its retransmissions, or |s|. */
  function FirstCapped(s: seq<Pending>): (i: nat)
    ensures i <= |s|
    ensures forall j | 0 <= j < i :: !Capped(s[j])
    ensures i < |s| ==> Capped(s[i])
  {
    if s == [] || Capped(s[0]) then 0 else 1 + FirstCapped(s[1..])
  }

  function RetryAll(s: seq<Pending>, avg: int, now: int): (r: seq<Pending>)
    ensures |r| == |s|
  {
    if s == [] then [] else [Retried(s[0], avg, now)] + RetryAll(s[1..], avg, now)
  }

  function DuePacks(s: seq<Pending>, avg: int, now: int): seq<Packet> {
    if s == [] then []
    else (if Due(s[0], avg, now) then [s[0].pack] else []) + DuePacks(s[1..], avg, now)
  }

  /** The pending list once its first `k` entries have been looked at. */
  function RetriedUpTo(s: seq<Pending>, k: nat, avg: int, now: int): (r: seq<Pending>)
    requires k <= |s|
    ensures |r| == |s| && r[k..] == s[k..]
  {
    RetryAll(s[..k], avg, now) + s[k..]
  }

  lemma {:induction false} RetryAllAt(s: seq<Pending>, avg: int, now: int, j: nat)
    requires j < |s|
    ensures RetryAll(s, avg, now)[j] == Retried(s[j], avg, now)
  {
    if j > 0 {
      RetryAllAt(s[1..], avg, now, j - 1);
    }
  }

  /** Everything before the first capped packet is retried; that packet closes the connection. */
  function AfterTimeouts(c: Conn, now: int): Conn {
    var k := FirstCapped(c.fhost);
    var s := RetriedUpTo(c.fhost, k, c.avgRttMs, now);
    if k == |c.fhost| then c.(fhost := s)
    else c.(fhost := SwapRemove(s, k), closed := true)
  }

  function TimeoutFrames(c: Conn, now: int): seq<Packet> {
    DuePacks(c.fhost[..FirstCapped(c.fhost)], c.avgRttMs, now)
  }

  // ---------------------------------------------------------------- receiving

  datatype RecvOutcome = Got(pkt: Packet) | QueueEmpty | Closed

  /** What rudp_conn_recv returns: the packet, the queue's error or ENOTCONN. */
  function RecvCode(c: Conn): RecvOutcome {
    if c.closed then Closed else if c.reordered == [] then QueueEmpty else Got(c.reordered[0])
  }

  function AfterRecv(c: Conn): Conn {
    if !RecvCode(c).Got? then c else c.(reordered := c.reordered[1..])
  }
}
