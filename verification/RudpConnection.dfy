/** rudp_connection and the handler that mutates it, step by step as connection.c and dispatcher.c do. */
module RudpConnection {
  import opened Types
  import opened RudpSpec

  class Connection {
    const sUid: u32
    const cUid: u32
    var fhost: seq<Pending>
    var reorderBuf: seq<Packet>
    var net: seq<Packet>
    var reordered: seq<Packet>
    var currentSeq: u32
    var lastRecvedSeq: u32
    var lastAckSentSeq: u32
    var packetsSinceAck: u32
    var lastAckTimestamp: int
    var ackThreshold: u32
    var ackTimeoutMs: int
    var avgRttMs: int
    var closed: bool
    /** Everything handed to pvd_sender_send so far. */
    var sent: seq<Packet>
    /** Every received packet passed to free() so far. */
    ghost var freed: multiset<Packet>

    ghost function State(): Conn
      reads this
    {
      Conn(sUid, cUid, fhost, reorderBuf, net, reordered, currentSeq, lastRecvedSeq, lastAckSentSeq,
           packetsSinceAck, lastAckTimestamp, ackThreshold, ackTimeoutMs, avgRttMs, closed)
    }

    constructor (self: u32, other: u32, now: int)
      ensures State() == NewConn(self, other, now)
      ensures sent == [] && freed == multiset{}
    {
      sUid, cUid := self, other;
      fhost, reorderBuf, net, reordered := [], [], [], [];
      lastRecvedSeq, lastAckSentSeq := U32_MAX, U32_MAX;
      ackThreshold, ackTimeoutMs, avgRttMs := 2, 2000, 250;
      packetsSinceAck, lastAckTimestamp := 0, now;
      currentSeq, closed := 0, false;
      sent, freed := [], multiset{};
    }

    method Send(pkt: Packet, now: int) returns (r: SendResult)
      modifies `fhost, `currentSeq, `sent
      ensures r == SendCode(old(State()))
      ensures State() == AfterSend(old(State()), pkt, now)
      ensures sent == old(sent) + SendFrames(old(State()), pkt)
    {
      if closed {
        return NotConnected;
      }
      if |fhost| >= SEND_WINDOW {
        return WouldBlock;
      }
      var copy := pkt.(sn := currentSeq);
      var pending := Pending(currentSeq, now, copy, 0);
      sent := sent + [copy];
      fhost := fhost + [pending];
      currentSeq := Succ32(currentSeq);
      return Accepted;
    }

    method Recv() returns (r: RecvOutcome)
      modifies `reordered
      ensures r == RecvCode(old(State()))
      ensures State() == AfterRecv(old(State()))
    {
      if closed {
        return Closed;
      }
      if |reordered| == 0 {
        return QueueEmpty;
      }
      r := Got(reordered[0]);
      reordered := reordered[1..];
    }

    method Reordering()
      modifies `net, `reorderBuf, `reordered, `lastRecvedSeq, `freed
      ensures State() == Reordered(old(State()))
      ensures freed == old(freed) + Discards(old(reorderBuf), Expected(old(lastRecvedSeq)), old(net))
    {
      DrainNet();
      DeliverRun();
    }

    /** The first loop: pop every parked frame and insert it, drop it or free it. */
    method DrainNet()
      modifies `net, `reorderBuf, `freed
      ensures net == []
      ensures reorderBuf == AbsorbAll(old(reorderBuf), Expected(lastRecvedSeq), old(net))
      ensures freed == old(freed) + Discards(old(reorderBuf), Expected(lastRecvedSeq), old(net))
    {
      while |net| > 0
        invariant AbsorbAll(reorderBuf, Expected(lastRecvedSeq), net)
               == AbsorbAll(old(reorderBuf), Expected(lastRecvedSeq), old(net))
        invariant freed + Discards(reorderBuf, Expected(lastRecvedSeq), net)
               == old(freed) + Discards(old(reorderBuf), Expected(lastRecvedSeq), old(net))
        decreases |net|
      {
        var pkt := net[0];
        net := net[1..];
        TakeParked(pkt);
      }
    }

    /** One popped frame: inserted at its place, or freed when stale, too far ahead or a duplicate. */
    method TakeParked(pkt: Packet)
      modifies `reorderBuf, `freed
      ensures reorderBuf == Absorb(old(reorderBuf), Expected(lastRecvedSeq), pkt)
      ensures freed == old(freed) +
        (if Keeps(old(reorderBuf), Expected(lastRecvedSeq), pkt) then multiset{} else multiset{pkt})
    {
      var expected := if lastRecvedSeq == U32_MAX then 0 else lastRecvedSeq + 1;
      var diff := SignedDiff(pkt.sn, expected);
      if diff < 0 || diff > REORDER_WINDOW {
        freed := freed + multiset{pkt};
        return;
      }
      var pos, duplicate := FindSlot(pkt.sn);
      if !duplicate {
        reorderBuf := reorderBuf[..pos] + [pkt] + reorderBuf[pos..];
      } else {
        freed := freed + multiset{pkt};
      }
    }

    /** The insertion scan: stops at the first entry that is equal or larger. */
    method FindSlot(s: u32) returns (pos: nat, duplicate: bool)
      ensures pos == Slot(reorderBuf, s)
      ensures duplicate <==> Occupied(reorderBuf, s)
    {
      pos, duplicate := 0, false;
      while pos < |reorderBuf|
        invariant pos <= |reorderBuf| && !duplicate
        invariant forall j | 0 <= j < pos :: reorderBuf[j].sn < s
      {
        if reorderBuf[pos].sn == s {
          duplicate := true;
          break;
        }
        if reorderBuf[pos].sn > s {
          break;
        }
        pos := pos + 1;
      }
      SlotUnique(reorderBuf, s, pos);
    }

    /** The second loop: move the gap-free front of the buffer to the delivery queue. */
    method DeliverRun()
      modifies `reorderBuf, `reordered, `lastRecvedSeq
      ensures var n := RunLength(old(reorderBuf), old(lastRecvedSeq));
              && reorderBuf == old(reorderBuf)[n..]
              && reordered == old(reordered) + old(reorderBuf)[..n]
              && lastRecvedSeq == LastAfter(old(reorderBuf), old(lastRecvedSeq), n)
    {
      ghost var buf, last := reorderBuf, lastRecvedSeq;
      ghost var k: nat := 0;
      while |reorderBuf| > 0
        invariant k <= |buf| && reorderBuf == buf[k..]
        invariant reordered == old(reordered) + buf[..k]
        invariant lastRecvedSeq == LastAfter(buf, last, k)
        invariant k + RunLength(buf[k..], lastRecvedSeq) == RunLength(buf, last)
        decreases |reorderBuf|
      {
        var p := reorderBuf[0];
        var nextNeeded := if lastRecvedSeq == U32_MAX then 0 else lastRecvedSeq + 1;
        if p.sn == nextNeeded {
          lastRecvedSeq := p.sn;
          reorderBuf := reorderBuf[1..];
          reordered := reordered + [p];
          assert buf[k..][1..] == buf[k + 1..];
          assert buf[..k] + [buf[k]] == buf[..k + 1];
          k := k + 1;
        } else {
          break;
        }
      }
    }

    method HandleData(pkt: Packet, now: int)
      modifies this
      ensures State() == AfterData(old(State()), pkt, now)
      ensures sent == old(sent) + DataFrames(old(State()), pkt, now)
      ensures freed == old(freed) +
        (if pkt.sn == Expected(old(lastRecvedSeq))
         then Discards(old(reorderBuf), Expected(old(lastRecvedSeq)), old(net) + [pkt]) else multiset{})
    {
      var shouldSendAck := TakeFrame(pkt);
      if packetsSinceAck >= ackThreshold || now - lastAckTimestamp >= avgRttMs / 2 {
        shouldSendAck := true;
      }
      if now - lastAckTimestamp >= ackTimeoutMs {
        shouldSendAck := true;
      }
      if lastAckSentSeq == U32_MAX {
        shouldSendAck := true;
      }
      assert shouldSendAck <==> ShouldAck(old(State()), State(), pkt, now);
      if shouldSendAck && lastRecvedSeq != U32_MAX {
        SendAck(now);
      }
    }

    /** Parks the frame, reorders if it is the expected one, and counts it. */
    method TakeFrame(pkt: Packet) returns (outOfOrder: bool)
      modifies `net, `reorderBuf, `reordered, `lastRecvedSeq, `freed, `packetsSinceAck
      ensures outOfOrder <==> pkt.sn != Expected(old(lastRecvedSeq))
      ensures State() == Taken(old(State()), pkt)
      ensures freed == old(freed) +
        (if outOfOrder then multiset{}
         else Discards(old(reorderBuf), Expected(old(lastRecvedSeq)), old(net) + [pkt]))
    {
      var expected := if lastRecvedSeq == U32_MAX then 0 else lastRecvedSeq + 1;
      net := net + [pkt];
      if pkt.sn != expected {
        outOfOrder := true;
      } else {
        outOfOrder := false;
        Reordering();
      }
      packetsSinceAck := Succ32(packetsSinceAck);
    }

    method SendAck(now: int)
      modifies `sent, `lastAckSentSeq, `packetsSinceAck, `lastAckTimestamp, `ackThreshold
      ensures sent == old(sent) + [RackFrame(old(State()))]
      ensures lastAckSentSeq == lastRecvedSeq && packetsSinceAck == 0 && lastAckTimestamp == now
      ensures ackThreshold == NextThreshold(avgRttMs, old(ackThreshold), old(packetsSinceAck))
    {
      sent := sent + [Packet(lastRecvedSeq, 0, sUid, cUid, PACK_RACK, [])];
      var count := packetsSinceAck;
      lastAckSentSeq := lastRecvedSeq;
      packetsSinceAck := 0;
      lastAckTimestamp := now;
      AdjustThreshold(count);
    }

    method AdjustThreshold(count: u32)
      modifies `ackThreshold
      ensures ackThreshold == NextThreshold(avgRttMs, old(ackThreshold), count)
    {
      if avgRttMs < 30 {
        ackThreshold := if ackThreshold < 16 then ackThreshold + 2 else 16;
      } else if avgRttMs > 100 {
        ackThreshold := if ackThreshold > 2 then ackThreshold - 1 else 2;
      }
      if count == 0 && ackThreshold > 4 {
        ackThreshold := 4;
      }
      ackThreshold := if ackThreshold < 2 then 2 else if ackThreshold > 16 then 16 else ackThreshold;
    }

    method HandleRack(pkt: Packet, now: int)
      modifies `fhost, `avgRttMs, `freed
      ensures State() == AfterRack(old(State()), pkt.sn, now)
      ensures freed == old(freed) + multiset{pkt}
    {
      var rttSample := -1;
      var i := 0;
      while i < |fhost|
        modifies `fhost
        invariant i <= |fhost|
        invariant Sweep(fhost, i, pkt.sn) == Sweep(old(fhost), 0, pkt.sn)
        invariant SweepSample(fhost, i, pkt.sn, now, rttSample)
               == SweepSample(old(fhost), 0, pkt.sn, now, -1)
        decreases |fhost| - i
      {
        var p := fhost[i];
        if p.sn <= pkt.sn {
          if p.sn == pkt.sn && p.retransmits == 0 {
            rttSample := now - p.timestamp;
          }
          var lastIdx := |fhost| - 1;
          fhost := fhost[i := fhost[lastIdx]];
          fhost := fhost[..lastIdx];
        } else {
          i := i + 1;
        }
      }
      if rttSample > 0 && rttSample < 10000 {
        if rttSample < 20 {
          rttSample := 20;
        }
        if rttSample > avgRttMs * 3 && avgRttMs > 50 {
          avgRttMs := (avgRttMs * 7 + rttSample) / 8;
        } else {
          avgRttMs := (avgRttMs * 3 + rttSample) / 4;
        }
      }
      freed := freed + multiset{pkt};
    }

    method Timeouts(now: int) returns (ok: bool)
      modifies `fhost, `sent, `closed
      ensures State() == AfterTimeouts(old(State()), now)
      ensures sent == old(sent) + TimeoutFrames(old(State()), now)
      ensures ok <==> FirstCapped(old(fhost)) == |old(fhost)|
    {
      hide RetriedUpTo, DuePacks, FirstCapped;
      var i := RetryUntilCapped(now);
      if i == |fhost| {
        return true;
      }
      var last := |fhost| - 1;
      fhost := fhost[i := fhost[last]];
      fhost := fhost[..last];
      closed := true;
      return false;
    }

    /** Looks at the pending packets in order and stops at one that may not be sent again. */
    method RetryUntilCapped(now: int) returns (i: nat)
      modifies `fhost, `sent
      ensures i == FirstCapped(old(fhost))
      ensures fhost == RetriedUpTo(old(fhost), i, avgRttMs, now)
      ensures sent == old(sent) + DuePacks(old(fhost)[..i], avgRttMs, now)
    {
      ghost var s0 := fhost;
      i := 0;
      assert RetriedUpTo(s0, 0, avgRttMs, now) == s0 && DuePacks(s0[..0], avgRttMs, now) == [];
      hide RetriedUpTo, DuePacks, FirstCapped, Retried, Due;
      while i < |fhost|
        invariant 0 <= i <= FirstCapped(s0) <= |fhost| == |s0|
        invariant fhost == RetriedUpTo(s0, i, avgRttMs, now)
        invariant sent == old(sent) + DuePacks(s0[..i], avgRttMs, now)
      {
        RestUntouched(s0, i, avgRttMs, now);
        if fhost[i].retransmits >= RETRANSMISSION_CAP {
          break;
        }
        RetryExtend(s0, i, avgRttMs, now);
        ghost var before := sent;
        RetryAt(i, now);
        Concat(old(sent), DuePacks(s0[..i], avgRttMs, now), sent[|before|..]);
        i := i + 1;
      }
    }

    /** Sends the pending packet again if its back-off has passed. */
    method RetryAt(i: nat, now: int)
      requires i < |fhost|
      modifies `fhost, `sent
      ensures fhost == old(fhost)[i := Retried(old(fhost)[i], avgRttMs, now)]
      ensures sent == old(sent) + if Due(old(fhost)[i], avgRttMs, now) then [old(fhost)[i].pack] else []
    {
      var p := fhost[i];
      var backoffMs := Backoff(avgRttMs, p.retransmits);
      var dtMs := now - p.timestamp;
      if dtMs >= backoffMs {
        sent := sent + [p.pack];
        fhost := fhost[i := p.(timestamp := now, retransmits := p.retransmits + 1)];
      }
    }

    /** rudp_conn_close: every received packet still held is freed, and two FIN frames go out. */
    method Close()
      modifies this
      ensures closed && fhost == [] && net == [] && reordered == [] && reorderBuf == []
      ensures freed == old(freed) + multiset(old(net)) + multiset(old(reordered)) + multiset(old(reorderBuf))
      ensures sent == old(sent) + [FinFrame(old(State())), FinFrame(old(State()))]
    {
      while |net| > 0
        invariant reordered == old(reordered) && reorderBuf == old(reorderBuf) && sent == old(sent)
        invariant currentSeq == old(currentSeq)
        invariant freed + multiset(net) == old(freed) + multiset(old(net))
      {
        assert net == [net[0]] + net[1..];
        freed := freed + multiset{net[0]};
        net := net[1..];
      }
      while |reordered| > 0
        invariant net == [] && reorderBuf == old(reorderBuf) && sent == old(sent)
        invariant currentSeq == old(currentSeq)
        invariant freed + multiset(reordered) == old(freed) + multiset(old(net)) + multiset(old(reordered))
      {
        assert reordered == [reordered[0]] + reordered[1..];
        freed := freed + multiset{reordered[0]};
        reordered := reordered[1..];
      }
      freed := freed + multiset(reorderBuf);
      fhost, reorderBuf := [], [];
      var fin := Packet(currentSeq, 0, sUid, cUid, PACK_FIN, []);
      sent := sent + [fin, fin];
      closed := true;
    }

    /** The dispatcher's handler; `removed` says that the dispatcher dropped the connection. */
    method NetHandler(pkt: Packet, now: int) returns (removed: bool)
      modifies this
      ensures removed <==> pkt.ptype == PACK_FIN
      ensures pkt.ptype == PACK_DATA ==>
        State() == AfterData(old(State()), pkt, now) && sent == old(sent) + DataFrames(old(State()), pkt, now)
      ensures pkt.ptype == PACK_RACK ==>
        State() == AfterRack(old(State()), pkt.sn, now) && sent == old(sent)
      ensures pkt.ptype == PACK_FIN ==>
        && closed && fhost == [] && net == [] && reordered == [] && reorderBuf == []
        && freed == old(freed) + multiset(old(net)) + multiset(old(reordered)) + multiset(old(reorderBuf))
                    + multiset{pkt}
        && sent == old(sent) + [FinFrame(old(State())), FinFrame(old(State()))]
      ensures pkt.ptype !in {PACK_DATA, PACK_RACK, PACK_FIN} ==>
        State() == old(State()) && sent == old(sent) && freed == old(freed) + multiset{pkt}
    {
      removed := false;
      if pkt.ptype == PACK_DATA {
        HandleData(pkt, now);
      } else if pkt.ptype == PACK_RACK {
        HandleRack(pkt, now);
      } else if pkt.ptype == PACK_FIN {
        Close();
        freed := freed + multiset{pkt};
        removed := true;
      } else {
        freed := freed + multiset{pkt};
      }
    }
  }

  lemma {:induction false} SlotUnique(buf: seq<Packet>, s: u32, i: nat)
    requires i <= |buf|
    requires forall j | 0 <= j < i :: buf[j].sn < s
    requires i < |buf| ==> buf[i].sn >= s
    ensures i == Slot(buf, s)
  {
    if i > 0 {
      assert buf[0].sn < s;
      SlotUnique(buf[1..], s, i - 1);
    }
  }

  lemma {:induction false} RetryAllAppend(a: seq<Pending>, p: Pending, avg: int, now: int)
    ensures RetryAll(a + [p], avg, now) == RetryAll(a, avg, now) + [Retried(p, avg, now)]
    ensures DuePacks(a + [p], avg, now) == DuePacks(a, avg, now) + (if Due(p, avg, now) then [p.pack] else [])
  {
    if a == [] {
      assert a + [p] == [p];
    } else {
      assert (a + [p])[1..] == a[1..] + [p];
      RetryAllAppend(a[1..], p, avg, now);
    }
  }

  lemma RestUntouched(s: seq<Pending>, i: nat, avg: int, now: int)
    requires i < |s|
    ensures RetriedUpTo(s, i, avg, now)[i] == s[i]
  {
    var r := RetriedUpTo(s, i, avg, now);
    assert r[i] == r[i..][0] && s[i] == s[i..][0];
  }

  lemma Concat(a: seq<Packet>, b: seq<Packet>, c: seq<Packet>)
    ensures a + b + c == a + (b + c)
  {}

  /** One more retried entry moves from the untouched rest to the retried front. */
  lemma RetryExtend(s: seq<Pending>, i: nat, avg: int, now: int)
    requires i < |s|
    ensures RetriedUpTo(s, i + 1, avg, now) == RetriedUpTo(s, i, avg, now)[i := Retried(s[i], avg, now)]
    ensures DuePacks(s[..i + 1], avg, now)
         == DuePacks(s[..i], avg, now) + (if Due(s[i], avg, now) then [s[i].pack] else [])
  {
    assert s[..i + 1] == s[..i] + [s[i]];
    RetryAllAppend(s[..i], s[i], avg, now);
  }
}
