/** The sender's pending list: what acknowledgements remove and what time-outs change. */
module RudpPending {
  import opened Types
  import opened RudpSpec

  ghost predicate Distinct(s: seq<Pending>) {
    forall i, j | 0 <= i < j < |s| :: s[i].sn != s[j].sn
  }

  ghost predicate Pends(s: seq<Pending>, q: int) { exists p | p in s :: p.sn == q }

  lemma SwapRemoveMembers(s: seq<Pending>, i: nat)
    requires i < |s|
    ensures multiset(s) == multiset(SwapRemove(s, i)) + multiset{s[i]}
    ensures Distinct(s) ==> Distinct(SwapRemove(s, i))
  {
    var n := |s| - 1;
    assert s == s[..n] + [s[n]];
    if i < n {
      assert s[..n] == s[..i] + [s[i]] + s[i + 1..n];
      assert SwapRemove(s, i) == s[..i] + [s[n]] + s[i + 1..n];
    } else {
      assert SwapRemove(s, i) == s[..n];
    }
  }

  /** Removing moves no entry but the last. */
  lemma SwapRemoveMovesOne(s: seq<Pending>, i: nat)
    requires i < |s|
    ensures var r := SwapRemove(s, i);
            && (forall j | 0 <= j < |r| && j != i :: r[j] == s[j])
            && (i < |r| ==> r[i] == s[|s| - 1])
  {}

  /** The entries an acknowledgement leaves pending. */
  function Keep(s: seq<Pending>, ack: u32): seq<Pending> {
    if s == [] then []
    else (if s[0].sn > ack then [s[0]] else []) + Keep(s[1..], ack)
  }

  lemma {:induction false} KeepSplit(a: seq<Pending>, b: seq<Pending>, ack: u32)
    ensures Keep(a + b, ack) == Keep(a, ack) + Keep(b, ack)
  {
    if a == [] {
      assert a + b == b;
    } else {
      assert (a + b)[1..] == a[1..] + b;
      KeepSplit(a[1..], b, ack);
    }
  }

  lemma {:induction false} KeepAll(s: seq<Pending>, ack: u32)
    requires forall p | p in s :: p.sn > ack
    ensures Keep(s, ack) == s
  {
    if s != [] {
      KeepAll(s[1..], ack);
    }
  }

  /** Removing an acknowledged entry by swapping leaves the unacknowledged ones, as a multiset. */
  lemma SwapRemoveKeep(s: seq<Pending>, i: nat, ack: u32)
    requires i < |s| && s[i].sn <= ack
    ensures multiset(Keep(SwapRemove(s, i), ack)) == multiset(Keep(s, ack))
  {
    var n := |s| - 1;
    assert s == s[..n] + [s[n]];
    KeepSplit(s[..n], [s[n]], ack);
    if i < n {
      assert s[..n] == s[..i] + ([s[i]] + s[i + 1..n]);
      assert SwapRemove(s, i) == s[..i] + ([s[n]] + s[i + 1..n]);
      KeepSplit(s[..i], [s[i]] + s[i + 1..n], ack);
      KeepSplit([s[i]], s[i + 1..n], ack);
      KeepSplit(s[..i], [s[n]] + s[i + 1..n], ack);
      KeepSplit([s[n]], s[i + 1..n], ack);
    } else {
      assert SwapRemove(s, i) == s[..n];
    }
  }

  /** The in-place sweep keeps exactly the entries above the acknowledgement. */
  lemma {:induction false} SweepKeeps(s: seq<Pending>, i: nat, ack: u32)
    requires i <= |s| && forall j | 0 <= j < i :: s[j].sn > ack
    ensures multiset(Sweep(s, i, ack)) == multiset(Keep(s, ack))
    decreases |s| - i
  {
    if i == |s| {
      KeepAll(s, ack);
    } else if s[i].sn <= ack {
      SwapRemoveKeep(s, i, ack);
      SweepKeeps(SwapRemove(s, i), i, ack);
    } else {
      SweepKeeps(s, i + 1, ack);
    }
  }

  lemma {:induction false} SweepDistinct(s: seq<Pending>, i: nat, ack: u32)
    requires i <= |s| && Distinct(s)
    ensures Distinct(Sweep(s, i, ack))
    decreases |s| - i
  {
    if i < |s| {
      if s[i].sn <= ack {
        SwapRemoveMembers(s, i);
        SweepDistinct(SwapRemove(s, i), i, ack);
      } else {
        SweepDistinct(s, i + 1, ack);
      }
    }
  }

  lemma {:induction false} KeepMembers(s: seq<Pending>, ack: u32)
    ensures forall p :: p in Keep(s, ack) <==> p in s && p.sn > ack
  {
    if s != [] {
      KeepMembers(s[1..], ack);
      assert s == [s[0]] + s[1..];
    }
  }

  lemma SweepMembers(s: seq<Pending>, ack: u32)
    ensures forall p :: p in Sweep(s, 0, ack) <==> p in s && p.sn > ack
  {
    SweepKeeps(s, 0, ack);
    KeepMembers(s, ack);
    assert forall p :: p in Sweep(s, 0, ack) <==> p in multiset(Sweep(s, 0, ack));
    assert forall p :: p in Keep(s, ack) <==> p in multiset(Keep(s, ack));
  }

  /**
   The sample is taken from the packet the acknowledgement names, and only if it was
   sent once.
   */
  lemma {:induction false} SampleIsExact(s: seq<Pending>, i: nat, ack: u32, now: int, sample: int)
    requires i <= |s| && Distinct(s)
    ensures var r := SweepSample(s, i, ack, now, sample);
            if exists j | i <= j < |s| :: s[j].sn == ack && s[j].retransmits == 0
            then exists j | i <= j < |s| :: s[j].sn == ack && s[j].retransmits == 0 && r == now - s[j].timestamp
            else r == sample
    decreases |s| - i
  {
    if i < |s| {
      if s[i].sn <= ack {
        var t := SwapRemove(s, i);
        var hit := s[i].sn == ack && s[i].retransmits == 0;
        SwapRemoveMembers(s, i);
        SampleIsExact(t, i, ack, now, if hit then now - s[i].timestamp else sample);
        assert forall j | i < j < |t| :: t[j] == s[j];
        assert i < |t| ==> t[i] == s[|t|];
      } else {
        SampleIsExact(s, i + 1, ack, now, sample);
      }
    }
  }

  lemma DropOne(s: seq<Pending>, i: nat)
    requires Distinct(s) && i < |s|
    ensures var t := s[..i] + s[i + 1..];
            Distinct(t) && forall x :: x in t <==> x in s && x.sn != s[i].sn
  {
    var t := s[..i] + s[i + 1..];
    assert forall k | 0 <= k < |t| :: t[k] == if k < i then s[k] else s[k + 1];
    forall x | x in s && x.sn != s[i].sn ensures x in t {
      var k :| 0 <= k < |s| && s[k] == x;
      assert x == if k < i then t[k] else t[k - 1];
    }
  }

  /** The pending numbers are exactly [lo, hi) and each pends once: the list has that length. */
  lemma {:induction false} DistinctFits(s: seq<Pending>, lo: int, hi: int)
    requires Distinct(s) && lo <= hi && forall q | lo <= q < hi :: Pends(s, q)
    requires forall p | p in s :: lo <= p.sn < hi
    ensures |s| == hi - lo
    decreases hi - lo
  {
    if s != [] {
      assert s[0] in s;
    }
    if lo < hi {
      assert Pends(s, lo);
      var p :| p in s && p.sn == lo;
      var i :| 0 <= i < |s| && s[i] == p;
      var t := s[..i] + s[i + 1..];
      DropOne(s, i);
      assert forall q | lo + 1 <= q < hi :: Pends(s, q) ==> Pends(t, q);
      DistinctFits(t, lo + 1, hi);
    }
  }

  // ------------------------------------------------------------------ timeouts

  /** A time-out sweep changes only timestamps and counters, except for the packet it gives up. */
  lemma TimeoutsMembers(c: Conn, now: int)
    ensures var s, r := c.fhost, RetriedUpTo(c.fhost, FirstCapped(c.fhost), c.avgRttMs, now);
            && |r| == |s|
            && forall j | 0 <= j < |s| :: r[j].sn == s[j].sn && r[j].pack == s[j].pack
  {
    var s, k := c.fhost, FirstCapped(c.fhost);
    var r := RetriedUpTo(s, k, c.avgRttMs, now);
    forall j | 0 <= j < |s| ensures r[j].sn == s[j].sn && r[j].pack == s[j].pack {
      if j < k {
        RetryAllAt(s[..k], c.avgRttMs, now, j);
      } else {
        assert r[j] == r[k..][j - k] && s[j] == s[k..][j - k];
      }
    }
  }

  lemma {:induction false} DuePacksMembers(s: seq<Pending>, avg: int, now: int)
    ensures forall f :: f in DuePacks(s, avg, now) <==> exists p | p in s :: Due(p, avg, now) && p.pack == f
  {
    if s != [] {
      DuePacksMembers(s[1..], avg, now);
      assert s == [s[0]] + s[1..];
    }
  }
}
