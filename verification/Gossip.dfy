/**
 The gossip store: one entry per peer, the newest version wins. An entry is the packed
 record the program copies around byte for byte; two of its fields are looked at.
 */
module Gossip {
  import opened Types
  import W = Wire

  const ENTRY: nat := 152

  type Entry = e: seq<byte> | |e| == 152 witness seq(152, _ => 0)

  function Uid(e: Entry, little: bool): u32 { W.FromHost(e[0..4], little) }
  function Version(e: Entry, little: bool): u32 { W.FromHost(e[56..60], little) }

  function Without<T>(s: seq<T>, i: nat): seq<T>
    requires i < |s|
  {
    s[..i] + s[i + 1..]
  }

  /** The first entry of that peer, or |s|. */
  function Position(s: seq<Entry>, u: u32, little: bool): (i: nat)
    ensures i <= |s| && (forall j | 0 <= j < i :: Uid(s[j], little) != u)
    ensures i < |s| ==> Uid(s[i], little) == u
  {
    if s == [] || Uid(s[0], little) == u then 0 else 1 + Position(s[1..], u, little)
  }

  function Inserted(s: seq<Entry>, self: u32, e: Entry, little: bool): seq<Entry> {
    var i := Position(s, Uid(e, little), little);
    if Uid(e, little) == self then s
    else if i == |s| then s + [e]
    else if Version(e, little) <= Version(s[i], little) then s
    else Without(s, i) + [e]
  }

  function InsertAll(s: seq<Entry>, self: u32, es: seq<Entry>, little: bool): seq<Entry>
    decreases |es|
  {
    if es == [] then s
    else Inserted(InsertAll(s, self, es[..|es| - 1], little), self, es[|es| - 1], little)
  }

  ghost predicate OnePerPeer(s: seq<Entry>, self: u32, little: bool) {
    && (forall i, j | 0 <= i < j < |s| :: Uid(s[i], little) != Uid(s[j], little))
    && (forall e | e in s :: Uid(e, little) != self)
  }

  datatype SampleResult = BadCount | Nothing | Sample(entries: seq<Entry>)

  class System {
    const self: u32
    const little: bool
    var gossips: seq<Entry>

    constructor (self: u32, little: bool)
      ensures this.self == self && this.little == little && gossips == []
    {
      this.self, this.little, gossips := self, little, [];
    }

    method NewEntry(e: Entry)
      modifies `gossips
      ensures gossips == Inserted(old(gossips), self, e, little)
    {
      if Uid(e, little) == self {
        return;
      }
      var at := Locate(Uid(e, little));
      if at < |gossips| {
        if Version(e, little) <= Version(gossips[at], little) {
          return;
        }
        gossips := gossips[..at] + gossips[at + 1..];
      }
      gossips := gossips + [e];
    }

    method Locate(u: u32) returns (i: nat)
      ensures i == Position(gossips, u, little)
    {
      i := 0;
      while i < |gossips|
        invariant i <= |gossips| && forall j | 0 <= j < i :: Uid(gossips[j], little) != u
      {
        if Uid(gossips[i], little) == u {
          break;
        }
        i := i + 1;
      }
      PositionUnique(gossips, u, little, i);
    }

    /** Partial Fisher-Yates over the index array; `rands` stands for the values of rand(). */
    method RandomEntries(n: nat, rands: seq<nat>) returns (r: SampleResult)
      requires |rands| >= n
      ensures n == 0 <==> r.BadCount?
      ensures n > 0 && gossips == [] <==> r.Nothing?
      ensures r.Sample? ==> r.entries == Picked(gossips, rands[..Least(n, |gossips|)])
      ensures r.Sample? ==> |r.entries| == Least(n, |gossips|) && Drawn(r.entries, gossips)
    {
      if n == 0 {
        return BadCount;
      }
      var len := |gossips|;
      if len == 0 {
        return Nothing;
      }
      var m := if n > len then len else n;
      var indices := new nat[len](i => i);
      assert indices[..] == Identity(len);
      Shuffle(indices, rands[..m]);
      var entries: seq<Entry> := [];
      for i := 0 to m
        invariant |entries| == i && forall k | 0 <= k < i :: entries[k] == gossips[indices[..][k]]
      {
        entries := entries + [gossips[indices[i]]];
      }
      assert entries == Picked(gossips, rands[..m]);
      PickedIsDrawn(gossips, rands[..m]);
      return Sample(entries);
    }

    /** The swaps of the first positions with random later ones. */
    static method Shuffle(indices: array<nat>, rands: seq<nat>)
      requires Arrangement(indices[..]) && |rands| <= indices.Length
      modifies indices
      ensures indices[..] == Shuffled(old(indices[..]), rands, 0)
    {
      hide Arrangement, Exchanged;
      for i := 0 to |rands|
        invariant Arrangement(indices[..])
        invariant Shuffled(indices[..], rands[i..], i) == Shuffled(old(indices[..]), rands, 0)
      {
        ghost var before := indices[..];
        assert rands[i..][1..] == rands[i + 1..];
        var j := i + rands[i] % (indices.Length - i);
        var tmp := indices[i];
        indices[i] := indices[j];
        indices[j] := tmp;
        ExchangedIs(before, indices[..], i, j);
        ExchangedArranged(before, i, j);
      }
    }

    /**
     Returns false where the program returns -1, possibly after storing some entries. The
     size test leaves the four bytes of the count out of account, so a record may be copied
     from `beyond`, what memory holds after the packet.
     */
    method FromPacket(data: seq<byte>, beyond: seq<byte>) returns (ok: bool)
      requires |beyond| >= ENTRY + 4
      modifies `gossips
      ensures ok <==> |data| >= ENTRY + 4 && Count(data) <= |data| / ENTRY
      ensures gossips == if |data| < ENTRY + 4 then old(gossips)
                         else InsertAll(old(gossips), self, Stored(data, beyond), little)
    {
      hide Inserted, InsertAll;
      if |data| < ENTRY + 4 {
        return false;
      }
      var n := W.FromBig(data[..4]);
      ghost var all, was := Stored(data, beyond), gossips;
      InsertNone(was, self, all, little);
      var offset := 0;
      for i := 0 to n
        invariant offset == i * ENTRY <= |data| && i <= |all|
        invariant gossips == InsertAll(was, self, all[..i], little)
      {
        var header := (data + beyond)[4 + offset..4 + offset + ENTRY];
        PassesTest(|data|, i);
        if offset + ENTRY > |data| {
          assert all[..i] == all;
          return false;
        }
        InsertNext(was, self, all, i, little);
        NewEntry(header);
        offset := offset + ENTRY;
      }
      assert all[..n] == all;
      return true;
    }
  }

  lemma InsertNone(s: seq<Entry>, self: u32, es: seq<Entry>, little: bool)
    ensures InsertAll(s, self, es[..0], little) == s
  {}

  lemma InsertNext(s: seq<Entry>, self: u32, es: seq<Entry>, i: nat, little: bool)
    requires i < |es|
    ensures InsertAll(s, self, es[..i + 1], little)
         == Inserted(InsertAll(s, self, es[..i], little), self, es[i], little)
  {
    assert es[..i + 1][..i] == es[..i];
  }

  // ------------------------------------------------------------------ merging

  lemma {:induction false} PositionUnique(s: seq<Entry>, u: u32, little: bool, i: nat)
    requires i <= |s| && forall j | 0 <= j < i :: Uid(s[j], little) != u
    requires i < |s| ==> Uid(s[i], little) == u
    ensures i == Position(s, u, little)
  {
    if i > 0 {
      assert Uid(s[0], little) != u;
      PositionUnique(s[1..], u, little, i - 1);
    }
  }

  /** `v` is the highest version among the entries of peer `u`. */
  ghost predicate Newest(es: seq<Entry>, u: u32, v: u32, little: bool) {
    && (exists e | e in es :: Uid(e, little) == u && Version(e, little) == v)
    && (forall e | e in es && Uid(e, little) == u :: Version(e, little) <= v)
  }

  /** The store has an entry of peer `u`, with version `v`. */
  ghost predicate Stores(s: seq<Entry>, u: u32, v: u32, little: bool) {
    exists e | e in s :: Uid(e, little) == u && Version(e, little) == v
  }

  lemma WithoutKeeps(s: seq<Entry>, i: nat, self: u32, little: bool)
    requires OnePerPeer(s, self, little) && i < |s|
    ensures OnePerPeer(Without(s, i), self, little)
    ensures forall x | x in Without(s, i) :: x in s && Uid(x, little) != Uid(s[i], little)
  {
    hide Uid;
    var t := Without(s, i);
    assert forall k | 0 <= k < i :: t[k] == s[k];
    assert forall k | i <= k < |t| :: t[k] == s[k + 1];
    forall x | x in t ensures x in s && Uid(x, little) != Uid(s[i], little) {
      var k :| 0 <= k < |t| && t[k] == x;
    }
  }

  lemma AppendKeeps(s: seq<Entry>, e: Entry, self: u32, little: bool)
    requires OnePerPeer(s, self, little) && Uid(e, little) != self
    requires forall x | x in s :: Uid(x, little) != Uid(e, little)
    ensures OnePerPeer(s + [e], self, little)
    ensures forall x :: x in s + [e] <==> x in s || x == e
  {
    hide Uid;
    assert forall k | 0 <= k < |s| :: s[k] in s;
  }

  lemma InsertKeepsOnePerPeer(s: seq<Entry>, self: u32, e: Entry, little: bool)
    requires OnePerPeer(s, self, little)
    ensures OnePerPeer(Inserted(s, self, e, little), self, little)
    ensures forall x | x in Inserted(s, self, e, little) :: x in s || x == e
  {
    hide Uid, Version;
    var i := Position(s, Uid(e, little), little);
    if Uid(e, little) != self {
      if i < |s| {
        WithoutKeeps(s, i, self, little);
        AppendKeeps(Without(s, i), e, self, little);
      } else {
        AppendKeeps(s, e, self, little);
      }
    }
  }

  lemma InsertStores(s: seq<Entry>, self: u32, e: Entry, u: u32, v: u32, little: bool)
    requires OnePerPeer(s, self, little) && u != self
    ensures Stores(Inserted(s, self, e, little), u, v, little) <==>
      if Uid(e, little) != u then Stores(s, u, v, little)
      else if exists w :: Stores(s, u, w, little) && Version(e, little) <= w then Stores(s, u, v, little)
      else v == Version(e, little)
  {
    hide Uid, Version;
    var i := Position(s, Uid(e, little), little);
    var r := Inserted(s, self, e, little);
    InsertKeepsOnePerPeer(s, self, e, little);
    if i < |s| {
      assert Stores(s, Uid(e, little), Version(s[i], little), little);
      forall x | x in s && Uid(x, little) == Uid(e, little) ensures x == s[i] {
        var k :| 0 <= k < |s| && s[k] == x;
      }
      if r != s {
        assert e in r;
        forall x | x in s && Uid(x, little) != Uid(e, little) ensures x in r {
          var k :| 0 <= k < |s| && s[k] == x;
          assert x == if k < i then r[k] else r[k - 1];
        }
        forall x | x in r && x != e ensures Uid(x, little) != Uid(e, little) {
          var k :| 0 <= k < |r| && r[k] == x;
          assert r[|r| - 1] == e;
        }
      }
    } else {
      assert forall x | x in s :: Uid(x, little) != Uid(e, little);
      assert r != s ==> e in r;
      assert forall x | x in s :: x in r;
    }
  }

  /** The merge is exact: for each other peer the store holds the newest version received, once. */
  lemma {:induction false} MergeIsMaximum(self: u32, es: seq<Entry>, little: bool)
    ensures OnePerPeer(InsertAll([], self, es, little), self, little)
    ensures forall u: u32, v: u32 | u != self ::
              Stores(InsertAll([], self, es, little), u, v, little) <==> Newest(es, u, v, little)
    decreases |es|
  {
    hide Uid, Version;
    if es != [] {
      var n := |es| - 1;
      var front, e := es[..n], es[n];
      var s := InsertAll([], self, front, little);
      MergeIsMaximum(self, front, little);
      InsertKeepsOnePerPeer(s, self, e, little);
      forall u: u32, v: u32 | u != self
        ensures Stores(Inserted(s, self, e, little), u, v, little) <==> Newest(es, u, v, little)
      {
        InsertStores(s, self, e, u, v, little);
        NewestStep(front, e, u, v, little);
        assert es == front + [e];
      }
    }
  }

  lemma NewestStep(front: seq<Entry>, e: Entry, u: u32, v: u32, little: bool)
    ensures Newest(front + [e], u, v, little) <==>
      if Uid(e, little) != u then Newest(front, u, v, little)
      else if exists w :: Newest(front, u, w, little) && Version(e, little) <= w then Newest(front, u, v, little)
      else v == Version(e, little)
  {
    hide Uid, Version;
    var es := front + [e];
    assert forall x :: x in es <==> x in front || x == e;
    assert e in es;
    if Uid(e, little) == u && exists x | x in front :: Uid(x, little) == u {
      var w := NewestExists(front, u, little);
    }
  }

  lemma {:induction false} NewestExists(es: seq<Entry>, u: u32, little: bool) returns (w: u32)
    requires exists x | x in es :: Uid(x, little) == u
    ensures Newest(es, u, w, little)
    decreases |es|
  {
    hide Uid, Version;
    var n := |es| - 1;
    var front, e := es[..n], es[n];
    assert es == front + [e];
    if exists x | x in front :: Uid(x, little) == u {
      w := NewestExists(front, u, little);
      if Uid(e, little) == u && Version(e, little) > w {
        w := Version(e, little);
      }
    } else {
      w := Version(e, little);
    }
  }

  /** The peer-to-version map does not depend on the order of arrival. */
  lemma OrderDoesNotMatter(self: u32, es: seq<Entry>, fs: seq<Entry>, u: u32, v: u32, little: bool)
    requires u != self && multiset(es) == multiset(fs)
    ensures Stores(InsertAll([], self, es, little), u, v, little)
       <==> Stores(InsertAll([], self, fs, little), u, v, little)
  {
    MergeIsMaximum(self, es, little);
    MergeIsMaximum(self, fs, little);
    assert forall e :: e in es <==> e in multiset(es);
    assert forall e :: e in fs <==> e in multiset(fs);
    assert Newest(es, u, v, little) <==> Newest(fs, u, v, little);
  }

  /** Hearing again an entry that was received before changes nothing. */
  lemma ReinsertionIsNoOp(self: u32, es: seq<Entry>, e: Entry, little: bool)
    requires e in es
    ensures InsertAll([], self, es + [e], little) == InsertAll([], self, es, little)
  {
    hide Uid, Version;
    var s := InsertAll([], self, es, little);
    assert (es + [e])[..|es|] == es;
    MergeIsMaximum(self, es, little);
    if Uid(e, little) != self {
      var w := NewestExists(es, Uid(e, little), little);
      assert Stores(s, Uid(e, little), w, little);
      var x :| x in s && Uid(x, little) == Uid(e, little) && Version(x, little) == w;
      var i := Position(s, Uid(e, little), little);
      var k :| 0 <= k < |s| && s[k] == x;
      assert i == k;
    }
  }

  /** The packed record: uid, address, version, timestamp, key and state server, without padding. */
  function PackedEntry(
    uid: u32, addr: seq<byte>, version: u32, timestamp: seq<byte>, meta: seq<byte>, little: bool): Entry
    requires |addr| == 52 && |timestamp| == 8 && |meta| == 84
  {
    W.Host(uid, little) + addr + W.Host(version, little) + timestamp + meta
  }

  /** The two fields that are looked at are where the record has them. */
  lemma FieldsOfEntry(uid: u32, addr: seq<byte>, version: u32, timestamp: seq<byte>, meta: seq<byte>, little: bool)
    requires |addr| == 52 && |timestamp| == 8 && |meta| == 84
    ensures var e := PackedEntry(uid, addr, version, timestamp, meta, little);
            Uid(e, little) == uid && Version(e, little) == version
  {
    hide W.Host, W.FromHost;
    var e := PackedEntry(uid, addr, version, timestamp, meta, little);
    assert e[0..4] == W.Host(uid, little) && e[56..60] == W.Host(version, little);
    W.HostBack(uid, little);
    W.HostBack(version, little);
  }

  /** `s` is what is left of `es` after dropping some entries. */
  ghost predicate Subsequence(s: seq<Entry>, es: seq<Entry>)
    decreases |es|
  {
    if s == [] then true
    else
      es != [] &&
      var m, n := |s| - 1, |es| - 1;
      (s[m] == es[n] && Subsequence(s[..m], es[..n])) || Subsequence(s, es[..n])
  }

  lemma {:induction false} DropOne(s: seq<Entry>, es: seq<Entry>, i: nat)
    requires Subsequence(s, es) && i < |s|
    ensures Subsequence(Without(s, i), es)
    decreases |es|
  {
    var m, n := |s| - 1, |es| - 1;
    if s[m] == es[n] && Subsequence(s[..m], es[..n]) {
      if i == m {
        assert Without(s, i) == s[..m];
        Wider(s[..m], es);
      } else {
        DropOne(s[..m], es[..n], i);
        assert Without(s, i)[..m - 1] == Without(s[..m], i) && Without(s, i)[m - 1] == s[m];
      }
    } else {
      DropOne(s, es[..n], i);
      Wider(Without(s, i), es);
    }
  }

  lemma Wider(s: seq<Entry>, es: seq<Entry>)
    requires es != [] && Subsequence(s, es[..|es| - 1])
    ensures Subsequence(s, es)
  {}

  /** The store holds received records byte for byte, in the order they arrived. */
  lemma {:induction false} StoreInArrivalOrder(self: u32, es: seq<Entry>, little: bool)
    ensures Subsequence(InsertAll([], self, es, little), es)
    decreases |es|
  {
    if es != [] {
      hide Uid, Version;
      var n := |es| - 1;
      var s, e := InsertAll([], self, es[..n], little), es[n];
      var i := Position(s, Uid(e, little), little);
      StoreInArrivalOrder(self, es[..n], little);
      Wider(s, es);
      if i < |s| {
        DropOne(s, es[..n], i);
        Appended(Without(s, i), es);
      } else {
        Appended(s, es);
      }
    }
  }

  lemma Appended(s: seq<Entry>, es: seq<Entry>)
    requires es != [] && Subsequence(s, es[..|es| - 1])
    ensures Subsequence(s + [es[|es| - 1]], es)
  {
    var r := s + [es[|es| - 1]];
    assert r[..|r| - 1] == s;
  }

  // ----------------------------------------------------------------- sampling

  ghost predicate Holds(s: seq<nat>, v: nat) { exists k :: 0 <= k < |s| && s[k] == v }

  /** Every number below the length, once. */
  ghost predicate Arrangement(s: seq<nat>) {
    && (forall k | 0 <= k < |s| :: s[k] < |s|)
    && (forall k, l | 0 <= k < l < |s| :: s[k] != s[l])
    && (forall v: nat | v < |s| :: Holds(s, v))
  }

  function Identity(n: nat): (s: seq<nat>)
    ensures |s| == n && Arrangement(s)
  {
    var s := seq(n, i => i);
    assert forall v: nat | v < n :: Holds(s, v) by {
      forall v: nat | v < n ensures Holds(s, v) {
        assert s[v] == v;
      }
    }
    s
  }

  function Exchanged(s: seq<nat>, i: nat, j: nat): (r: seq<nat>)
    requires i < |s| && j < |s|
    ensures |r| == |s|
  {
    s[i := s[j]][j := s[i]]
  }

  lemma ExchangedIs(s: seq<nat>, r: seq<nat>, i: nat, j: nat)
    requires i < |s| && j < |s| && r == s[i := s[j]][j := s[i]]
    ensures r == Exchanged(s, i, j)
  {}

  lemma ExchangedArranged(s: seq<nat>, i: nat, j: nat)
    requires Arrangement(s) && i < |s| && j < |s|
    ensures Arrangement(Exchanged(s, i, j))
  {
    var r := Exchanged(s, i, j);
    forall v: nat | v < |s| ensures Holds(r, v) {
      assert Holds(s, v);
      var k :| 0 <= k < |s| && s[k] == v;
      assert v == if k == i then r[j] else if k == j then r[i] else r[k];
    }
  }

  /** The index array after the swaps that these random values cause, from position `i` on. */
  function Shuffled(s: seq<nat>, rands: seq<nat>, i: nat): (r: seq<nat>)
    requires Arrangement(s) && i + |rands| <= |s|
    ensures |r| == |s| && Arrangement(r)
    decreases |rands|
  {
    if rands == [] then s
    else
      var j := i + rands[0] % (|s| - i);
      ExchangedArranged(s, i, j);
      Shuffled(Exchanged(s, i, j), rands[1..], i + 1)
  }

  /** The entries a sample of |rands| ends up with. */
  function Picked(s: seq<Entry>, rands: seq<nat>): (es: seq<Entry>)
    requires |rands| <= |s|
    ensures |es| == |rands|
  {
    var idx := Shuffled(Identity(|s|), rands, 0);
    seq(|rands|, k requires 0 <= k < |rands| => s[idx[k]])
  }

  lemma PickedIsDrawn(s: seq<Entry>, rands: seq<nat>)
    requires |rands| <= |s|
    ensures Drawn(Picked(s, rands), s)
  {
    var idx := Shuffled(Identity(|s|), rands, 0);
    assert DrawnFrom(Picked(s, rands), s, idx[..|rands|]);
  }

  predicate AllBelow(rands: seq<nat>, n: nat) { forall k | 0 <= k < |rands| :: rands[k] < n }

  /** Any choice of different positions is what some random values lead to. */
  lemma {:induction false} EveryOrderOccurs(s: seq<nat>, target: seq<nat>, i: nat) returns (rands: seq<nat>)
    requires Arrangement(s) && i <= |target| <= |s| && s[..i] == target[..i]
    requires forall k | 0 <= k < |target| :: target[k] < |s|
    requires forall k, l | 0 <= k < l < |target| :: target[k] != target[l]
    ensures i + |rands| == |target| && Shuffled(s, rands, i)[..|target|] == target && AllBelow(rands, |s|)
    decreases |target| - i
  {
    if i == |target| {
      return [];
    }
    hide Arrangement, Shuffled, Exchanged;
    var j := PlaceOf(s, target, i);
    var s' := Exchanged(s, i, j);
    ExchangedArranged(s, i, j);
    ExchangedFront(s, target, i, j);
    var rest := EveryOrderOccurs(s', target, i + 1);
    rands := [j - i] + rest;
    ShuffledFirst(s, rest, i, j);
  }

  lemma ShuffledFirst(s: seq<nat>, rest: seq<nat>, i: nat, j: nat)
    requires Arrangement(s) && i <= j < |s| && i + 1 + |rest| <= |s| && Arrangement(Exchanged(s, i, j))
    ensures Shuffled(s, [j - i] + rest, i) == Shuffled(Exchanged(s, i, j), rest, i + 1)
  {
    hide Arrangement, Exchanged;
    SmallMod(j - i, |s| - i);
    assert ([j - i] + rest)[1..] == rest;
  }

  lemma SmallMod(x: nat, n: nat)
    requires x < n
    ensures x % n == x
  {}

  /** The next wanted number sits behind those already in place. */
  lemma PlaceOf(s: seq<nat>, target: seq<nat>, i: nat) returns (j: nat)
    requires Arrangement(s) && i < |target| <= |s| && s[..i] == target[..i] && target[i] < |s|
    requires forall k, l | 0 <= k < l < |target| :: target[k] != target[l]
    ensures i <= j < |s| && s[j] == target[i]
  {
    assert Holds(s, target[i]);
    j :| j < |s| && s[j] == target[i];
    assert forall k | 0 <= k < i :: s[k] == s[..i][k] == target[..i][k] == target[k];
  }

  lemma ExchangedFront(s: seq<nat>, target: seq<nat>, i: nat, j: nat)
    requires i < |target| <= |s| && i <= j < |s| && s[..i] == target[..i] && s[j] == target[i]
    ensures Exchanged(s, i, j)[..i + 1] == target[..i + 1]
  {
    assert Exchanged(s, i, j)[..i] == s[..i];
    assert Exchanged(s, i, j)[..i + 1] == s[..i] + [s[j]];
    assert target[..i + 1] == target[..i] + [target[i]];
  }

  /** If rand() always returned 0, the sample would be the oldest entries in their order. */
  lemma ZerosTakeFront(s: seq<Entry>, m: nat)
    requires m <= |s|
    ensures Picked(s, seq(m, _ => 0)) == s[..m]
  {
    var rands: seq<nat> := seq(m, _ => 0);
    ZerosMoveNothing(Identity(|s|), m, 0);
    assert forall k | 0 <= k < m :: Picked(s, rands)[k] == s[k];
  }

  lemma {:induction false} ZerosMoveNothing(s: seq<nat>, m: nat, i: nat)
    requires Arrangement(s) && i + m <= |s|
    ensures Shuffled(s, seq(m, _ => 0), i) == s
    decreases m
  {
    hide Arrangement;
    if m > 0 {
      var rands: seq<nat> := seq(m, _ => 0);
      assert Exchanged(s, i, i) == s && rands[1..] == seq(m - 1, _ => 0);
      SmallMod(0, |s| - i);
      ZerosMoveNothing(s, m - 1, i + 1);
    }
  }

  /**
   Sampling misses nothing: a list of stored entries is the sample for some random values
   exactly when the entries sit at pairwise different positions of the store; values below the
   store's size are enough.
   */
  lemma EveryPickOccurs(s: seq<Entry>, es: seq<Entry>)
    requires |es| <= |s|
    ensures Drawn(es, s) <==> exists rands: seq<nat> ::
              |rands| == |es| && AllBelow(rands, |s|) && Picked(s, rands) == es
  {
    if Drawn(es, s) {
      var idx :| DrawnFrom(es, s, idx);
      var rands := EveryOrderOccurs(Identity(|s|), idx, 0);
      var all := Shuffled(Identity(|s|), rands, 0);
      forall k | 0 <= k < |es| ensures Picked(s, rands)[k] == es[k] {
        assert all[k] == all[..|idx|][k] == idx[k];
      }
      assert Picked(s, rands) == es;
    }
    if exists rands: seq<nat> :: |rands| == |es| && AllBelow(rands, |s|) && Picked(s, rands) == es {
      var rands: seq<nat> :| |rands| == |es| && AllBelow(rands, |s|) && Picked(s, rands) == es;
      PickedIsDrawn(s, rands);
    }
  }

  ghost predicate DrawnFrom(es: seq<Entry>, s: seq<Entry>, idx: seq<nat>) {
    && |idx| == |es|
    && (forall k | 0 <= k < |idx| :: idx[k] < |s| && es[k] == s[idx[k]])
    && (forall k, l | 0 <= k < l < |idx| :: idx[k] != idx[l])
  }

  /** The entries sit at pairwise different positions of the store. */
  ghost predicate Drawn(es: seq<Entry>, s: seq<Entry>) { exists idx :: DrawnFrom(es, s, idx) }

  /** A sample of a merged store has pairwise different peers, whatever rand() returned. */
  lemma SampleHasDistinctPeers(es: seq<Entry>, s: seq<Entry>, self: u32, little: bool)
    requires OnePerPeer(s, self, little) && Drawn(es, s)
    ensures OnePerPeer(es, self, little) && forall e | e in es :: e in s
  {
    hide Uid;
    var idx :| DrawnFrom(es, s, idx);
    forall i, j | 0 <= i < j < |es| ensures Uid(es[i], little) != Uid(es[j], little) {
      assert idx[i] != idx[j];
    }
  }

  // ------------------------------------------------------------------ packets

  function Count(data: seq<byte>): u32
    requires |data| >= 4
  {
    W.FromBig(data[..4])
  }

  /** The records that lie whole inside the packet. */
  function Whole(data: seq<byte>): nat
    requires |data| >= 4
  {
    (|data| - 4) / ENTRY
  }

  function Least(m: nat, n: nat): nat { if m <= n then m else n }

  /** Where the `i`-th record of a packet ends. */
  function RecordEnd(i: nat): nat { 4 + (i + 1) * ENTRY }

  function Record(bytes: seq<byte>, i: nat): Entry
    requires RecordEnd(i) <= |bytes|
  {
    bytes[4 + i * ENTRY..RecordEnd(i)]
  }

  /** The whole records a packet carries, at most as many as it announces. */
  function Carried(data: seq<byte>): (r: seq<Entry>)
    requires |data| >= 4
    ensures |r| == Least(Count(data), Whole(data))
  {
    seq(Least(Count(data), Whole(data)), i requires 0 <= i < Least(Count(data), Whole(data)) =>
      InsideEnds(|data|, i); Record(data, i))
  }

  /** The records the program stores: as many as announced while the program's own size test passes. */
  function Stored(data: seq<byte>, beyond: seq<byte>): (r: seq<Entry>)
    requires |data| >= 4 && |beyond| >= 4
    ensures |r| == Least(Count(data), |data| / ENTRY)
  {
    seq(Least(Count(data), |data| / ENTRY), i requires 0 <= i < Least(Count(data), |data| / ENTRY) =>
      PassesTest(|data|, i); Record(data + beyond, i))
  }

  /** How many records are copied: the one that fails the test has been copied by then. */
  function Copied(data: seq<byte>): nat
    requires |data| >= 4
  {
    Least(Count(data), |data| / ENTRY + 1)
  }

  lemma InsideEnds(size: nat, i: nat)
    requires size >= 4
    ensures RecordEnd(i) <= size <==> i < (size - 4) / ENTRY
  {}

  lemma PassesTest(size: nat, i: nat)
    ensures i * ENTRY + ENTRY <= size <==> i < size / ENTRY
  {}

  /** The two size tests agree exactly when fewer than 148 bytes follow the whole records. */
  lemma TestsAgree(size: nat)
    requires size >= 4
    ensures size / ENTRY == (size - 4) / ENTRY + (if (size - 4) % ENTRY < ENTRY - 4 then 0 else 1)
  {}

  /**
   Every stored record lies in the packet exactly when the count announces no more than the
   whole records, or fewer than 148 bytes follow them; then the packet's own records are stored.
   */
  lemma StoresOnlyCarried(data: seq<byte>, beyond: seq<byte>)
    requires |data| >= 4 && |beyond| >= 4
    ensures (forall i | 0 <= i < |Stored(data, beyond)| :: RecordEnd(i) <= |data|)
       <==> Count(data) <= Whole(data) || (|data| - 4) % ENTRY < ENTRY - 4
    ensures Count(data) <= Whole(data) || (|data| - 4) % ENTRY < ENTRY - 4 ==> Stored(data, beyond) == Carried(data)
  {
    hide RecordEnd, Count;
    TestsAgree(|data|);
    forall i: nat ensures RecordEnd(i) <= |data| <==> i < Whole(data) {
      InsideEnds(|data|, i);
    }
    if |Stored(data, beyond)| > Whole(data) {
      assert !(RecordEnd(Whole(data)) <= |data|);
    } else {
      forall i | 0 <= i < |Stored(data, beyond)| ensures Record(data + beyond, i) == Record(data, i) {
        FrontSlice(data, beyond, i);
      }
    }
  }

  lemma FrontSlice(data: seq<byte>, beyond: seq<byte>, i: nat)
    requires RecordEnd(i) <= |data|
    ensures Record(data + beyond, i) == Record(data, i)
  {}

  /** Some copy reaches past the packet exactly when the count announces more than the whole records. */
  lemma CopiesPastTheEnd(data: seq<byte>)
    requires |data| >= 4
    ensures (exists i | 0 <= i < Copied(data) :: RecordEnd(i) > |data|) <==> Count(data) > Whole(data)
  {
    hide RecordEnd, Count;
    forall i: nat ensures RecordEnd(i) <= |data| <==> i < Whole(data) {
      InsideEnds(|data|, i);
    }
    TestsAgree(|data|);
    if Count(data) > Whole(data) {
      assert RecordEnd(Whole(data)) > |data| && Whole(data) < Copied(data);
    }
  }

  /** 304 bytes announcing two records: the second is stored, although it ends four bytes past the packet. */
  lemma HeaderNotCounted(data: seq<byte>, beyond: seq<byte>)
    requires |data| == 304 && Count(data) == 2 && |beyond| >= 4
    ensures |Carried(data)| == 1 && |Stored(data, beyond)| == 2 && RecordEnd(1) == |data| + 4
    ensures Stored(data, beyond)[1][148..] == beyond[..4]
  {
    hide Count;
    var all := data + beyond;
    assert Stored(data, beyond)[1] == all[156..308];
    assert all[156..308][148..] == all[304..308] == beyond[..4];
  }

  function Joined(es: seq<Entry>): seq<byte> {
    if es == [] then [] else es[0] + Joined(es[1..])
  }

  /** gossip_to_data: the count in network order and the records one after another. */
  method ToData(entries: seq<Entry>) returns (out: Option<seq<byte>>)
    requires |entries| < U32_LIMIT
    ensures out == if |entries| == 0 then None else Some(W.Big(|entries|) + Joined(entries))
  {
    if |entries| == 0 {
      return None;
    }
    var data := W.Big(|entries|);
    for i := 0 to |entries|
      invariant data + Joined(entries[i..]) == W.Big(|entries|) + Joined(entries)
    {
      assert entries[i..][1..] == entries[i + 1..];
      data := data + entries[i];
    }
    assert data + Joined([]) == data;
    return Some(data);
  }

  lemma {:induction false} JoinedAt(es: seq<Entry>, i: nat)
    requires i < |es|
    ensures |Joined(es)| == |es| * ENTRY && Joined(es)[i * ENTRY..(i + 1) * ENTRY] == es[i]
  {
    JoinedLength(es);
    if i > 0 {
      JoinedLength(es[1..]);
      JoinedAt(es[1..], i - 1);
      assert Joined(es)[i * ENTRY..(i + 1) * ENTRY] == Joined(es[1..])[(i - 1) * ENTRY..i * ENTRY];
    }
  }

  lemma {:induction false} JoinedLength(es: seq<Entry>)
    ensures |Joined(es)| == |es| * ENTRY
  {
    if es != [] {
      JoinedLength(es[1..]);
    }
  }

  /** What one node packs another unpacks: exactly those entries, in that order, whatever follows. */
  lemma PacketRoundTrip(es: seq<Entry>, beyond: seq<byte>)
    requires 0 < |es| < U32_LIMIT && |beyond| >= 4
    ensures Carried(W.Big(|es|) + Joined(es)) == es
    ensures Stored(W.Big(|es|) + Joined(es), beyond) == es
  {
    hide W.Big, Joined, Carried, Stored, Record;
    var data := W.Big(|es|) + Joined(es);
    JoinedLength(es);
    CountOfPacket(es);
    CarriedLength(data, |es|);
    forall i | 0 <= i < |es| ensures Carried(data)[i] == es[i] {
      CarriedAt(es, i);
    }
    StoresOnlyCarried(data, beyond);
  }

  lemma CountOfPacket(es: seq<Entry>)
    requires |es| < U32_LIMIT
    ensures Count(W.Big(|es|) + Joined(es)) == |es|
  {
    hide W.Big, W.FromBig, Joined;
    W.BigBack(|es|);
    assert (W.Big(|es|) + Joined(es))[..4] == W.Big(|es|);
  }

  lemma CarriedLength(data: seq<byte>, n: nat)
    requires |data| == 4 + n * ENTRY && Count(data) == n
    ensures Whole(data) == n && |Carried(data)| == n
  {
    hide Count;
  }

  lemma CarriedAt(es: seq<Entry>, i: nat)
    requires i < |es| < U32_LIMIT
    ensures var data := W.Big(|es|) + Joined(es);
            i < |Carried(data)| && Carried(data)[i] == es[i]
  {
    hide W.Big, Joined, Count;
    var data := W.Big(|es|) + Joined(es);
    JoinedLength(es);
    CountOfPacket(es);
    CarriedLength(data, |es|);
    JoinedAt(es, i);
    SliceAfter(W.Big(|es|), Joined(es), i * ENTRY, (i + 1) * ENTRY);
  }

  lemma SliceAfter(a: seq<byte>, b: seq<byte>, i: nat, j: nat)
    requires |a| == 4 && i <= j <= |b|
    ensures (a + b)[4 + i..4 + j] == b[i..j]
  {}
}
