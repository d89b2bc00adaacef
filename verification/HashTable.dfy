/**
 The chained hash table of dyn_htable.c, for any key type and any hash function. A chain
 is a sequence of nodes, front first; the buckets are an array that rehashing replaces.
 */
module HashTable {
  import opened Types

  const MINIMUM_CAPACITY: nat := 8
  const LOAD_FACTOR: nat := 5
  const GROWTH_FACTOR: nat := 2
  const SHRINK_THRESHOLD: nat := 0   // the C expression (1 / 4)

  const SUCCESS: int := 0
  const NOT_FOUND: int := 0

  datatype Node<K, V> = Node(key: K, value: V)
  datatype InsertResult = Inserted | Updated

  // ------------------------------------------------------------------ one chain

  /** What a scan from the front finds. */
  function Find<K(==), V>(chain: seq<Node<K, V>>, k: K): Option<V> {
    if chain == [] then None
    else if chain[0].key == k then Some(chain[0].value)
    else Find(chain[1..], k)
  }

  ghost predicate UniqueKeys<K(!new), V>(chain: seq<Node<K, V>>) {
    forall i, j | 0 <= i < j < |chain| :: chain[i].key != chain[j].key
  }

  lemma {:induction false} FindAt<K(!new), V>(chain: seq<Node<K, V>>, i: nat)
    requires i < |chain| && UniqueKeys(chain)
    ensures Find(chain, chain[i].key) == Some(chain[i].value)
  {
    if i > 0 {
      assert chain[0].key != chain[i].key;
      assert chain[i] == chain[1..][i - 1];
      FindAt(chain[1..], i - 1);
    }
  }

  lemma {:induction false} FindNone<K(!new), V>(chain: seq<Node<K, V>>, k: K)
    ensures Find(chain, k).None? <==> forall i | 0 <= i < |chain| :: chain[i].key != k
  {
    if chain != [] {
      FindNone(chain[1..], k);
      assert forall i | 1 <= i < |chain| :: chain[i] == chain[1..][i - 1];
    }
  }

  lemma {:induction false} FindReplaced<K(!new), V>(chain: seq<Node<K, V>>, i: nat, v: V, q: K)
    requires i < |chain| && UniqueKeys(chain)
    ensures UniqueKeys(chain[i := Node(chain[i].key, v)])
    ensures Find(chain[i := Node(chain[i].key, v)], q) == if q == chain[i].key then Some(v) else Find(chain, q)
  {
    var r := chain[i := Node(chain[i].key, v)];
    if i == 0 {
      assert r[1..] == chain[1..];
    } else {
      assert chain[0].key != chain[i].key;
      assert r[1..] == chain[1..][i - 1 := Node(chain[1..][i - 1].key, v)];
      FindReplaced(chain[1..], i - 1, v, q);
    }
  }

  lemma RemovedUnique<K(!new), V>(chain: seq<Node<K, V>>, i: nat)
    requires i < |chain| && UniqueKeys(chain)
    ensures UniqueKeys(chain[..i] + chain[i + 1..])
  {
    var r := chain[..i] + chain[i + 1..];
    assert forall j | 0 <= j < |r| :: r[j] == if j < i then chain[j] else chain[j + 1];
  }

  lemma {:induction false} FindRemoved<K(!new), V>(chain: seq<Node<K, V>>, i: nat, q: K)
    requires i < |chain| && UniqueKeys(chain)
    ensures Find(chain[..i] + chain[i + 1..], q) == if q == chain[i].key then None else Find(chain, q)
  {
    var r := chain[..i] + chain[i + 1..];
    if i == 0 {
      assert r == chain[1..];
      FindNone(r, chain[0].key);
    } else {
      assert chain[0].key != chain[i].key;
      assert r[0] == chain[0] && r[1..] == chain[1..][..i - 1] + chain[1..][i..];
      FindRemoved(chain[1..], i - 1, q);
    }
  }

  // --------------------------------------------------------------- all the chains

  function Total<T>(chains: seq<seq<T>>): nat {
    if chains == [] then 0 else |chains[0]| + Total(chains[1..])
  }

  lemma {:induction false} TotalAppend<T>(a: seq<seq<T>>, b: seq<seq<T>>)
    ensures Total(a + b) == Total(a) + Total(b)
  {
    if a == [] {
      assert a + b == b;
    } else {
      assert (a + b)[1..] == a[1..] + b;
      TotalAppend(a[1..], b);
    }
  }

  lemma TotalUpdate<T>(chains: seq<seq<T>>, i: nat, c: seq<T>)
    requires i < |chains|
    ensures Total(chains[i := c]) == Total(chains) - |chains[i]| + |c|
  {
    var a, b := chains[..i], chains[i + 1..];
    assert chains == a + ([chains[i]] + b) && chains[i := c] == a + ([c] + b);
    TotalAppend(a, [chains[i]] + b);
    TotalAppend(a, [c] + b);
    assert ([chains[i]] + b)[1..] == b && ([c] + b)[1..] == b;
  }

  lemma {:induction false} TotalEmpty<T>(chains: seq<seq<T>>)
    requires forall i | 0 <= i < |chains| :: chains[i] == []
    ensures Total(chains) == 0
  {
    if chains != [] {
      TotalEmpty(chains[1..]);
    }
  }

  /** Every node sits in the chain its key hashes to, and no key occurs twice. */
  ghost predicate Placed<K(!new), V(!new)>(chains: seq<seq<Node<K, V>>>, hash: K -> nat) {
    && |chains| > 0
    && (forall c, i | 0 <= c < |chains| && 0 <= i < |chains[c]| :: hash(chains[c][i].key) % |chains| == c)
    && (forall c | 0 <= c < |chains| :: UniqueKeys(chains[c]))
  }

  function Lookup<K(==), V>(chains: seq<seq<Node<K, V>>>, hash: K -> nat, k: K): Option<V>
    requires |chains| > 0
  {
    Find(chains[hash(k) % |chains|], k)
  }

  /** Changing one chain changes the lookups of the keys that hash there, and no others. */
  lemma PlacedUpdate<K(!new), V(!new)>(chains: seq<seq<Node<K, V>>>, hash: K -> nat, c: nat, chain: seq<Node<K, V>>)
    requires Placed(chains, hash) && c < |chains| && UniqueKeys(chain)
    requires forall i | 0 <= i < |chain| :: hash(chain[i].key) % |chains| == c
    ensures Placed(chains[c := chain], hash)
    ensures forall q :: Lookup(chains[c := chain], hash, q)
                     == if hash(q) % |chains| == c then Find(chain, q) else Lookup(chains, hash, q)
  {}

  // --------------------------------------------------- moving nodes between tables

  /** A node goes to the front of the chain its key hashes to. */
  function Push<K, V>(chains: seq<seq<Node<K, V>>>, hash: K -> nat, n: Node<K, V>): (r: seq<seq<Node<K, V>>>)
    requires |chains| > 0
    ensures |r| == |chains|
  {
    var i := hash(n.key) % |chains|;
    chains[i := [n] + chains[i]]
  }

  function PushAll<K, V>(chains: seq<seq<Node<K, V>>>, hash: K -> nat, list: seq<Node<K, V>>): (r: seq<seq<Node<K, V>>>)
    requires |chains| > 0
    ensures |r| == |chains|
    decreases |list|
  {
    if list == [] then chains else PushAll(Push(chains, hash, list[0]), hash, list[1..])
  }

  lemma {:induction false} PushAllAppend<K, V>(
    chains: seq<seq<Node<K, V>>>, hash: K -> nat, a: seq<Node<K, V>>, b: seq<Node<K, V>>)
    requires |chains| > 0
    ensures PushAll(chains, hash, a + b) == PushAll(PushAll(chains, hash, a), hash, b)
    decreases |a|
  {
    if a == [] {
      assert a + b == b;
    } else {
      assert (a + b)[1..] == a[1..] + b;
      PushAllAppend(Push(chains, hash, a[0]), hash, a[1..], b);
    }
  }

  lemma PushKeeps<K(!new), V(!new)>(chains: seq<seq<Node<K, V>>>, hash: K -> nat, n: Node<K, V>)
    requires Placed(chains, hash) && Lookup(chains, hash, n.key).None?
    ensures Placed(Push(chains, hash, n), hash)
    ensures Total(Push(chains, hash, n)) == Total(chains) + 1
    ensures forall q :: Lookup(Push(chains, hash, n), hash, q)
                     == if q == n.key then Some(n.value) else Lookup(chains, hash, q)
  {
    var c := hash(n.key) % |chains|;
    var chain := [n] + chains[c];
    FindNone(chains[c], n.key);
    assert chain[1..] == chains[c];
    assert forall i | 1 <= i < |chain| :: chain[i] == chains[c][i - 1];
    PlacedUpdate(chains, hash, c, chain);
    TotalUpdate(chains, c, chain);
  }

  /** Moving a list of nodes with new, distinct keys adds exactly their entries. */
  lemma {:induction false} PushAllKeeps<K(!new), V(!new)>(
    chains: seq<seq<Node<K, V>>>, hash: K -> nat, list: seq<Node<K, V>>)
    requires Placed(chains, hash) && UniqueKeys(list)
    requires forall i | 0 <= i < |list| :: Lookup(chains, hash, list[i].key).None?
    ensures Placed(PushAll(chains, hash, list), hash)
    ensures Total(PushAll(chains, hash, list)) == Total(chains) + |list|
    ensures forall q :: Lookup(PushAll(chains, hash, list), hash, q)
                     == if Find(list, q).Some? then Find(list, q) else Lookup(chains, hash, q)
    decreases |list|
  {
    if list != [] {
      var next := Push(chains, hash, list[0]);
      PushKeeps(chains, hash, list[0]);
      assert forall i | 1 <= i < |list| :: list[0].key != list[i].key;
      PushAllKeeps(next, hash, list[1..]);
      FindNone(list[1..], list[0].key);
    }
  }

  function Flatten<T>(chains: seq<seq<T>>): seq<T> {
    if chains == [] then [] else Flatten(chains[..|chains| - 1]) + chains[|chains| - 1]
  }

  lemma {:induction false} FlattenTotal<T>(chains: seq<seq<T>>)
    ensures |Flatten(chains)| == Total(chains)
  {
    if chains != [] {
      var n := |chains| - 1;
      FlattenTotal(chains[..n]);
      TotalAppend(chains[..n], [chains[n]]);
      assert chains == chains[..n] + [chains[n]];
      assert [chains[n]][1..] == [];
    }
  }

  /** The first `m` chains of a placed table hold each key at most once. */
  ghost predicate PlacedPart<K(!new), V(!new)>(chains: seq<seq<Node<K, V>>>, hash: K -> nat, cap: nat) {
    && cap > 0 && |chains| <= cap
    && (forall c, i | 0 <= c < |chains| && 0 <= i < |chains[c]| :: hash(chains[c][i].key) % cap == c)
    && (forall c | 0 <= c < |chains| :: UniqueKeys(chains[c]))
  }

  lemma {:induction false} FindAppend<K(!new), V>(a: seq<Node<K, V>>, b: seq<Node<K, V>>, q: K)
    ensures Find(a + b, q) == if Find(a, q).Some? then Find(a, q) else Find(b, q)
  {
    if a == [] {
      assert a + b == b;
    } else {
      assert (a + b)[1..] == a[1..] + b;
      FindAppend(a[1..], b, q);
    }
  }

  /** Read as one list, a table still has unique keys and the same lookups. */
  lemma {:induction false} FlattenFinds<K(!new), V(!new)>(chains: seq<seq<Node<K, V>>>, hash: K -> nat, cap: nat)
    requires PlacedPart(chains, hash, cap)
    ensures UniqueKeys(Flatten(chains))
    ensures forall q :: Find(Flatten(chains), q)
                     == if hash(q) % cap < |chains| then Find(chains[hash(q) % cap], q) else None
    decreases |chains|
  {
    if chains != [] {
      var n := |chains| - 1;
      var front, last := chains[..n], chains[n];
      FlattenFinds(front, hash, cap);
      forall q ensures Find(Flatten(front) + last, q)
                    == if hash(q) % cap < |chains| then Find(chains[hash(q) % cap], q) else None {
        FindAppend(Flatten(front), last, q);
        FindNone(last, q);
      }
      UniqueAppend(Flatten(front), last, hash, cap, n);
    }
  }

  lemma UniqueAppend<K(!new), V(!new)>(front: seq<Node<K, V>>, last: seq<Node<K, V>>, hash: K -> nat, cap: nat, n: nat)
    requires cap > 0 && UniqueKeys(front) && UniqueKeys(last)
    requires forall q :: hash(q) % cap >= n ==> Find(front, q).None?
    requires forall i | 0 <= i < |last| :: hash(last[i].key) % cap == n
    ensures UniqueKeys(front + last)
  {
    forall i, j | 0 <= i < j < |front + last| ensures (front + last)[i].key != (front + last)[j].key {
      if i < |front| <= j {
        FindNone(front, last[j - |front|].key);
      }
    }
  }

  function Empty<T>(n: nat): seq<seq<T>> { seq(n, _ => []) }

  /** Re-distributing a whole table over any number of chains changes no lookup and no count. */
  lemma RehashKeeps<K(!new), V(!new)>(chains: seq<seq<Node<K, V>>>, hash: K -> nat, cap: nat)
    requires Placed(chains, hash) && cap > 0
    ensures var r := PushAll(Empty(cap), hash, Flatten(chains));
            && Placed(r, hash) && Total(r) == Total(chains)
            && forall q :: Lookup(r, hash, q) == Lookup(chains, hash, q)
  {
    FlattenFinds(chains, hash, |chains|);
    FlattenTotal(chains);
    TotalEmpty(Empty<Node<K, V>>(cap));
    PushAllKeeps(Empty(cap), hash, Flatten(chains));
  }

  class Table<K(==,!new), V(!new)> {
    const hash: K -> nat
    var size: nat
    var threshold: nat
    var capacity: nat
    var nodes: array<seq<Node<K, V>>>

    constructor (hash: K -> nat, capacity: nat)
      ensures Valid() && fresh(nodes) && this.hash == hash
      ensures size == 0 && forall k :: Get(k).None?
      ensures this.capacity == if capacity < MINIMUM_CAPACITY then MINIMUM_CAPACITY else capacity
    {
      var c := if capacity < MINIMUM_CAPACITY then MINIMUM_CAPACITY else capacity;
      this.hash := hash;
      nodes := new seq<Node<K, V>>[c](_ => []);
      this.capacity := c;
      threshold := c * LOAD_FACTOR;
      size := 0;
      new;
      TotalEmpty(nodes[..]);
    }

    /** The code's own asserts are part of it: size never exceeds capacity. */
    ghost predicate Valid()
      reads this, nodes
    {
      && capacity == nodes.Length >= MINIMUM_CAPACITY
      && threshold == capacity * LOAD_FACTOR
      && Placed(nodes[..], hash)
      && size == Total(nodes[..]) <= capacity
    }

    /** The abstract map. */
    ghost function Get(k: K): Option<V>
      requires nodes.Length > 0
      reads this, nodes
    {
      Lookup(nodes[..], hash, k)
    }

    method Search(k: K) returns (r: Option<V>)
      requires Valid()
      ensures r == Get(k)
    {
      var chain := nodes[hash(k) % capacity];
      var i := 0;
      while i < |chain|
        invariant i <= |chain| && Find(chain[i..], k) == Find(chain, k)
      {
        if chain[i].key == k {
          return Some(chain[i].value);
        }
        assert chain[i..][1..] == chain[i + 1..];
        i := i + 1;
      }
      return None;
    }

    method Contains(k: K) returns (found: bool)
      requires Valid()
      ensures found <==> Get(k).Some?
    {
      var r := Search(k);
      found := r.Some?;
    }

    /** _ht_rehash: every node of the old buckets moves to the front of its new chain. */
    method Rehash(old_: array<seq<Node<K, V>>>)
      requires old_ != nodes && capacity == nodes.Length > 0
      requires nodes[..] == Empty(capacity)
      modifies nodes
      ensures nodes[..] == PushAll(Empty(capacity), hash, Flatten(old_[..]))
    {
      for chain := 0 to old_.Length
        invariant nodes[..] == PushAll(Empty(capacity), hash, Flatten(old_[..chain]))
      {
        var rest := old_[chain];
        ghost var done := Flatten(old_[..chain]);
        assert done + rest[..0] == done;
        for i := 0 to |rest|
          invariant nodes[..] == PushAll(Empty(capacity), hash, done + rest[..i])
        {
          var index := hash(rest[i].key) % capacity;
          PushAllAppend(Empty(capacity), hash, done + rest[..i], [rest[i]]);
          assert done + rest[..i + 1] == done + rest[..i] + [rest[i]];
          assert [rest[i]][1..] == [];
          nodes[index] := [rest[i]] + nodes[index];
        }
        assert rest[..|rest|] == rest;
        assert old_[..chain + 1][..chain] == old_[..chain];
      }
      assert old_[..old_.Length] == old_[..];
    }

    /** _ht_resize: small requests are raised to the minimum, or ignored at the minimum. */
    method Resize(newCapacity: nat)
      requires Valid()
      modifies this, nodes
      ensures fresh(nodes) || nodes == old(nodes)
      ensures size == old(size) && (size <= capacity ==> Valid())
      ensures nodes.Length > 0 && forall k :: Get(k) == old(Get(k))
      ensures capacity == if newCapacity >= MINIMUM_CAPACITY then newCapacity else MINIMUM_CAPACITY
    {
      var cap := newCapacity;
      if cap < MINIMUM_CAPACITY {
        if capacity > MINIMUM_CAPACITY {
          cap := MINIMUM_CAPACITY;
        } else {
          return;
        }
      }
      var old_ := nodes;
      ghost var chains := nodes[..];
      nodes := new seq<Node<K, V>>[cap](_ => []);
      capacity := cap;
      threshold := cap * LOAD_FACTOR;
      assert nodes[..] == Empty(cap);
      Rehash(old_);
      RehashKeeps(chains, hash, cap);
    }

    method Insert(k: K, v: V) returns (r: InsertResult)
      requires Valid()
      modifies this, nodes
      ensures Valid() && (fresh(nodes) || nodes == old(nodes))
      ensures r == if old(Get(k)).Some? then Updated else Inserted
      ensures size == old(size) + if r == Inserted then 1 else 0
      ensures capacity == if old(size) == old(capacity) then 2 * old(capacity) else old(capacity)
      ensures forall q :: Get(q) == if q == k then Some(v) else old(Get(q))
    {
      if size == capacity {
        Resize(size * GROWTH_FACTOR);
      }
      r := Put(k, v);
    }

    /** The part of ht_insert after growing. */
    method Put(k: K, v: V) returns (r: InsertResult)
      requires Valid() && size < capacity
      modifies this`size, nodes
      ensures Valid()
      ensures r == if old(Get(k)).Some? then Updated else Inserted
      ensures size == old(size) + if r == Inserted then 1 else 0
      ensures forall q :: Get(q) == if q == k then Some(v) else old(Get(q))
    {
      var index := hash(k) % capacity;
      var chain := nodes[index];
      ghost var chains := nodes[..];
      var i := Scan(chain, k);
      if i < |chain| {
        var n := Node(k, v);
        nodes[index] := chain[i := n];
        ReplaceKeeps(chains, hash, index, i, v);
        assert nodes[..] == chains[index := chain[i := n]];
        return Updated;
      }
      nodes[index] := [Node(k, v)] + chain;
      FindNone(chain, k);
      PushKeeps(chains, hash, Node(k, v));
      assert nodes[..] == Push(chains, hash, Node(k, v));
      size := size + 1;
      return Inserted;
    }

    static method Scan(chain: seq<Node<K, V>>, k: K) returns (i: nat)
      ensures i <= |chain| && (forall j | 0 <= j < i :: chain[j].key != k)
      ensures i < |chain| ==> chain[i].key == k
    {
      i := 0;
      while i < |chain| && chain[i].key != k
        invariant i <= |chain| && forall j | 0 <= j < i :: chain[j].key != k
      {
        i := i + 1;
      }
    }

    /** The two return codes are the same number, so only the size tells whether the key was there. */
    method Erase(k: K) returns (code: int)
      requires Valid()
      modifies this, nodes
      ensures Valid() && (fresh(nodes) || nodes == old(nodes))
      ensures code == SUCCESS == NOT_FOUND
      ensures size == old(size) - if old(Get(k)).Some? then 1 else 0
      ensures capacity == if old(Get(k)).Some? && size == 0 then MINIMUM_CAPACITY else old(capacity)
      ensures forall q :: Get(q) == if q == k then None else old(Get(q))
    {
      var found := Unlink(k);
      if !found {
        return NOT_FOUND;
      }
      code := SUCCESS;
      if size == capacity * SHRINK_THRESHOLD {
        Resize(size * GROWTH_FACTOR);
      }
    }

    /** The part of ht_erase before shrinking. */
    method Unlink(k: K) returns (found: bool)
      requires Valid()
      modifies this`size, nodes
      ensures Valid()
      ensures found <==> old(Get(k)).Some?
      ensures size == old(size) - if found then 1 else 0
      ensures forall q :: Get(q) == if q == k then None else old(Get(q))
    {
      var index := hash(k) % capacity;
      var chain := nodes[index];
      ghost var chains := nodes[..];
      var i := Scan(chain, k);
      FindNone(chain, k);
      if i == |chain| {
        return false;
      }
      nodes[index] := chain[..i] + chain[i + 1..];
      RemoveKeeps(chains, hash, index, i);
      assert nodes[..] == chains[index := chain[..i] + chain[i + 1..]];
      size := size - 1;
      return true;
    }

    method Clear()
      requires Valid()
      modifies this
      ensures Valid() && fresh(nodes)
      ensures size == 0 && capacity == MINIMUM_CAPACITY && forall k :: Get(k).None?
    {
      nodes := new seq<Node<K, V>>[MINIMUM_CAPACITY](_ => []);
      capacity := MINIMUM_CAPACITY;
      threshold := MINIMUM_CAPACITY * LOAD_FACTOR;
      size := 0;
      TotalEmpty(nodes[..]);
    }

    method Reserve(minimum: nat)
      requires Valid()
      modifies this, nodes
      ensures Valid() && (fresh(nodes) || nodes == old(nodes))
      ensures size == old(size) && capacity >= old(capacity)
      ensures capacity * LOAD_FACTOR <= minimum < (capacity + 1) * LOAD_FACTOR || capacity == old(capacity)
      ensures capacity == old(capacity) ==> minimum < (capacity + 1) * LOAD_FACTOR
      ensures forall k :: Get(k) == old(Get(k))
    {
      if minimum > threshold {
        Resize(minimum / LOAD_FACTOR);
      }
    }

    /** The copying loop: same number of chains, so each node is pushed onto the chain it came from. */
    method CopyNodes(second: Table<K, V>)
      requires second.Valid() && second.nodes != nodes
      requires capacity == second.capacity && hash == second.hash && nodes[..] == Empty(capacity)
      modifies nodes
      ensures nodes[..] == PushAll(Empty(capacity), hash, Flatten(second.nodes[..]))
    {
      for chain := 0 to second.capacity
        invariant nodes[..] == PushAll(Empty(capacity), hash, Flatten(second.nodes[..chain]))
      {
        assert second.nodes[chain] == second.nodes[..][chain];
        CopyChain(second.nodes[chain], chain, Flatten(second.nodes[..chain]));
        assert second.nodes[..chain + 1][..chain] == second.nodes[..chain];
      }
      assert second.nodes[..second.capacity] == second.nodes[..];
    }

    method CopyChain(list: seq<Node<K, V>>, chain: nat, ghost before: seq<Node<K, V>>)
      requires capacity == nodes.Length && chain < capacity
      requires forall i | 0 <= i < |list| :: hash(list[i].key) % capacity == chain
      requires nodes[..] == PushAll(Empty(capacity), hash, before)
      modifies nodes
      ensures nodes[..] == PushAll(Empty(capacity), hash, before + list)
    {
      assert before + list[..0] == before;
      for i := 0 to |list|
        invariant nodes[..] == PushAll(Empty(capacity), hash, before + list[..i])
      {
        PushAllAppend(Empty(capacity), hash, before + list[..i], [list[i]]);
        assert before + list[..i + 1] == before + list[..i] + [list[i]];
        assert [list[i]][1..] == [];
        nodes[chain] := [list[i]] + nodes[chain];
      }
      assert list[..|list|] == list;
    }

    /** ht_copy. */
    constructor Copy(second: Table<K, V>)
      requires second.Valid()
      ensures Valid() && fresh(nodes) && hash == second.hash
      ensures size == second.size && capacity == second.capacity
      ensures forall k :: Get(k) == second.Get(k)
    {
      hide PushAll, Flatten, Total, Find, UniqueKeys;
      hash, size, threshold, capacity := second.hash, second.size, second.threshold, second.capacity;
      nodes := new seq<Node<K, V>>[second.capacity](_ => []);
      new;
      assert nodes[..] == Empty(capacity);
      CopyNodes(second);
      RehashKeeps(second.nodes[..], hash, capacity);
    }
  }

  lemma ReplaceKeeps<K(!new), V(!new)>(chains: seq<seq<Node<K, V>>>, hash: K -> nat, c: nat, i: nat, v: V)
    requires Placed(chains, hash) && c < |chains| && i < |chains[c]|
    ensures var k := chains[c][i].key;
            var r := chains[c := chains[c][i := Node(k, v)]];
            && Placed(r, hash) && Total(r) == Total(chains) && Lookup(chains, hash, k).Some?
            && forall q :: Lookup(r, hash, q) == if q == k then Some(v) else Lookup(chains, hash, q)
  {
    var chain, k := chains[c], chains[c][i].key;
    FindAt(chain, i);
    forall q ensures UniqueKeys(chain[i := Node(k, v)])
      && Find(chain[i := Node(k, v)], q) == if q == k then Some(v) else Find(chain, q) {
      FindReplaced(chain, i, v, q);
    }
    FindReplaced(chain, i, v, k);
    PlacedUpdate(chains, hash, c, chain[i := Node(k, v)]);
    TotalUpdate(chains, c, chain[i := Node(k, v)]);
  }

  lemma RemoveKeeps<K(!new), V(!new)>(chains: seq<seq<Node<K, V>>>, hash: K -> nat, c: nat, i: nat)
    requires Placed(chains, hash) && c < |chains| && i < |chains[c]|
    ensures var k := chains[c][i].key;
            var r := chains[c := chains[c][..i] + chains[c][i + 1..]];
            && Placed(r, hash) && Total(r) == Total(chains) - 1 && Lookup(chains, hash, k).Some?
            && forall q :: Lookup(r, hash, q) == if q == k then None else Lookup(chains, hash, q)
  {
    var chain, k := chains[c], chains[c][i].key;
    var rest := chain[..i] + chain[i + 1..];
    FindAt(chain, i);
    RemovedUnique(chain, i);
    forall q ensures Find(rest, q) == if q == k then None else Find(chain, q) {
      FindRemoved(chain, i, q);
    }
    assert forall j | 0 <= j < |rest| :: rest[j] == if j < i then chain[j] else chain[j + 1];
    PlacedUpdate(chains, hash, c, rest);
    TotalUpdate(chains, c, rest);
  }
}
