/** The growing ring buffer of prot_queue.c as one thread sees it under the lock. */
module RingQueue {
  import opened Types

  const INITIAL: nat := 1024

  ghost predicate Distinct<T>(s: seq<T>) {
    forall i, j | 0 <= i < j < |s| :: s[i] != s[j]
  }

  /** `x % n` for the indices that occur, which are below 2 * n. */
  function Wrap(x: nat, n: nat): nat { if x < n then x else if x < 2 * n then x - n else 0 }

  lemma MulGrows(k: nat, n: nat)
    requires k >= 1
    ensures k * n >= n
  {}

  lemma ModIsWrap(x: nat, n: nat)
    requires 0 < n && x < 2 * n
    ensures x % n == Wrap(x, n) < n
  {
    var q := x / n;
    assert x == q * n + x % n;
    if q >= 2 {
      MulGrows(q - 1, n);
    }
  }

  /** The `count` elements from `head` on, around the end of the storage. */
  function Unroll<T>(slots: seq<T>, head: nat, count: nat): (s: seq<T>)
    requires head < |slots| && count <= |slots|
    ensures |s| == count
  {
    if head + count <= |slots| then slots[head..head + count]
    else slots[head..] + slots[..head + count - |slots|]
  }

  lemma UnrollAt<T>(slots: seq<T>, head: nat, count: nat, i: nat)
    requires head < |slots| && count <= |slots| && i < count
    ensures Wrap(head + i, |slots|) < |slots|
    ensures Unroll(slots, head, count)[i] == slots[Wrap(head + i, |slots|)]
  {}

  lemma UnrollPop<T>(slots: seq<T>, head: nat, count: nat)
    requires head < |slots| && 0 < count <= |slots|
    ensures Unroll(slots, head, count)[0] == slots[head]
    ensures Unroll(slots, Wrap(head + 1, |slots|), count - 1) == Unroll(slots, head, count)[1..]
  {}

  lemma UnrollPush<T>(slots: seq<T>, head: nat, count: nat, x: T)
    requires head < |slots| && count < |slots|
    ensures Unroll(slots[Wrap(head + count, |slots|) := x], head, count + 1) == Unroll(slots, head, count) + [x]
  {}

  class Queue<T(0, ==)> {
    var slots: array<T>
    var head: nat
    var tail: nat
    var count: nat

    ghost predicate Valid()
      reads this
    {
      && 0 < slots.Length && head < slots.Length && count <= slots.Length
      && tail == (head + count) % slots.Length
    }

    /** The queued elements, front first. */
    ghost function Contents(): (s: seq<T>)
      requires Valid()
      reads this, slots
      ensures |s| == count
    {
      Unroll(slots[..], head, count)
    }

    constructor ()
      ensures Valid() && fresh(slots) && Contents() == [] && slots.Length == INITIAL
    {
      slots := new T[INITIAL];
      head, tail, count := 0, 0, 0;
    }

    /** Doubles the storage and straightens the queue out, from any wrapped position. */
    method Grow()
      requires Valid() && count == slots.Length
      modifies this
      ensures Valid() && fresh(slots) && Contents() == old(Contents())
      ensures slots.Length == 2 * old(slots.Length) && head == 0
    {
      var data := Straightened(slots.Length * 2);
      ghost var was := Contents();
      slots := data;
      head, tail := 0, count;
      assert slots[..][0..count] == slots[..count] == was;
    }

    /** The copy loop of the growth step. */
    method Straightened(newCap: nat) returns (data: array<T>)
      requires Valid() && count <= newCap
      ensures fresh(data) && data.Length == newCap && data[..count] == Contents()
    {
      var oldCap := slots.Length;
      data := new T[newCap];
      for i := 0 to count
        modifies data
        invariant data[..i] == Contents()[..i]
      {
        ModIsWrap(head + i, oldCap);
        UnrollAt(slots[..], head, count, i);
        data[i] := slots[(head + i) % oldCap];
        assert Contents()[..i + 1] == Contents()[..i] + [Contents()[i]];
      }
      assert Contents()[..count] == Contents();
    }

    method Push(x: T)
      requires Valid()
      modifies this, slots
      ensures Valid() && (fresh(slots) || slots == old(slots))
      ensures Contents() == old(Contents()) + [x]
    {
      if count == slots.Length {
        Grow();
      }
      Store(x);
    }

    method Store(x: T)
      requires Valid() && count < slots.Length
      modifies `tail, `count, slots
      ensures Valid() && Contents() == old(Contents()) + [x]
    {
      ghost var was := slots[..];
      ModIsWrap(head + count, slots.Length);
      UnrollPush(was, head, count, x);
      slots[tail] := x;
      ModIsWrap(tail + 1, slots.Length);
      ModIsWrap(head + (count + 1), slots.Length);
      tail := (tail + 1) % slots.Length;
      count := count + 1;
      assert slots[..] == was[Wrap(head + (count - 1), slots.Length) := x];
    }

    method Pop() returns (r: Option<T>)
      requires Valid()
      modifies `head, `count
      ensures Valid()
      ensures if old(Contents()) == [] then r == None && Contents() == []
              else r == Some(old(Contents())[0]) && Contents() == old(Contents())[1..]
    {
      if count == 0 {
        return None;
      }
      r := Some(slots[head]);
      UnrollPop(slots[..], head, count);
      ModIsWrap(head + 1, slots.Length);
      ModIsWrap(head + count, slots.Length);
      ModIsWrap((head + 1) % slots.Length + (count - 1), slots.Length);
      head := (head + 1) % slots.Length;
      count := count - 1;
    }

    /** The scan of upush. */
    method Holds(x: T) returns (found: bool)
      requires Valid()
      ensures found <==> x in Contents()
    {
      for i := 0 to count
        invariant x !in Contents()[..i]
      {
        ModIsWrap(head + i, slots.Length);
        UnrollAt(slots[..], head, count, i);
        var idx := (head + i) % slots.Length;
        if slots[idx] == x {
          return true;
        }
        assert Contents()[..i + 1] == Contents()[..i] + [Contents()[i]];
      }
      assert Contents()[..count] == Contents();
      return false;
    }

    /** Pushes only what is not queued yet. */
    method UPush(x: T)
      requires Valid()
      modifies this, slots
      ensures Valid() && (fresh(slots) || slots == old(slots))
      ensures Contents() == UPushed(old(Contents()), x)
    {
      var found := Holds(x);
      if !found {
        Push(x);
      }
    }
  }

  // --------------------------------------------------------- sequences of operations

  datatype Op<T> = Push(x: T) | UPush(x: T) | Pop

  function UPushed<T(==)>(s: seq<T>, x: T): seq<T> { if x in s then s else s + [x] }

  function Contents<T(==)>(ops: seq<Op<T>>): seq<T>
    decreases |ops|
  {
    if ops == [] then []
    else
      var s := Contents(ops[..|ops| - 1]);
      match ops[|ops| - 1]
      case Push(x) => s + [x]
      case UPush(x) => UPushed(s, x)
      case Pop => if s == [] then s else s[1..]
  }

  /** Everything popped so far, in order. */
  function Popped<T(==)>(ops: seq<Op<T>>): seq<T>
    decreases |ops|
  {
    if ops == [] then []
    else
      var s := Contents(ops[..|ops| - 1]);
      Popped(ops[..|ops| - 1]) + if ops[|ops| - 1].Pop? && s != [] then [s[0]] else []
  }

  function Pushed<T>(ops: seq<Op<T>>): seq<T>
    decreases |ops|
  {
    if ops == [] then []
    else Pushed(ops[..|ops| - 1]) + if ops[|ops| - 1].Push? then [ops[|ops| - 1].x] else []
  }

  /** First in, first out: over any run of pushes and pops, what came out and what is left is what went in. */
  lemma {:induction false} FifoConserves<T>(ops: seq<Op<T>>)
    requires forall i | 0 <= i < |ops| :: !ops[i].UPush?
    ensures Popped(ops) + Contents(ops) == Pushed(ops)
    decreases |ops|
  {
    if ops != [] {
      var front := ops[..|ops| - 1];
      FifoConserves(front);
      var s := Contents(front);
      if ops[|ops| - 1].Pop? && s != [] {
        assert s == [s[0]] + s[1..];
      }
    }
  }

  /** A queue fed only by upush never holds two equal elements. */
  lemma {:induction false} UPushKeepsDistinct<T>(ops: seq<Op<T>>)
    requires forall i | 0 <= i < |ops| :: !ops[i].Push?
    ensures Distinct(Contents(ops))
    decreases |ops|
  {
    if ops != [] {
      UPushKeepsDistinct(ops[..|ops| - 1]);
    }
  }
}
