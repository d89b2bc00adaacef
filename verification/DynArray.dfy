/** dyn_array.c: a growing buffer whose capacity always leaves one slot of slack. */
module DynArray {

  class Array<T(0)> {
    var elements: array<T>   // NULL before the first allocation: no slots
    var len: nat
    var head: nat            // the capacity counter

    ghost predicate Valid()
      reads this
    {
      && 1 <= head && len <= head - 1
      && elements.Length == (if head == 1 then 0 else head)
    }

    ghost function Contents(): seq<T>
      requires Valid()
      reads this, elements
    {
      elements[..len]
    }

    constructor ()
      ensures Valid() && fresh(elements) && Contents() == []
    {
      elements := new T[0];
      head, len := 1, 0;
    }

    method Reserve()
      requires Valid()
      modifies `elements, `head
      ensures Valid() && len < head - 1 && Contents() == old(Contents())
      ensures elements == old(elements) || fresh(elements)
      ensures head == if old(len) >= old(head) - 1 then 2 * old(head) else old(head)
    {
      if len >= head - 1 {
        var n := new T[head * 2];
        for i := 0 to len
          modifies n
          invariant n[..i] == elements[..i]
        {
          n[i] := elements[i];
        }
        elements := n;
        head := head * 2;
      }
    }

    method Push(x: T)
      requires Valid()
      modifies this, elements
      ensures Valid() && Contents() == old(Contents()) + [x]
      ensures elements == old(elements) || fresh(elements)
    {
      Reserve();
      elements[len] := x;
      len := len + 1;
    }

    method Insert(index: nat, x: T) returns (ok: bool)
      requires Valid()
      modifies this, elements
      ensures Valid() && (elements == old(elements) || fresh(elements))
      ensures ok <==> index <= old(len)
      ensures Contents() == if ok then old(Contents())[..index] + [x] + old(Contents())[index..] else old(Contents())
    {
      if index > len {
        return false;
      }
      ghost var was := Contents();
      Reserve();
      ShiftUp(index);
      assert elements[..index] == was[..index];
      assert elements[index + 1..len + 1] == was[index..];
      elements[index] := x;
      len := len + 1;
      assert elements[..len] == elements[..index] + [elements[index]] + elements[index + 1..len];
      return true;
    }

    /** memmove one slot up, from the end. */
    method ShiftUp(index: nat)
      requires Valid() && index <= len < head - 1
      modifies elements
      ensures elements[..index] == old(elements[..index])
      ensures elements[index + 1..len + 1] == old(elements[index..len])
    {
      ghost var was := elements[..];
      var i := len;
      while i > index
        invariant index <= i <= len
        invariant forall j | 0 <= j < i :: elements[j] == was[j]
        invariant forall j | i < j <= len :: elements[j] == was[j - 1]
      {
        elements[i] := elements[i - 1];
        i := i - 1;
      }
    }

    method Remove(index: nat) returns (ok: bool)
      requires Valid()
      modifies `len, elements
      ensures Valid()
      ensures ok <==> index < old(len)
      ensures Contents() == if ok then old(Contents())[..index] + old(Contents())[index + 1..] else old(Contents())
    {
      if len <= index {
        return false;
      }
      ghost var was := elements[..];
      for i := index to len - 1
        modifies elements
        invariant forall j | 0 <= j < index :: elements[j] == was[j]
        invariant forall j | index <= j < i :: elements[j] == was[j + 1]
        invariant forall j | i <= j < len :: elements[j] == was[j]
      {
        elements[i] := elements[i + 1];
      }
      len := len - 1;
      return true;
    }
  }
}
