/** A double-ended queue kept in one owned doubly linked list: the front
    of the deque is position 0 of the list and the back is position
    `size - 1`. */
module Deque {
  import opened Outcomes
  import opened Positions
  import opened LinkedList

  class DLLDeque<T> {
    /** The list holding the elements, front first. */
    const elements: DoubleLinkedList<T>

    /** The deque object together with everything its list is made of. */
    ghost var Repr: set<object>

    ghost predicate Valid()
      reads this, Repr
    {
      this in Repr
      && elements in Repr
      && elements.Repr <= Repr
      && this !in elements.Repr
      && elements.Valid()
    }

    /** The elements, front first. */
    ghost function Contents(): seq<T>
      reads elements
    {
      elements.Contents
    }

    constructor()
      ensures Valid() && fresh(Repr)
      ensures Contents() == []
    {
      var list := new DoubleLinkedList<T>();
      elements := list;
      new;
      Repr := {this} + list.Repr;
    }

    method Size() returns (n: int)
      requires Valid()
      ensures n == |Contents()|
    {
      n := elements.Size();
    }

    method IsEmpty() returns (empty: bool)
      requires Valid()
      ensures empty <==> Contents() == []
    {
      empty := elements.IsEmpty();
    }

    /** Pushes `x` onto the front: an add at position 0. */
    method AddFirst(x: T)
      requires Valid()
      modifies Repr
      ensures Valid() && fresh(Repr - old(Repr))
      ensures Contents() == [x] + old(Contents())
    {
      var status := elements.Add(0, x);
      InsertAtEnds(old(Contents()), x);
      Repr := Repr + elements.Repr;
    }

    /** Takes the front element off: a remove at position 0, which fails on
        an empty deque. */
    method RemoveFirst() returns (r: Result<T>)
      requires Valid()
      modifies Repr
      ensures Valid() && fresh(Repr - old(Repr))
      ensures r == if old(Contents()) == [] then Err(IndexOutOfBounds) else Ok(old(Contents())[0])
      ensures r.Ok? ==> Contents() == old(Contents())[1..]
      ensures r.Err? ==> Contents() == old(Contents())
    {
      r := elements.Remove(0);
      if r.Ok? {
        RemoveAtEnds(old(Contents()));
      }
    }

    /** The front element, or a failure on an empty deque. */
    method PeekFirst() returns (r: Result<T>)
      requires Valid()
      ensures r == if Contents() == [] then Err(IndexOutOfBounds) else Ok(Contents()[0])
    {
      r := elements.Get(0);
    }

    /** Appends `x` at the back: an add at position `size`. */
    method AddLast(x: T)
      requires Valid()
      modifies Repr
      ensures Valid() && fresh(Repr - old(Repr))
      ensures Contents() == old(Contents()) + [x]
    {
      var n := elements.Size();
      var status := elements.Add(n, x);
      InsertAtEnds(old(Contents()), x);
      Repr := Repr + elements.Repr;
    }

    /** Takes the back element off: a remove at position `size - 1`, which
        fails on an empty deque. */
    method RemoveLast() returns (r: Result<T>)
      requires Valid()
      modifies Repr
      ensures Valid() && fresh(Repr - old(Repr))
      ensures r == if old(Contents()) == [] then Err(IndexOutOfBounds) else Ok(old(Contents())[|old(Contents())| - 1])
      ensures r.Ok? ==> Contents() == old(Contents())[..|old(Contents())| - 1]
      ensures r.Err? ==> Contents() == old(Contents())
    {
      var n := elements.Size();
      r := elements.Remove(n - 1);
      if r.Ok? {
        RemoveAtEnds(old(Contents()));
      }
    }

    /** The back element, or a failure on an empty deque. */
    method PeekLast() returns (r: Result<T>)
      requires Valid()
      ensures r == if Contents() == [] then Err(IndexOutOfBounds) else Ok(Contents()[|Contents()| - 1])
    {
      var n := elements.Size();
      r := elements.Get(n - 1);
    }
  }
}
