/** The add-and-remove scenario run against a deque: fill it from one end,
    drain it from the same end (last in, first out), then fill it from the
    front and drain it from the front. Each step checks `size` and the
    values returned, and the scenario passes when every check holds. The
    values are a parameter here rather than drawn from a random generator. */
module DequeTester {
  import opened Outcomes
  import opened Deque

  /** Appends `values` in order with `AddLast`, checking that `size` grows
      by one each time. */
  method PopulateFromBack(deque: DLLDeque<int>, values: seq<int>) returns (passed: bool)
    requires deque.Valid() && deque.Contents() == []
    modifies deque.Repr
    ensures deque.Valid() && fresh(deque.Repr - old(deque.Repr))
    ensures passed
    ensures deque.Contents() == values
  {
    passed := true;
    for i := 0 to |values|
      invariant deque.Valid() && fresh(deque.Repr - old(deque.Repr))
      invariant deque.Contents() == values[..i]
      invariant passed
    {
      deque.AddLast(values[i]);
      assert values[..i + 1] == values[..i] + [values[i]];
      var n := deque.Size();
      passed := passed && n == i + 1;
    }
    assert values[..|values|] == values;
  }

  /** Drains a deque holding `values` from the back: `PeekLast` and
      `RemoveLast` both yield the values last to first, and `size` shrinks
      by one each time. */
  method RemoveFromBack(deque: DLLDeque<int>, values: seq<int>) returns (passed: bool)
    requires deque.Valid() && deque.Contents() == values
    modifies deque.Repr
    ensures deque.Valid() && fresh(deque.Repr - old(deque.Repr))
    ensures passed
    ensures deque.Contents() == []
  {
    passed := true;
    var i := |values| - 1;
    while i >= 0
      invariant -1 <= i < |values|
      invariant deque.Valid() && fresh(deque.Repr - old(deque.Repr))
      invariant deque.Contents() == values[..i + 1]
      invariant passed
    {
      assert values[..i + 1][..i] == values[..i];
      var peeked := deque.PeekLast();
      var removed := deque.RemoveLast();
      var n := deque.Size();
      passed := passed && peeked == Ok(values[i]) && removed == Ok(values[i]) && n == i;
      i := i - 1;
    }
  }

  /** Pushes `values` last to first with `AddFirst`, so that the deque ends
      up holding them in order, checking `size` after each push. */
  method PopulateFromFront(deque: DLLDeque<int>, values: seq<int>) returns (passed: bool)
    requires deque.Valid() && deque.Contents() == []
    modifies deque.Repr
    ensures deque.Valid() && fresh(deque.Repr - old(deque.Repr))
    ensures passed
    ensures deque.Contents() == values
  {
    passed := true;
    var i := |values| - 1;
    while i >= 0
      invariant -1 <= i < |values|
      invariant deque.Valid() && fresh(deque.Repr - old(deque.Repr))
      invariant deque.Contents() == values[i + 1..]
      invariant passed
    {
      deque.AddFirst(values[i]);
      assert values[i..] == [values[i]] + values[i + 1..];
      var n := deque.Size();
      passed := passed && n == |values| - i;
      i := i - 1;
    }
  }

  /** Drains a deque holding `values` from the front: `PeekFirst` and
      `RemoveFirst` both yield the values first to last, and `size` shrinks
      by one each time. */
  method RemoveFromFront(deque: DLLDeque<int>, values: seq<int>) returns (passed: bool)
    requires deque.Valid() && deque.Contents() == values
    modifies deque.Repr
    ensures deque.Valid() && fresh(deque.Repr - old(deque.Repr))
    ensures passed
    ensures deque.Contents() == []
  {
    passed := true;
    for i := 0 to |values|
      invariant deque.Valid() && fresh(deque.Repr - old(deque.Repr))
      invariant deque.Contents() == values[i..]
      invariant passed
    {
      var peeked := deque.PeekFirst();
      var removed := deque.RemoveFirst();
      var n := deque.Size();
      passed := passed && peeked == Ok(values[i]) && removed == Ok(values[i]) && n == |values| - i - 1;
    }
  }

  /** The whole scenario on an empty deque: it passes, and the deque is empty
      again afterwards. */
  method TestAddRemove(deque: DLLDeque<int>, values: seq<int>) returns (passed: bool)
    requires deque.Valid() && deque.Contents() == []
    modifies deque.Repr
    ensures deque.Valid() && fresh(deque.Repr - old(deque.Repr))
    ensures passed
    ensures deque.Contents() == []
  {
    passed := PopulateFromBack(deque, values);
    var drained := RemoveFromBack(deque, values);
    var refilled := PopulateFromFront(deque, values);
    var emptied := RemoveFromFront(deque, values);
    passed := passed && drained && refilled && emptied;
  }
}
