/** Positional insertion and removal on sequences: the abstract meaning of
    the list's indexed add and remove. */
module Positions {

  /** `s` with `x` inserted so that it becomes the element at position `i`. */
  function InsertAt<T>(s: seq<T>, i: int, x: T): (r: seq<T>)
    requires 0 <= i <= |s|
    ensures |r| == |s| + 1
    ensures r[i] == x
    ensures forall k :: 0 <= k < i ==> r[k] == s[k]
    ensures forall k :: i < k < |r| ==> r[k] == s[k - 1]
  {
    seq(|s| + 1, k requires 0 <= k < |s| + 1 => if k < i then s[k] else if k == i then x else s[k - 1])
  }

  /** `s` with the element at position `i` excised. */
  function RemoveAt<T>(s: seq<T>, i: int): (r: seq<T>)
    requires 0 <= i < |s|
    ensures |r| == |s| - 1
    ensures forall k :: 0 <= k < i ==> r[k] == s[k]
    ensures forall k :: i <= k < |r| ==> r[k] == s[k + 1]
  {
    seq(|s| - 1, k requires 0 <= k < |s| - 1 => if k < i then s[k] else s[k + 1])
  }

  /** Insertion is splitting `s` at `i` and putting `x` between the halves. */
  lemma InsertAtSlices<T>(s: seq<T>, i: int, x: T)
    requires 0 <= i <= |s|
    ensures InsertAt(s, i, x) == s[..i] + [x] + s[i..]
  {
  }

  /** Removal is joining the part of `s` before `i` to the part after it. */
  lemma RemoveAtSlices<T>(s: seq<T>, i: int)
    requires 0 <= i < |s|
    ensures RemoveAt(s, i) == s[..i] + s[i + 1..]
  {
  }

  /** Removing what was just inserted gives back the original sequence. */
  lemma RemoveAtInsertAt<T>(s: seq<T>, i: int, x: T)
    requires 0 <= i <= |s|
    ensures RemoveAt(InsertAt(s, i, x), i) == s
  {
  }

  /** Re-inserting a removed element at its position restores the sequence. */
  lemma InsertAtRemoveAt<T>(s: seq<T>, i: int)
    requires 0 <= i < |s|
    ensures InsertAt(RemoveAt(s, i), i, s[i]) == s
  {
  }

  /** Insertion at either end is prepending or appending. */
  lemma InsertAtEnds<T>(s: seq<T>, x: T)
    ensures InsertAt(s, 0, x) == [x] + s
    ensures InsertAt(s, |s|, x) == s + [x]
  {
  }

  /** Removal at either end drops the first or the last element. */
  lemma RemoveAtEnds<T>(s: seq<T>)
    requires |s| > 0
    ensures RemoveAt(s, 0) == s[1..]
    ensures RemoveAt(s, |s| - 1) == s[..|s| - 1]
  {
  }

  /** No element occurs twice. */
  ghost predicate Distinct<T>(s: seq<T>)
  {
    forall j, k :: 0 <= j < k < |s| ==> s[j] != s[k]
  }

  /** Inserting an element that does not yet occur keeps the elements distinct. */
  lemma DistinctInsertAt<T>(s: seq<T>, i: int, x: T)
    requires 0 <= i <= |s| && Distinct(s) && x !in s
    ensures Distinct(InsertAt(s, i, x))
  {
  }

  /** Removing an element keeps the rest distinct, and the removed one no
      longer occurs. */
  lemma DistinctRemoveAt<T>(s: seq<T>, i: int)
    requires 0 <= i < |s| && Distinct(s)
    ensures Distinct(RemoveAt(s, i))
    ensures s[i] !in RemoveAt(s, i)
  {
  }
}
