/** A doubly linked list with 0-based indexed get, set, add and remove,
    caching its size and its head and tail nodes. */
module LinkedList {
  import opened Outcomes
  import opened Positions

  /** One cell of the chain. `index` is the diagnostic position marker the
      list renumbers after every structural change. */
  class Node<T> {
    var next: Node?<T>
    var prev: Node?<T>
    var value: T
    var index: int

    constructor (value: T)
      ensures this.value == value
      ensures next == null && prev == null && index == 0
    {
      this.value := value;
      next := null;
      prev := null;
      index := 0;
    }
  }

  /** The node reached from `start` by `k` forward steps along `next`,
      or null once the chain has run out. */
  ghost function Walk<T>(start: Node?<T>, k: nat): Node?<T>
    reads *
  {
    if k == 0 then start
    else
      var p := Walk(start, k - 1);
      if p == null then null else p.next
  }

  /** Each node's `next` is the following node and the last one's is null. */
  ghost predicate Chained<T>(ns: seq<Node<T>>)
    reads ns`next
  {
    (forall k {:trigger ns[k].next} :: 0 <= k < |ns| - 1 ==> ns[k].next == ns[k + 1])
    && (|ns| > 0 ==> ns[|ns| - 1].next == null)
  }

  /** The back links hold only this much: the first node has none and every
      other node's `prev` is either null or its true predecessor (prepending
      never points the former head back at the new one). */
  ghost predicate BackLinked<T>(ns: seq<Node<T>>)
    reads ns`prev
  {
    (|ns| > 0 ==> ns[0].prev == null)
    && (forall k {:trigger ns[k].prev} :: 0 < k < |ns| ==> ns[k].prev == null || ns[k].prev == ns[k - 1])
  }

  /** The nodes hold the values `vs`, in order. */
  ghost predicate Holds<T>(ns: seq<Node<T>>, vs: seq<T>)
    reads ns`value
  {
    |vs| == |ns| && forall k :: 0 <= k < |ns| ==> ns[k].value == vs[k]
  }

  /** Each node's `index` is its position. */
  ghost predicate Numbered<T>(ns: seq<Node<T>>)
    reads ns`index
  {
    forall k :: 0 <= k < |ns| ==> ns[k].index == k
  }

  /* The splice lemmas below relate the chain before an operation (the `old`
     state) to the chain after its link assignments, one node at a time,
     so that the operations themselves only name the few nodes they touch. */

  /** Linking `addNode` in at position `i` (after `ns[i - 1]`, or in front
      when `i == 0`) yields the forward chain of the extended sequence. */
  twostate lemma InsertChained<T>(new ns: seq<Node<T>>, i: int, new addNode: Node<T>)
    requires old(allocated(ns)) && old(Chained(ns)) && addNode !in ns
    requires 0 <= i <= |ns|
    requires forall k {:trigger ns[k].next} :: 0 <= k < |ns| && k != i - 1 ==> ns[k].next == old(ns[k].next)
    requires i > 0 ==> ns[i - 1].next == addNode
    requires addNode.next == if i < |ns| then ns[i] else null
    ensures Chained(InsertAt(ns, i, addNode))
  {
    var r := InsertAt(ns, i, addNode);
    forall k | 0 <= k < |r| - 1
      ensures r[k].next == r[k + 1]
    {
      if k < i - 1 {
        assert r[k] == ns[k] && r[k + 1] == ns[k + 1];
      } else if k > i {
        assert r[k] == ns[k - 1] && r[k + 1] == ns[k];
      }
    }
  }

  /** The same splice keeps the weak back links: the new node points back at
      its predecessor (or nowhere, at the front), and so does its successor
      unless the splice is at the front, where the successor keeps its null. */
  twostate lemma InsertBackLinked<T>(new ns: seq<Node<T>>, i: int, new addNode: Node<T>)
    requires old(allocated(ns)) && old(BackLinked(ns)) && addNode !in ns
    requires 0 <= i <= |ns|
    requires forall k {:trigger ns[k].prev} :: 0 <= k < |ns| && (i == 0 || k != i) ==> ns[k].prev == old(ns[k].prev)
    requires addNode.prev == if i == 0 then null else ns[i - 1]
    requires 0 < i < |ns| ==> ns[i].prev == addNode
    ensures BackLinked(InsertAt(ns, i, addNode))
  {
    var r := InsertAt(ns, i, addNode);
    forall k | 0 < k < |r|
      ensures r[k].prev == null || r[k].prev == r[k - 1]
    {
      if k < i {
        assert r[k] == ns[k] && r[k - 1] == ns[k - 1];
      } else if k > i + 1 {
        assert r[k] == ns[k - 1] && r[k - 1] == ns[k - 2];
      }
    }
  }

  /** Bypassing `ns[i]` (by pointing `ns[i - 1]` at its successor; at the
      front only `head` moves) yields the forward chain of the shortened
      sequence. */
  twostate lemma RemoveChained<T>(new ns: seq<Node<T>>, i: int)
    requires old(allocated(ns)) && old(Chained(ns))
    requires 0 <= i < |ns|
    requires forall k {:trigger ns[k].next} :: 0 <= k < |ns| && k != i - 1 ==> ns[k].next == old(ns[k].next)
    requires i > 0 ==> ns[i - 1].next == old(ns[i].next)
    ensures Chained(RemoveAt(ns, i))
  {
    var r := RemoveAt(ns, i);
    forall k | 0 <= k < |r| - 1
      ensures r[k].next == r[k + 1]
    {
      if k < i - 1 {
        assert r[k] == ns[k] && r[k + 1] == ns[k + 1];
      } else if k >= i {
        assert r[k] == ns[k + 1] && r[k + 1] == ns[k + 2];
      }
    }
  }

  /** Removing `ns[i]` keeps the weak back links once its successor points
      back at `ns[i - 1]`, or nowhere when it becomes the first node. */
  twostate lemma RemoveBackLinked<T>(new ns: seq<Node<T>>, i: int)
    requires old(allocated(ns)) && old(BackLinked(ns))
    requires 0 <= i < |ns|
    requires forall k {:trigger ns[k].prev} :: 0 <= k < |ns| && k != i + 1 ==> ns[k].prev == old(ns[k].prev)
    requires i + 1 < |ns| ==> ns[i + 1].prev == if i == 0 then null else ns[i - 1]
    ensures BackLinked(RemoveAt(ns, i))
  {
    var r := RemoveAt(ns, i);
    forall k | 0 < k < |r|
      ensures r[k].prev == null || r[k].prev == r[k - 1]
    {
      if k < i {
        assert r[k] == ns[k] && r[k - 1] == ns[k - 1];
      } else if k > i {
        assert r[k] == ns[k + 1] && r[k - 1] == ns[k];
      }
    }
  }

  /** Splicing a node holding `x` in at position `i` while no other value
      changes makes the nodes hold the values with `x` inserted. */
  twostate lemma InsertHolds<T>(new ns: seq<Node<T>>, new vs: seq<T>, i: int, new addNode: Node<T>)
    requires old(allocated(ns)) && old(allocated(vs)) && old(Holds(ns, vs))
    requires 0 <= i <= |ns|
    requires forall k {:trigger ns[k].value} :: 0 <= k < |ns| ==> ns[k].value == old(ns[k].value)
    ensures Holds(InsertAt(ns, i, addNode), InsertAt(vs, i, addNode.value))
  {
  }

  /** Removing the node at position `i` while no value changes makes the
      nodes hold the values with position `i` removed. */
  twostate lemma RemoveHolds<T>(new ns: seq<Node<T>>, new vs: seq<T>, i: int)
    requires old(allocated(ns)) && old(allocated(vs)) && old(Holds(ns, vs))
    requires 0 <= i < |ns|
    requires forall k {:trigger ns[k].value} :: 0 <= k < |ns| ==> ns[k].value == old(ns[k].value)
    ensures Holds(RemoveAt(ns, i), RemoveAt(vs, i))
  {
  }

  class DoubleLinkedList<T> {
    var size: int
    var head: Node?<T>
    var tail: Node?<T>

    /** The chain from `head`, in order. */
    ghost var nodes: seq<Node<T>>
    /** The values held, in order: the list as its callers see it. */
    ghost var Contents: seq<T>
    /** The objects this list is made of. */
    ghost var Repr: set<object>

    /** This list and all its nodes belong to `Repr`. */
    ghost predicate Owned()
      reads this`Repr, this`nodes
    {
      this in Repr && forall k :: 0 <= k < |nodes| ==> nodes[k] in Repr
    }

    /** The forward chain from `head`: each `next` leads to the following
        node and the last `next` is null. This is all that walking the list
        needs. */
    ghost predicate Forward()
      reads this`head, this`nodes, nodes`next
    {
      head == (if |nodes| == 0 then null else nodes[0]) && Chained(nodes)
    }

    /** The node structure on its own: the forward chain of distinct nodes
        from `head`, the weak back links described at `BackLinked`, and the
        values `Contents`. It holds between the relinking and the
        bookkeeping of an operation, while `size`, `tail` and the indices
        are still stale. */
    ghost predicate Chain()
      reads this`Repr, this`nodes, this`head, this`Contents, nodes`next, nodes`prev, nodes`value
    {
      Owned()
      && Distinct(nodes)
      && Forward()
      && BackLinked(nodes)
      && Holds(nodes, Contents)
    }

    /** The representation invariant that holds between public operations:
        also `tail` is the last node and every `index` is up to date. */
    ghost predicate Valid()
      reads this, Repr
    {
      Owned()
      && Chain()
      && size == |nodes|
      && tail == (if |nodes| == 0 then null else nodes[|nodes| - 1])
      && Numbered(nodes)
    }

    constructor ()
      ensures Valid() && Repr == {this}
      ensures Contents == [] && head == null && tail == null
    {
      head := null;
      tail := null;
      size := 0;
      nodes := [];
      Contents := [];
      Repr := {this};
    }

    method Size() returns (n: int)
      requires Valid()
      ensures n == |Contents|
    {
      n := size;
    }

    method IsEmpty() returns (empty: bool)
      requires Valid()
      ensures empty <==> Contents == []
    {
      empty := size == 0;
    }

    /** The value at position `i`; nothing changes. */
    method Get(i: int) returns (r: Result<T>)
      requires Valid()
      ensures r == if 0 <= i < |Contents| then Ok(Contents[i]) else Err(IndexOutOfBounds)
    {
      if i < 0 || i >= size {
        return Err(IndexOutOfBounds);
      }
      var node := GetNode(i);
      r := Ok(node.value);
    }

    /** Replaces the value at position `i` with `x`, keeping every node. */
    method Set(i: int, x: T) returns (status: Status)
      requires Valid()
      modifies this`Contents, nodes`value
      ensures Valid() && Repr == old(Repr)
      ensures status == if 0 <= i < old(|Contents|) then Done else Failed(IndexOutOfBounds)
      ensures status.Done? ==> Contents == old(Contents)[i := x]
      ensures status.Failed? ==> unchanged(Repr)
      ensures nodes == old(nodes) && size == old(size) && head == old(head) && tail == old(tail)
    {
      if i < 0 || i >= size {
        return Failed(IndexOutOfBounds);
      }
      var node := GetNode(i);
      node.value := x;
      Contents := Contents[i := x];
      status := Done;
    }

    /** Inserts a new node holding `x` at position `i`; `i == size` appends. */
    method Add(i: int, x: T) returns (status: Status)
      requires Valid()
      modifies Repr
      ensures Valid()
      ensures status == if 0 <= i <= old(|Contents|) then Done else Failed(IndexOutOfBounds)
      ensures status.Done? ==> Contents == InsertAt(old(Contents), i, x)
      ensures status.Done? ==> fresh(nodes[i]) && nodes == InsertAt(old(nodes), i, nodes[i])
      ensures status.Done? ==> Repr == old(Repr) + {nodes[i]}
      ensures status.Failed? ==> Repr == old(Repr) && unchanged(Repr)
    {
      if i < 0 || i > size {
        return Failed(IndexOutOfBounds);
      }
      var addNode := Link(i, x);
      Commit(size + 1);
      status := Done;
    }

    /** The relinking of add: a new node holding `x` is spliced in at
        position `i`, at the head or after the node at `i - 1`. */
    method Link(i: int, x: T) returns (addNode: Node<T>)
      requires Chain() && size == |nodes| && 0 <= i <= |nodes|
      modifies this`head, this`nodes, this`Contents, this`Repr, nodes`next, nodes`prev
      ensures Chain() && fresh(addNode)
      ensures nodes == InsertAt(old(nodes), i, addNode)
      ensures Contents == InsertAt(old(Contents), i, x)
      ensures Repr == old(Repr) + {addNode}
    {
      addNode := new Node(x);
      if i == 0 {
        LinkFirst(addNode);
      } else {
        var aheadNode := GetNode(i - 1);
        LinkAfter(i, aheadNode, addNode);
      }
    }

    /** Excises the node at position `i` and returns its value. */
    method Remove(i: int) returns (r: Result<T>)
      requires Valid()
      modifies Repr
      ensures Valid() && Repr <= old(Repr)
      ensures r == if 0 <= i < old(|Contents|) then Ok(old(Contents)[i]) else Err(IndexOutOfBounds)
      ensures r.Ok? ==> Contents == RemoveAt(old(Contents), i) && nodes == RemoveAt(old(nodes), i)
      ensures r.Err? ==> Repr == old(Repr) && unchanged(Repr)
    {
      if i < 0 || i >= size {
        return Err(IndexOutOfBounds);
      }
      var removedValue := Unlink(i);
      Commit(size - 1);
      r := Ok(removedValue);
    }

    /** The relinking of remove: the node at position `i` is excised, at the
        head or after the node at `i - 1`, and its value returned. */
    method Unlink(i: int) returns (removedValue: T)
      requires Chain() && size == |nodes| && 0 <= i < |nodes|
      modifies this`head, this`nodes, this`Contents, this`Repr, nodes`next, nodes`prev
      ensures Chain()
      ensures removedValue == old(Contents)[i]
      ensures nodes == RemoveAt(old(nodes), i)
      ensures Contents == RemoveAt(old(Contents), i)
      ensures Repr == old(Repr) - {old(nodes)[i]}
    {
      if i == 0 {
        var hinderNode := GetNode(i + 1);
        removedValue := head.value;
        UnlinkFirst(hinderNode);
        return;
      }
      var aheadNode := GetNode(i - 1);
      var removedNode := GetNode(i);
      UnlinkAfter(i, aheadNode, removedNode);
      removedValue := removedNode.value;
    }

    /** The head case of add: `addNode` becomes the first node. The former
        head's `prev` is left as it was (null). */
    method LinkFirst(addNode: Node<T>)
      requires Chain() && addNode !in Repr
      modifies this`head, this`nodes, this`Contents, this`Repr, addNode`next, addNode`prev
      ensures Chain()
      ensures nodes == InsertAt(old(nodes), 0, addNode)
      ensures Contents == InsertAt(old(Contents), 0, addNode.value)
      ensures Repr == old(Repr) + {addNode}
    {
      ghost var oldNodes, oldContents := nodes, Contents;
      DistinctInsertAt(oldNodes, 0, addNode);
      nodes, Contents, Repr := InsertAt(oldNodes, 0, addNode), InsertAt(oldContents, 0, addNode.value), Repr + {addNode};
      addNode.next := head;
      addNode.prev := null;
      head := addNode;
      InsertChained(oldNodes, 0, addNode);
      InsertBackLinked(oldNodes, 0, addNode);
      InsertHolds(oldNodes, oldContents, 0, addNode);
    }

    /** The interior case of add: `addNode` goes between `aheadNode`, the node
        at `i - 1`, and its successor, which then points back at `addNode`. */
    method LinkAfter(i: int, aheadNode: Node<T>, addNode: Node<T>)
      requires Chain() && addNode !in Repr
      requires 0 < i <= |nodes| && aheadNode == nodes[i - 1]
      modifies this`nodes, this`Contents, this`Repr, aheadNode`next, addNode`next, addNode`prev, nodes`prev
      ensures Chain()
      ensures addNode.prev == aheadNode
      ensures i < |old(nodes)| ==> old(nodes)[i].prev == addNode
      ensures nodes == InsertAt(old(nodes), i, addNode)
      ensures Contents == InsertAt(old(Contents), i, addNode.value)
      ensures Repr == old(Repr) + {addNode}
    {
      ghost var oldNodes, oldContents := nodes, Contents;
      DistinctInsertAt(oldNodes, i, addNode);
      nodes, Contents, Repr := InsertAt(oldNodes, i, addNode), InsertAt(oldContents, i, addNode.value), Repr + {addNode};
      var hinderNode := aheadNode.next;
      assert hinderNode == if i < |oldNodes| then oldNodes[i] else null;
      Splice(aheadNode, addNode, hinderNode);
      InsertChained(oldNodes, i, addNode);
      InsertBackLinked(oldNodes, i, addNode);
      InsertHolds(oldNodes, oldContents, i, addNode);
    }

    /** The link assignments of an interior add: `addNode` goes after
        `aheadNode` and before `hinderNode`, which, if there is one, points
        back at it. */
    method Splice(aheadNode: Node<T>, addNode: Node<T>, hinderNode: Node?<T>)
      requires addNode != aheadNode && addNode != hinderNode
      modifies aheadNode`next, addNode`next, addNode`prev, {hinderNode}`prev
      ensures aheadNode.next == addNode && addNode.next == hinderNode && addNode.prev == aheadNode
      ensures hinderNode != null ==> hinderNode.prev == addNode
    {
      aheadNode.next := addNode;
      addNode.next := hinderNode;
      addNode.prev := aheadNode;
      if hinderNode != null {
        hinderNode.prev := addNode;
      }
    }

    /** The head case of remove: `head` moves to its successor
        `hinderNode`, whose `prev` is cleared. */
    method UnlinkFirst(hinderNode: Node?<T>)
      requires Chain() && |nodes| > 0
      requires hinderNode == if |nodes| > 1 then nodes[1] else null
      modifies this`head, this`nodes, this`Contents, this`Repr, nodes`prev
      ensures Chain()
      ensures nodes == RemoveAt(old(nodes), 0)
      ensures Contents == RemoveAt(old(Contents), 0)
      ensures Repr == old(Repr) - {old(nodes[0])}
    {
      ghost var oldNodes, oldContents := nodes, Contents;
      DistinctRemoveAt(oldNodes, 0);
      nodes, Contents, Repr := RemoveAt(oldNodes, 0), RemoveAt(oldContents, 0), Repr - {oldNodes[0]};
      head := head.next;
      if hinderNode != null {
        hinderNode.prev := null;
      }
      RemoveChained(oldNodes, 0);
      RemoveBackLinked(oldNodes, 0);
      RemoveHolds(oldNodes, oldContents, 0);
    }

    /** The interior case of remove: `aheadNode`, the node at `i - 1`, is
        pointed past `removedNode`, the node at `i`, whose successor then
        points back at `aheadNode`. */
    method UnlinkAfter(i: int, aheadNode: Node<T>, removedNode: Node<T>)
      requires Chain()
      requires 0 < i < |nodes| && aheadNode == nodes[i - 1] && removedNode == nodes[i]
      modifies this`nodes, this`Contents, this`Repr, aheadNode`next, nodes`prev
      ensures Chain()
      ensures i < |nodes| ==> nodes[i].prev == aheadNode
      ensures nodes == RemoveAt(old(nodes), i)
      ensures Contents == RemoveAt(old(Contents), i)
      ensures Repr == old(Repr) - {removedNode}
    {
      ghost var oldNodes, oldContents := nodes, Contents;
      DistinctRemoveAt(oldNodes, i);
      nodes, Contents, Repr := RemoveAt(oldNodes, i), RemoveAt(oldContents, i), Repr - {removedNode};
      assert removedNode.next == if i + 1 < |oldNodes| then oldNodes[i + 1] else null;
      aheadNode.next := removedNode.next;
      if removedNode.next != null {
        removedNode.next.prev := aheadNode;
      }
      RemoveChained(oldNodes, i);
      RemoveBackLinked(oldNodes, i);
      RemoveHolds(oldNodes, oldContents, i);
    }

    /** The bookkeeping that ends add and remove: `size` becomes
        `newSize`, `tail` the node at `size - 1`, and the nodes are
        renumbered. */
    method Commit(newSize: int)
      requires Chain() && newSize == |nodes|
      modifies this`size, this`tail, nodes`index
      ensures Valid()
    {
      size := newSize;
      tail := GetNode(size - 1);
      RenewIndices();
    }

    /** The node `i` forward steps from `head`, or null when `i` is not a
        position of the list. */
    method GetNode(i: int) returns (r: Node?<T>)
      requires Forward() && size == |nodes|
      ensures 0 <= i < |nodes| ==> r == nodes[i] && r == Walk(head, i)
      ensures !(0 <= i < |nodes|) ==> r == null
    {
      if i < 0 || i >= size {
        return null;
      }
      var currentNode := head;
      for j := 0 to i
        invariant currentNode == nodes[j]
        invariant currentNode == Walk(head, j)
      {
        currentNode := currentNode.next;
      }
      r := currentNode;
    }

    /** Sets each node's `index` to its position from `head`. */
    method RenewIndices()
      requires Forward() && Distinct(nodes)
      modifies nodes`index
      ensures Numbered(nodes)
    {
      var index := 0;
      var node := head;
      while node != null
        invariant 0 <= index <= |nodes|
        invariant node == if index < |nodes| then nodes[index] else null
        invariant forall k :: 0 <= k < index ==> nodes[k].index == k
        decreases |nodes| - index
      {
        node.index := index;
        index := index + 1;
        node := node.next;
      }
    }

    /** Walking forward from `head` visits the chain's nodes in order and runs
        out exactly after the last one. */
    lemma {:induction false} WalkFromHead(k: nat)
      requires Forward()
      requires k <= |nodes|
      ensures Walk(head, k) == if k < |nodes| then nodes[k] else null
    {
      if k > 0 {
        WalkFromHead(k - 1);
      }
    }

    /** `size - 1` forward steps from `head` reach `tail`, and `size` steps run
        off the end of the chain. */
    lemma ForwardTraversal()
      requires Valid()
      ensures size > 0 ==> Walk(head, size - 1) == tail
      ensures Walk(head, size) == null
    {
      if size > 0 {
        WalkFromHead(size - 1);
      }
      WalkFromHead(size);
    }
    /** The cached ends agree with the size: `head` and `tail` are null
        exactly when the list is empty, the head has no back link and the
        tail has no successor. */
    lemma Ends()
      requires Valid()
      ensures (head == null) == (size == 0) && (tail == null) == (size == 0)
      ensures size > 0 ==> head.prev == null && tail.next == null
    {
    }
  }

  /** The bounds check of remove as the original writes it: only `i < 0` and
      `i > size` are rejected. */
  predicate RemoveGuardAsWritten(i: int, size: int)
  {
    !(i < 0 || i > size)
  }

  /** The as-written check admits `i == size`, where there is no node: the
      head dereferenced on the first path is null for an empty list, and the
      node to excise on the second path is null otherwise. */
  lemma RemoveGuardAsWrittenAdmitsEnd<T>(l: DoubleLinkedList<T>)
    requires l.Valid()
    ensures RemoveGuardAsWritten(l.size, l.size)
    ensures Walk(l.head, l.size) == null
    ensures l.size == 0 ==> l.head == null
  {
    l.WalkFromHead(l.size);
  }
}
