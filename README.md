# Doubly linked list and deque, modelled in Dafny

This project models `DoubleLinkedList<T>`, a mutable doubly linked list
with 0-based `get`, `set`, `add` and `remove`. The model is a Dafny class
with the same fields as the original: `size`, `head` and `tail`. Its nodes
carry `next`, `prev`, `value` and a diagnostic `index`. The project also
models `DLLDeque<T>`, a deque kept in one owned list, and the deque test
scenario.

The list's state is tied to three ghost fields:

- `nodes`: the chain of nodes from `head`;
- `Contents`: the values those nodes hold, which is the list as its callers see it;
- `Repr`: the objects the list is made of.

`Valid()` is the representation invariant. It says:

- `head` is the first node;
- each `next` is the following node, and the last node's `next` is null;
- the nodes are distinct and belong to `Repr`;
- `size` is the node count;
- `tail` is the last node, or null when the list is empty;
- every `index` is its node's position;
- the back links hold as much as the code keeps (see below).

Every operation has a contract against `Contents`. They are proved with
loop invariants for the two traversals and with splice lemmas for the
link assignments.

Modules and files:

- `outcomes.dfy` (`Outcomes`): the error kind and the result values that
  stand in for the exceptions.
- `positions.dfy` (`Positions`): insertion and removal at a position of a
  sequence, and their laws.
- `double_linked_list.dfy` (`LinkedList`): nodes, the list, the splice
  lemmas, and the as-written remove check.
- `dll_deque.dfy` (`Deque`): the deque adapter.
- `deque_tester.dfy` (`DequeTester`): the add-and-remove scenario as
  verified methods.

The original `add` and `remove` are one method each. The model splits
them into the same steps, kept in the same order:

- the bounds check;
- for `add`, the node allocation and the relinking (`Link`), which goes
  either at the head (`LinkFirst`) or after the node at `i - 1`
  (`LinkAfter`, whose four link assignments are `Splice`);
- for `remove`, the relinking (`Unlink`) at the head (`UnlinkFirst`) or
  after the node at `i - 1` (`UnlinkAfter`);
- the shared bookkeeping `size ± 1; tail = getNode(size - 1);
  renewIndices()` (`Commit`).

The link assignments in each relinking step are the original's, in
the original's order.

Two points about the code that the model keeps as they are:

- **Back links are weak.** The usual doubly linked list invariant
  `n.prev.next == n` does not hold here, because `add(0, x)` never sets
  the former head's `prev` (src/DoubleLinkedList.java:109-112). So the
  invariant only says that the first node's `prev` is null and that every
  other `prev` is null or the true predecessor. The interior `add` and
  `remove` do point the neighbour's `prev` at its true predecessor, and
  `LinkAfter` and `UnlinkAfter` state that.
- **The front-insertion order.** The test driver pushes `vN-1` down to
  `v0` with `addFirst` (src/DequeTester.java:88-89), so draining from the
  front yields `v0..vN-1`. That is the order modelled and proved.

## Model

| member | source | states |
|---|---|---|
| Positions.InsertAt | src/DoubleLinkedList.java:90-126 | the meaning of add on the values: the result is one longer, holds `x` at `i`, the old elements before `i` in place and the rest shifted up by one |
| Positions.RemoveAt | src/DoubleLinkedList.java:138-196 | the meaning of remove on the values: the result is one shorter, keeps the elements before `i` and shifts the rest down by one |
| Positions.InsertAtSlices | src/DoubleLinkedList.java:90-126 | insertion at `i` equals `s[..i] + [x] + s[i..]`: the elements before `i`, then `x`, then the rest |
| Positions.RemoveAtSlices | src/DoubleLinkedList.java:138-196 | removal at `i` equals `s[..i] + s[i + 1..]`: everything but the element at `i`, in order |
| Positions.RemoveAtInsertAt | src/DoubleLinkedList.java:90-196 | removing the element at the position just inserted at gives back the original values |
| Positions.InsertAtRemoveAt | src/DoubleLinkedList.java:90-196 | re-inserting a removed element at its position restores the original values |
| Positions.InsertAtEnds | src/DLLDeque.java:25-27 | insertion at position 0 prepends and insertion at position `size` appends |
| Positions.RemoveAtEnds | src/DLLDeque.java:30-32 | removal at position 0 drops the first element and removal at `size - 1` drops the last |
| Positions.DistinctInsertAt | src/DoubleLinkedList.java:95 | inserting a freshly allocated node keeps the nodes pairwise distinct |
| Positions.DistinctRemoveAt | src/DoubleLinkedList.java:138-196 | removing a node keeps the rest distinct, and the removed node no longer occurs |
| LinkedList.Node.constructor | src/DoubleLinkedList.java:202-225 | a new node holds its value, has null `next` and `prev`, and index 0 |
| LinkedList.InsertChained | src/DoubleLinkedList.java:109-120 | after a splice that sets the predecessor's `next` to the new node and the new node's `next` to the old successor, every node's `next` is the following node of the extended chain and the last is null |
| LinkedList.InsertBackLinked | src/DoubleLinkedList.java:109-120 | the same splice keeps the weak back links: the new node points back at its predecessor (null at the front), and the successor of an interior splice points back at the new node |
| LinkedList.RemoveChained | src/DoubleLinkedList.java:152-165 | moving `head` past the first node, or pointing `ns[i - 1].next` past `ns[i]`, leaves the forward chain of the shortened sequence |
| LinkedList.RemoveBackLinked | src/DoubleLinkedList.java:158-160 | clearing the new head's `prev`, or pointing the successor's `prev` at the predecessor, keeps the weak back links of the shortened sequence |
| LinkedList.InsertHolds | src/DoubleLinkedList.java:95 | splicing in a node holding `x` while no other value changes inserts `x` into the values at the same position |
| LinkedList.RemoveHolds | src/DoubleLinkedList.java:174-195 | excising a node while no value changes removes the value at the same position |
| LinkedList.DoubleLinkedList.constructor | src/DoubleLinkedList.java:31-35 | a new list is valid and empty, with null head and tail |
| LinkedList.DoubleLinkedList.Size | src/DoubleLinkedList.java:42-44 | returns the number of elements |
| LinkedList.DoubleLinkedList.IsEmpty | src/DoubleLinkedList.java:51-53 | true exactly when there are no elements |
| LinkedList.DoubleLinkedList.Get | src/DoubleLinkedList.java:61-67 | returns the element at `i` when `0 <= i < size`, and otherwise the out-of-bounds error; nothing changes |
| LinkedList.DoubleLinkedList.Set | src/DoubleLinkedList.java:75-82 | for `0 <= i < size`, replaces exactly the element at `i` with `x`; it may write only `Contents` and the nodes' values, so every node, link, `size`, `head` and `tail` is kept; otherwise it fails and changes nothing |
| LinkedList.DoubleLinkedList.Add | src/DoubleLinkedList.java:90-126 | for `0 <= i <= size`, the values become those with `x` inserted at `i`, and the nodes the old ones with one fresh node at `i`; otherwise it fails and changes nothing; the list stays valid |
| LinkedList.DoubleLinkedList.Remove | src/DoubleLinkedList.java:138-196 | for `0 <= i < size`, returns the old element at `i`, and the values and nodes lose position `i`; otherwise it fails and changes nothing; the list stays valid |
| LinkedList.DoubleLinkedList.Link | src/DoubleLinkedList.java:95-121 | a fresh node holding `x` is spliced in at position `i`: the chain and values are those with it inserted at `i`, and it joins `Repr` |
| LinkedList.DoubleLinkedList.LinkFirst | src/DoubleLinkedList.java:109-112 | the new node becomes the head ahead of the old chain, and the chain, the weak back links and the values are those with the node inserted at 0 |
| LinkedList.DoubleLinkedList.LinkAfter | src/DoubleLinkedList.java:113-121 | the new node is linked between the node at `i - 1` and its successor: its `prev` is the node at `i - 1`, the old node at `i` (if any) points back at it, and the chain, back links and values are those with the node inserted at `i` |
| LinkedList.DoubleLinkedList.Splice | src/DoubleLinkedList.java:116-121 | after the four assignments the predecessor's `next` and the new node's `prev` link the two, the new node's `next` is the successor, and the successor, if any, points back at the new node |
| LinkedList.DoubleLinkedList.Unlink | src/DoubleLinkedList.java:152-189 | the node at `i` is excised at the head or after the node at `i - 1`: its value is returned, the chain and values lose position `i`, and the node leaves `Repr` |
| LinkedList.DoubleLinkedList.UnlinkFirst | src/DoubleLinkedList.java:152-160 | `head` moves to the second node, whose `prev` is cleared; the chain and values lose position 0 and the old head leaves `Repr` |
| LinkedList.DoubleLinkedList.UnlinkAfter | src/DoubleLinkedList.java:174-189 | the node at `i - 1` is pointed at the successor of the node at `i`, and that successor (if any) has `prev` equal to the node at `i - 1`; the chain and values lose position `i` |
| LinkedList.DoubleLinkedList.Commit | src/DoubleLinkedList.java:124-129 | after relinking, setting `size`, recomputing `tail` as the node at `size - 1` and renumbering restores the full invariant |
| LinkedList.DoubleLinkedList.GetNode | src/DoubleLinkedList.java:243-253 | returns the node `i` forward steps from `head`, which is the node at position `i`, and null when `i < 0` or `i >= size`; nothing changes |
| LinkedList.DoubleLinkedList.RenewIndices | src/DoubleLinkedList.java:258-264 | sets every node's `index` to its position from `head`, touching no other field |
| LinkedList.DoubleLinkedList.WalkFromHead | src/DoubleLinkedList.java:243-253 | `k` forward steps from `head` reach the node at position `k`, or null once `k` is the length |
| LinkedList.DoubleLinkedList.ForwardTraversal | src/DoubleLinkedList.java:125-126 | `size - 1` forward steps from `head` reach `tail`, and `size` steps run off the chain |
| LinkedList.DoubleLinkedList.Ends | src/DoubleLinkedList.java:125-126 | `head` and `tail` are null exactly when the list is empty; the head has no back link and the tail has no successor |
| LinkedList.RemoveGuardAsWrittenAdmitsEnd | src/DoubleLinkedList.java:139 | the check as written accepts `i == size`, where walking from `head` finds no node; in an empty list `head` itself is null |
| Deque.DLLDeque.constructor | src/DLLDeque.java:10-12 | a new deque is valid and empty |
| Deque.DLLDeque.Size | src/DLLDeque.java:15-17 | returns the number of elements |
| Deque.DLLDeque.IsEmpty | src/DLLDeque.java:20-22 | true exactly when the deque holds nothing |
| Deque.DLLDeque.AddFirst | src/DLLDeque.java:25-27 | `x` is prepended |
| Deque.DLLDeque.RemoveFirst | src/DLLDeque.java:30-32 | returns the front element and drops it, or fails on an empty deque and changes nothing |
| Deque.DLLDeque.PeekFirst | src/DLLDeque.java:35-37 | returns the front element, or fails on an empty deque; nothing changes |
| Deque.DLLDeque.AddLast | src/DLLDeque.java:40-42 | `x` is appended |
| Deque.DLLDeque.RemoveLast | src/DLLDeque.java:45-47 | returns the back element and drops it, or fails on an empty deque and changes nothing |
| Deque.DLLDeque.PeekLast | src/DLLDeque.java:50-52 | returns the back element, or fails on an empty deque; nothing changes |
| DequeTester.PopulateFromBack | src/DequeTester.java:53-64 | appending the values to an empty deque passes every size check and leaves the deque holding the values in order |
| DequeTester.RemoveFromBack | src/DequeTester.java:66-85 | draining from the back yields the values last to first from both `peekLast` and `removeLast`, the size checks pass, and the deque ends empty |
| DequeTester.PopulateFromFront | src/DequeTester.java:87-98 | pushing the values last to first with `addFirst` passes every size check and leaves the deque holding them in order |
| DequeTester.RemoveFromFront | src/DequeTester.java:100-119 | draining from the front yields the values first to last from both `peekFirst` and `removeFirst`, the size checks pass, and the deque ends empty |
| DequeTester.TestAddRemove | src/DequeTester.java:24-51 | the whole scenario on an empty deque passes and leaves it empty |

## Left out

- The `toString` methods of the list and of `Node`: they only build diagnostic strings.
- The test driver's `main`, its `java.util.Random` values and its console output. The values are a parameter of the scenario methods instead.
- The `SimpleList` and `SimpleDeque` interfaces: they are not part of this model, and the concrete classes are modelled directly.
- Exceptions: a thrown `IndexOutOfBoundsException` is an `Err`/`Failed` result. `Objects.requireNonNull` and the `assert` statements become facts proved from the invariant.
- Garbage collection: an excised node just leaves `nodes` and `Repr`. Its own `next`, `prev` and `index` are not described.
- LinkedList.DoubleLinkedList.Add: `size` is an unbounded integer, so the 32-bit overflow of `size += 1` past 2^31 - 1 elements is not modelled.
- LinkedList.DoubleLinkedList.Remove: follows the corrected bounds check (see Findings). On `i == size` it fails cleanly, where the original dereferences null.
- Deque.DLLDeque.RemoveFirst: an empty deque gives the out-of-bounds failure of the corrected `remove`. The original instead passes the loose check and dereferences a null `head`.
- DequeTester.PopulateFromBack: requires an empty deque. The original also runs on a non-empty one and then reports failure at its first size check.
- DequeTester.RemoveFromBack: requires the deque to hold exactly the values. The original drains any deque and reports a mismatch, or throws when it runs empty early.
- DequeTester.PopulateFromFront: requires an empty deque, as for PopulateFromBack.
- DequeTester.RemoveFromFront: requires the deque to hold exactly the values, as for RemoveFromBack.
- DequeTester: each check is folded into a `passed` flag instead of returning `false` at the first failed check. No check fails under these preconditions, so the early exits never happen.

## Findings

| source | as written | input that shows it | evidently intended | confidence | as-written member | corrected member |
|---|---|---|---|---|---|---|
| src/DoubleLinkedList.java:139 | `remove` rejects only `i < 0 \|\| i > size` | `remove(0)` on an empty list dereferences the null `head` (line 154); `remove(1)` on a one-element list dereferences the null node at position 1 (line 185) | reject `i >= size`, like `get` and `set`, since there is no element at `size` | not executed | LinkedList.RemoveGuardAsWrittenAdmitsEnd | LinkedList.DoubleLinkedList.Remove |
