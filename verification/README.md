# Linked lists, modelled in Dafny

This project models four small Python list classes:

- `LinkedList`, a singly linked list ending in `None`;
- `DoublyLinkedList`, a doubly linked list ending in `None` both ways;
- `CircularSinglyLinkedList`, a singly linked ring;
- `CircularDoublyLinkedList`, a doubly linked ring.

Each class keeps only a `head` reference. Each offers:

- insert at the beginning, at the end, and at a 0-based position;
- delete at the beginning, at the end, and the first node holding a value;
- `search` and `length`;
- a printing traversal (forward, and backward for the doubly linked classes);
- an in-place `reverse`.

## How the model is built

- **Node store.** Node references become ids into a node store
  `heap: seq<Node<T>>`. A list is `List(heap, head)`. A new node takes the
  next free id, `|heap|`, so it never aliases an existing node. Nodes that an
  operation unlinks stay in the store but are no longer reachable.
- **Class invariant.** Each operation takes a ghost sequence `order`: the node
  ids met when walking from `head`. `Valid(l, order)` states the invariant of
  each class:
  - a `None`-terminated chain for the two open lists, with `prev` mirroring
    `next` in the doubly linked one;
  - a ring whose last node links back to `head` for the two circular lists,
    with `prev` mirroring `next` in the doubly linked one.
- **Abstraction.** `Values(heap, order)` is the sequence of values the list
  holds. Every contract says what an operation does to that sequence, using
  the shared sequence operations in `common.dfy`: `InsertAt`, `RemoveAt`,
  `RemoveFirst`, `FirstIndex`, `Reverse` and `Rotate`.
- **Errors.** Every message an insert or delete prints before returning
  early ("Position cannot be negative.", "Position out of range.", "List is
  empty.", "Value not found.") becomes a `Status` code. The contracts state,
  in both directions, when each code is reported, and that the list is
  unchanged whenever it is. The printing traversals report no status: on an
  empty list they return no values (see "Left out").
- **Traversals.** The printing methods are modelled as methods that return
  the values they would print, in printing order.
- **Functions and methods.** Loop-free operations are functions. Operations
  with a loop are methods whose invariants index the ghost `order`.

## Model

| member | source | states |
|---|---|---|
| LinkedList.Empty | Linked_List.py:10-11 | a fresh list has no head and satisfies the invariant with no nodes |
| LinkedList.OrderUnique | Linked_List.py:3-11 | the links of a valid list determine its node order, so `Values` is a function of the list alone |
| LinkedList.InsertAtBeginning | Linked_List.py:14-17 | the new node is first and every old value follows in order |
| LinkedList.InsertAtEnd | Linked_List.py:20-28 | the new node is appended after the old last node and the chain stays `None`-terminated |
| LinkedList.InsertAtPosition | Linked_List.py:31-49 | negative position reports NegativePosition and position > length reports OutOfRange, each iff, with the list untouched; otherwise the value is inserted at exactly `position`, and position 0 is the same as inserting at the beginning |
| LinkedList.LinkAfter | Linked_List.py:48-49 | linking a fresh node after the node at `position - 1` inserts its value at `position` |
| LinkedList.DeleteAtBeginning | Linked_List.py:52-56 | EmptyList iff the list is empty; otherwise the first value is dropped and the rest keep their order |
| LinkedList.DeleteAtEnd | Linked_List.py:59-69 | EmptyList iff empty; otherwise exactly the last value is dropped, including from a one-node list |
| LinkedList.DeleteByValue | Linked_List.py:72-85 | EmptyList iff empty, NotFound iff the value is absent, Done iff present; on Done exactly the first occurrence is removed (`RemoveFirst`), and a match at the head behaves as DeleteAtBeginning |
| LinkedList.UnlinkAfter | Linked_List.py:81-82 | redirecting a node past its successor removes the successor's value at that index |
| LinkedList.Search | Linked_List.py:88-94 | true iff the value is held by some node |
| LinkedList.ToSeq | Linked_List.py:97-102 | the values printed are exactly the list's values, head first |
| LinkedList.Length | Linked_List.py:105-111 | the count equals the number of values |
| LinkedList.Reverse | Linked_List.py:114-122 | the result is a valid list of the nodes in reverse order, holding the values reversed |
| LinkedList.ReverseTwice | Linked_List.py:114-122 | reversing twice restores the node order and the values |
| LinkedList.ExampleInsertDelete | Linked_List.py:126-148 | the script's inserts build [10, 15, 20], search finds 15, and the three deletes leave an empty list that prints no values and has length 0 |
| LinkedList.ExampleAppend | Linked_List.py:151-154 | three appends to an empty list give [30, 40, 50] |
| LinkedList.ExampleReverse | Linked_List.py:155-156 | reversing [30, 40, 50] prints [50, 40, 30] |
| DoublyLinkedList.Empty | doublyLinked_List.py:11-12 | a fresh list has no head and satisfies the invariant with no nodes |
| DoublyLinkedList.OrderUnique | doublyLinked_List.py:3-12 | the `next` links of a list determine its node order |
| DoublyLinkedList.InsertAtBeginning | doublyLinked_List.py:15-20 | the new node becomes first, the old head's `prev` points to it, and the values gain `v` in front |
| DoublyLinkedList.InsertAtEnd | doublyLinked_List.py:23-32 | the new node is appended, with `prev` pointing at the old last node |
| DoublyLinkedList.InsertAtPosition | doublyLinked_List.py:35-58 | each error code iff its condition and the list unchanged on errors; otherwise the value is inserted at `position` with `next` and `prev` both consistent; position 0 equals InsertAtBeginning |
| DoublyLinkedList.LinkAfter | doublyLinked_List.py:54-58 | a node linked in after `position - 1`, with the successor's `prev` updated when there is one, inserts its value at `position` |
| DoublyLinkedList.DeleteAtBeginning | doublyLinked_List.py:61-67 | EmptyList iff empty; otherwise the first value is dropped and the new head's `prev` is `None` |
| DoublyLinkedList.DeleteAtEnd | doublyLinked_List.py:70-80 | EmptyList iff empty; otherwise exactly the last value is dropped |
| DoublyLinkedList.DeleteByValue | doublyLinked_List.py:83-100 | the three status codes each iff; on Done exactly the first occurrence is removed, with both neighbours relinked |
| DoublyLinkedList.Unlink | doublyLinked_List.py:95-97 | bypassing an inner node through both neighbours removes its value at that index |
| DoublyLinkedList.Search | doublyLinked_List.py:103-109 | true iff the value is in the list |
| DoublyLinkedList.ToSeqForward | doublyLinked_List.py:112-117 | the forward walk yields the values head first on any chain of `next` links, whatever the `prev` links hold |
| DoublyLinkedList.ToSeqBackward | doublyLinked_List.py:120-130 | the walk back along `prev` from the last node yields the values reversed |
| DoublyLinkedList.Length | doublyLinked_List.py:133-139 | the count equals the number of values |
| DoublyLinkedList.SwapLinks | doublyLinked_List.py:145-150 | after the loop each node's `next` is its old `prev` and its `prev` its old `next`, data untouched, and the last node visited is the old last node |
| DoublyLinkedList.Reverse | doublyLinked_List.py:142-151 | lists of up to one node are unchanged; for two or more nodes the new head is the old second node, whose `next` is the old head, and only a two-node list comes out as a valid reversed list |
| DoublyLinkedList.HeadWithPrevInvalid | doublyLinked_List.py:151 | a head whose `prev` is not `None` breaks the invariant, which is what the source's final assignment produces for three or more nodes |
| DoublyLinkedList.ExampleInsert | doublyLinked_List.py:155-169 | the script builds [10, 15, 20], prints it forward and as [20, 15, 10] backward, and finds 15 |
| DoublyLinkedList.ExampleDelete | doublyLinked_List.py:172-180 | the three deletes empty [10, 15, 20], which then prints no values and has length 0 |
| DoublyLinkedList.ExampleReverse | doublyLinked_List.py:183-188 | [30, 40, 50] is printed as built; after `reverse` the forward print is [40, 30], and the list is not a valid list at all |
| DoublyLinkedList.ReverseToLast | doublyLinked_List.py:142-151 | with the head moved to the old last node, `reverse` gives a valid list of the values reversed |
| DoublyLinkedList.ExampleReverseToLast | doublyLinked_List.py:183-188 | with that head, the script prints [50, 40, 30] |
| CircularSinglyLinkedList.Empty | CircularSinglyLinked_List.py:10-11 | a fresh ring has no head and satisfies the invariant with no nodes |
| CircularSinglyLinkedList.OrderUnique | CircularSinglyLinked_List.py:3-11 | the links of a ring determine its node order from `head` |
| CircularSinglyLinkedList.RingRotate | CircularSinglyLinked_List.py:21-25 | a ring read from any of its nodes is again a ring, holding the values rotated |
| CircularSinglyLinkedList.LastNode | CircularSinglyLinked_List.py:20-22 | the walk until `next` is `head` stops at the last node of the ring |
| CircularSinglyLinkedList.InsertAtBeginning | CircularSinglyLinked_List.py:14-25 | the new node becomes the head, the last node links to it, and the values gain `v` in front |
| CircularSinglyLinkedList.InsertAtEnd | CircularSinglyLinked_List.py:28-38 | the new node becomes the last node of the ring and links back to `head` |
| CircularSinglyLinkedList.InsertAtPosition | CircularSinglyLinked_List.py:41-58 | each error code iff its condition, including OutOfRange on an empty list for position ≥ 1; otherwise the value is inserted at `position` |
| CircularSinglyLinkedList.LinkAfter | CircularSinglyLinked_List.py:57-58 | linking a fresh node after the node at `position - 1` keeps the ring and inserts the value at `position` |
| CircularSinglyLinkedList.UnlinkAfter | CircularSinglyLinked_List.py:72 | redirecting a ring node past its successor removes the successor, wrapping round at the end |
| CircularSinglyLinkedList.DeleteAtBeginning | CircularSinglyLinked_List.py:61-72 | EmptyList iff empty; a single node empties the list; otherwise the first value is dropped and the last node links to the new head |
| CircularSinglyLinkedList.DeleteAtEnd | CircularSinglyLinked_List.py:75-85 | EmptyList iff empty; otherwise exactly the last value is dropped and the ring is closed at the second-to-last node |
| CircularSinglyLinkedList.DeleteByValue | CircularSinglyLinked_List.py:88-101 | the three status codes each iff; on Done exactly the first occurrence is removed |
| CircularSinglyLinkedList.Search | CircularSinglyLinked_List.py:104-114 | true iff the value is in the ring |
| CircularSinglyLinkedList.ToSeq | CircularSinglyLinked_List.py:117-127 | one round from `head` yields the values in order, none on an empty ring |
| CircularSinglyLinkedList.Length | CircularSinglyLinked_List.py:130-140 | the count equals the number of values |
| CircularSinglyLinkedList.TurnLinks | CircularSinglyLinked_List.py:146-155 | after one round each node's `next` points at the node visited before it, `None` for the head, and the last node visited is the old last node |
| CircularSinglyLinkedList.Reverse | CircularSinglyLinked_List.py:143-157 | the result is a valid ring of the nodes in reverse order, headed by the old last node, holding the values reversed |
| CircularSinglyLinkedList.ReverseTwice | CircularSinglyLinked_List.py:143-157 | reversing twice restores the ring, its head and its values |
| CircularSinglyLinkedList.ExampleInsert | CircularSinglyLinked_List.py:161-172 | the script builds [10, 15, 20], prints it, and finds 15 |
| CircularSinglyLinkedList.ExampleDelete | CircularSinglyLinked_List.py:175-183 | the three deletes empty the ring, which then prints nothing and has length 0 |
| CircularSinglyLinkedList.ExampleAppend | CircularSinglyLinked_List.py:186-189 | three appends to an empty ring give [30, 40, 50] |
| CircularSinglyLinkedList.ExampleReverse | CircularSinglyLinked_List.py:190-191 | reversing [30, 40, 50] prints [50, 40, 30] |
| CircularDoublyLinkedList.Empty | Circular_DoublyLinked_List.py:11-12 | a fresh ring has no head and satisfies the invariant with no nodes |
| CircularDoublyLinkedList.OrderUnique | Circular_DoublyLinked_List.py:3-12 | the `next` links of a ring determine its node order from `head` |
| CircularDoublyLinkedList.RingStep | Circular_DoublyLinked_List.py:54 | in a ring, a node's `next` is `head` iff it is the last node, and its `prev` is the last node iff it is the head |
| CircularDoublyLinkedList.RingRotate | Circular_DoublyLinked_List.py:22-27 | a ring read from any of its nodes is again a ring, holding the values rotated |
| CircularDoublyLinkedList.Splice | Circular_DoublyLinked_List.py:23-26 | the new node, holding `v`, leads on to `b` and back to `a`; `a.next` and `b.prev` name it; no other link and no value changes (also lines 37-41 and 60-63) |
| CircularDoublyLinkedList.SpliceAt | Circular_DoublyLinked_List.py:60-63 | linking a fresh node between the nodes at `p - 1` and `p` (round to the head at the end) inserts its value at `p` and keeps both link directions consistent |
| CircularDoublyLinkedList.Bypass | Circular_DoublyLinked_List.py:87-88 | `a.next` names `b` and `b.prev` names `a`; no other link and no value changes (also lines 73-76 and 101-102) |
| CircularDoublyLinkedList.BypassAt | Circular_DoublyLinked_List.py:101-102 | linking a node's two neighbours to each other removes exactly that node from the ring |
| CircularDoublyLinkedList.InsertAtBeginning | Circular_DoublyLinked_List.py:15-27 | the new node becomes the head, between the old last node and the old head, and the values gain `v` in front |
| CircularDoublyLinkedList.InsertAtEnd | Circular_DoublyLinked_List.py:30-41 | the new node goes between the old last node and `head`, and `v` is appended |
| CircularDoublyLinkedList.InsertAtPosition | Circular_DoublyLinked_List.py:44-63 | each error code iff its condition and the list unchanged on errors; otherwise the value is inserted at `position`, and position 0 equals InsertAtBeginning |
| CircularDoublyLinkedList.DeleteAtBeginning | Circular_DoublyLinked_List.py:66-76 | EmptyList iff empty; a single node empties the list; otherwise the first value is dropped and the head moves to the second node |
| CircularDoublyLinkedList.DeleteAtEnd | Circular_DoublyLinked_List.py:79-88 | EmptyList iff empty; otherwise exactly the last value is dropped |
| CircularDoublyLinkedList.DeleteByValue | Circular_DoublyLinked_List.py:91-105 | the three status codes each iff; on Done exactly the first occurrence is removed, and a match at the head behaves as DeleteAtBeginning |
| CircularDoublyLinkedList.UnlinkFound | Circular_DoublyLinked_List.py:99-103 | when the walk stops at the first node holding `v` past the head, that node is its first occurrence, and linking its neighbours to each other removes exactly that occurrence |
| CircularDoublyLinkedList.Search | Circular_DoublyLinked_List.py:108-118 | true iff the value is in the ring |
| CircularDoublyLinkedList.ToSeqForward | Circular_DoublyLinked_List.py:121-131 | one round along `next` yields the values head first |
| CircularDoublyLinkedList.ToSeqBackward | Circular_DoublyLinked_List.py:134-145 | one round along `prev` from `head.prev` yields the values reversed |
| CircularDoublyLinkedList.Length | Circular_DoublyLinked_List.py:148-158 | the count equals the number of values |
| CircularDoublyLinkedList.SwapLinks | Circular_DoublyLinked_List.py:164-171 | after one round every node's `next` and `prev` are exchanged, data untouched |
| CircularDoublyLinkedList.Reverse | Circular_DoublyLinked_List.py:161-172 | lists of up to one node are unchanged; otherwise the result is a valid ring of the reversed order read from the old second node, holding the reversed values rotated the same way |
| CircularDoublyLinkedList.ReverseToLast | Circular_DoublyLinked_List.py:161-172 | with the head moved to the old last node, `reverse` gives a valid ring of the values reversed |
| CircularDoublyLinkedList.RotatedReverseTwice | Circular_DoublyLinked_List.py:161-172 | the rotated reversal of a rotated reversal is the original order again |
| CircularDoublyLinkedList.ReverseTwice | Circular_DoublyLinked_List.py:161-172 | two calls of `reverse`, as written, restore the ring, its head and its values |
| CircularDoublyLinkedList.ExampleInsert | Circular_DoublyLinked_List.py:176-190 | the script builds [10, 15, 20], prints it forward, as [20, 15, 10] backward, and finds 15 |
| CircularDoublyLinkedList.ExampleDelete | Circular_DoublyLinked_List.py:193-201 | the three deletes empty the ring, which then prints nothing and has length 0 |
| CircularDoublyLinkedList.ExampleAppend | Circular_DoublyLinked_List.py:204-207 | three appends to an empty ring give [30, 40, 50] |
| CircularDoublyLinkedList.ExampleReverse | Circular_DoublyLinked_List.py:208-209 | after `reverse`, [30, 40, 50] prints as [40, 30, 50], not [50, 40, 30] |
| CircularDoublyLinkedList.ExampleReverseToLast | Circular_DoublyLinked_List.py:208-209 | with the head moved to the old last node, the script prints [50, 40, 30] |
| Common.FirstIndexAt | Linked_List.py:80-84 | an index holding `x` with no earlier `x` is the first occurrence, which is the node a left-to-right delete-by-value walk stops at |
| Common.ReverseReverse | Linked_List.py:114-122 | reversing a sequence twice gives it back |

## Left out

- Printed text. The traversals return the values they would print. The
  separators (" -> ", " <-> ") and the trailers ("None", "(head)", "(last)")
  are not modelled. The error messages become `Status` codes.
- Memory. Unlinked nodes stay in the node store. The source does not clear
  their links either, and nothing reachable from `head` points at them.
- Running time. The number of steps a walk takes is not stated.
- The unused `Node` that `insert_at_position` allocates before it checks the
  position is not modelled. It is never linked in, so nothing can observe it.
- The "List is empty." message of `print_list` (CircularSinglyLinked_List.py
  lines 118-120) and of `print_list_forward` and `print_list_backward`
  (Circular_DoublyLinked_List.py lines 122-124 and 135-137). The traversals
  return no values for an empty list and report no status. The open lists'
  traversals print only "None" there.
- Python's dynamic typing. Values have a type `T` compared with `==`.
- CircularDoublyLinkedList.InsertAtPosition: position ≥ 1 on an empty ring is
  a precondition, because the source reads `current.next` with `current`
  `None` and raises instead of reporting an error: in the walk's guard at
  line 54 for position ≥ 2, and in the range test at line 57 for position 1.
- DoublyLinkedList.Reverse: for three or more nodes the contract states only
  the new head, the first two nodes' links and their values. The result
  satisfies no list invariant (see `HeadWithPrevInvalid` and
  `ExampleReverse`), so there is no abstract list to describe.

## Findings

| source | as written | input that shows it | evidently intended | confidence | as-written member | corrected member |
|---|---|---|---|---|---|---|
| doublyLinked_List.py:151 | after swapping every node's links, `head` becomes `head.prev`, which is the old second node | build [30, 40, 50] with `insert_at_end` and call `reverse`: the forward print is 40, 30 and the new head's `prev` is the node holding 50 | `head` becomes the old last node, so the forward print is 50, 40, 30 as the script's comment at line 188 says | high; not executed | DoublyLinkedList.ExampleReverse | DoublyLinkedList.ReverseToLast |
| Circular_DoublyLinked_List.py:172 | after swapping every node's links, `head` becomes `head.prev`, which is the old second node | build [30, 40, 50] with `insert_at_end` and call `reverse`: the forward print is 40, 30, 50 | `head` becomes the old last node, so the forward print is 50, 40, 30 as the script's comment at line 209 says | high; not executed | CircularDoublyLinkedList.ExampleReverse | CircularDoublyLinkedList.ReverseToLast |
