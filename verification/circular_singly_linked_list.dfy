/** The circular singly linked list `CircularSinglyLinkedList`: a ring of
    nodes entered at `head`, each holding one value and a `next` link, the
    last node's `next` leading back to `head`.

    The node store is an arena indexed by `NodeId`; a node unlinked by a
    delete stays in the arena as garbage. The ghost `order` lists the ids of
    the ring's nodes from `head` round to the node before it, and the list's
    contents are the values stored at those ids. A `next` link is optional
    only because `reverse` clears one while it works; in a valid list every
    node in the ring has one.
 */
module CircularSinglyLinkedList {
  import opened Common

  datatype Node<T> = Node(data: T, next: Option<NodeId>)

  datatype List<T> = List(heap: seq<Node<T>>, head: Option<NodeId>)

  /** The list a fresh `CircularSinglyLinkedList()` holds. */
  function Empty<T>(): (r: List<T>)
    ensures Valid(r, [])
  {
    List([], None)
  }

  /** The id a node allocated now receives. */
  function NewId<T>(l: List<T>): NodeId {
    |l.heap|
  }

  ghost predicate InHeap<T>(heap: seq<Node<T>>, order: seq<NodeId>) {
    forall i :: 0 <= i < |order| ==> order[i] < |heap|
  }

  /** The values held by the nodes `order` names, in that order. */
  ghost function Values<T>(heap: seq<Node<T>>, order: seq<NodeId>): seq<T>
    requires InHeap(heap, order)
  {
    seq(|order|, i requires 0 <= i < |order| => heap[order[i]].data)
  }

  /** Following `next` from any node of `order` runs through the distinct
      nodes of `order` in turn, and the last one links back to the first. */
  ghost predicate Ring<T>(heap: seq<Node<T>>, order: seq<NodeId>) {
    Distinct(order) && NextChain(heap, order)
  }

  /** Each node of `order` links to the next one, and the last back to the first. */
  ghost predicate NextChain<T>(heap: seq<Node<T>>, order: seq<NodeId>) {
    && InHeap(heap, order)
    && (forall i {:trigger heap[order[i]]} :: 0 <= i < |order| - 1 ==>
          heap[order[i]].next == Some(order[i + 1]))
    && (order != [] ==> heap[order[|order| - 1]].next == Some(order[0]))
  }

  /** The class invariant: `head` enters the ring at the first node of `order`. */
  ghost predicate Valid<T>(l: List<T>, order: seq<NodeId>) {
    && Ring(l.heap, order)
    && l.head == (if order == [] then None else Some(order[0]))
  }

  /** Values only depend on the data fields of the nodes named. */
  lemma ValuesFrame<T>(h1: seq<Node<T>>, h2: seq<Node<T>>, order: seq<NodeId>)
    requires InHeap(h1, order) && |h1| <= |h2|
    requires forall id :: 0 <= id < |h1| ==> h2[id].data == h1[id].data
    ensures Values(h2, order) == Values(h1, order)
  {
  }

  /** No node among the first `k` of `order` holds `v`. */
  lemma ValuesMiss<T>(heap: seq<Node<T>>, order: seq<NodeId>, v: T, k: nat)
    requires InHeap(heap, order) && k <= |order|
    requires forall t {:trigger heap[order[t]]} :: 0 <= t < k ==> heap[order[t]].data != v
    ensures v !in Values(heap, order)[..k]
    ensures k == |order| ==> v !in Values(heap, order)
  {
    assert Values(heap, order)[..|order|] == Values(heap, order);
  }

  /** The values of `order` read from the first node on. */
  lemma ForwardValues<T>(heap: seq<Node<T>>, order: seq<NodeId>, s: seq<T>)
    requires InHeap(heap, order) && |s| == |order|
    requires forall t {:trigger s[t]} :: 0 <= t < |s| ==> s[t] == heap[order[t]].data
    ensures s == Values(heap, order)
  {
  }

  lemma ValuesInsertAt<T>(heap: seq<Node<T>>, order: seq<NodeId>, j: nat, id: NodeId)
    requires InHeap(heap, order) && j <= |order| && id < |heap|
    ensures InHeap(heap, InsertAt(order, j, id))
    ensures Values(heap, InsertAt(order, j, id)) == InsertAt(Values(heap, order), j, heap[id].data)
  {
    var o' := InsertAt(order, j, id);
    assert forall i :: 0 <= i < |o'| ==> o'[i] == (if i < j then order[i] else if i == j then id else order[i - 1]);
  }

  lemma ValuesRemoveAt<T>(heap: seq<Node<T>>, order: seq<NodeId>, j: nat)
    requires InHeap(heap, order) && j < |order|
    ensures InHeap(heap, RemoveAt(order, j))
    ensures Values(heap, RemoveAt(order, j)) == RemoveAt(Values(heap, order), j)
  {
    var o' := RemoveAt(order, j);
    assert forall i :: 0 <= i < |o'| ==> o'[i] == (if i < j then order[i] else order[i + 1]);
  }

  /** One step along the ring from position `k`; the step lands on the
      first node exactly when it leaves the last one. */
  lemma RingStep<T>(heap: seq<Node<T>>, order: seq<NodeId>, k: nat)
    requires Ring(heap, order) && k < |order|
    ensures heap[order[k]].next == Some(order[if k + 1 < |order| then k + 1 else 0])
    ensures heap[order[k]].next == Some(order[0]) <==> k == |order| - 1
  {
    if k + 1 < |order| {
      assert heap[order[k]].next == Some(order[k + 1]);
      assert order[k + 1] != order[0];
    }
  }

  /** A ring has no first node: read from any of its nodes it is a ring again. */
  lemma RingRotate<T>(heap: seq<Node<T>>, order: seq<NodeId>, k: nat)
    requires Ring(heap, order) && k <= |order|
    ensures Ring(heap, Rotate(order, k))
    ensures Values(heap, Rotate(order, k)) == Rotate(Values(heap, order), k)
  {
    ValuesRotate(heap, order, k);
    if k == 0 || k == |order| {
      assert Rotate(order, k) == order;
    } else {
      RotateDistinct(order, k);
      RotateNext(heap, order, k);
    }
  }

  lemma RotateNext<T>(heap: seq<Node<T>>, order: seq<NodeId>, k: nat)
    requires NextChain(heap, order) && 0 < k < |order|
    ensures NextChain(heap, Rotate(order, k))
  {
    var n := |order|;
    var o' := Rotate(order, k);
    ValuesRotate(heap, order, k);
    forall i | 0 <= i < n - 1
      ensures heap[o'[i]].next == Some(o'[i + 1])
    {
      if i < n - k - 1 {
        assert o'[i] == order[i + k] && o'[i + 1] == order[i + k + 1];
      } else if i == n - k - 1 {
        assert o'[i] == order[n - 1] && o'[i + 1] == order[0];
      } else {
        assert o'[i] == order[i + k - n] && o'[i + 1] == order[i + k - n + 1];
      }
    }
    assert o'[0] == order[k] && o'[n - 1] == order[k - 1];
  }

  lemma ValuesRotate<T>(heap: seq<Node<T>>, order: seq<NodeId>, k: nat)
    requires InHeap(heap, order) && k <= |order|
    ensures InHeap(heap, Rotate(order, k))
    ensures Values(heap, Rotate(order, k)) == Rotate(Values(heap, order), k)
  {
    var n := |order|;
    var s := Values(heap, order);
    var o' := Rotate(order, k);
    forall i | 0 <= i < n
      ensures o'[i] == (if i < n - k then order[i + k] else order[i + k - n])
      ensures Rotate(s, k)[i] == (if i < n - k then s[i + k] else s[i + k - n])
    {
    }
  }

  /** The store determines the order: no two orders describe the same list. */
  lemma {:induction false} OrderUnique<T>(l: List<T>, o1: seq<NodeId>, o2: seq<NodeId>)
    requires Valid(l, o1) && Valid(l, o2)
    ensures o1 == o2
  {
    if o1 == [] || o2 == [] {
      return;
    }
    var k := 1;
    while k < |o1| && k < |o2|
      invariant 1 <= k <= |o1| && k <= |o2|
      invariant o1[..k] == o2[..k]
    {
      assert o1[k - 1] == o2[k - 1];
      RingStep(l.heap, o1, k - 1);
      RingStep(l.heap, o2, k - 1);
      assert o1[..k + 1] == o1[..k] + [o1[k]];
      assert o2[..k + 1] == o2[..k] + [o2[k]];
      k := k + 1;
    }
    // One order ends at `k` and so leads back to `head`; the other, if longer,
    // would name `head` a second time.
    assert o1[k - 1] == o2[k - 1];
    RingStep(l.heap, o1, k - 1);
    RingStep(l.heap, o2, k - 1);
    assert o1 == o1[..k] && o2 == o2[..k];
  }

  /** The splice of `insert_at_position`: a new node holding `v` is linked
      between node `c`, at index `position - 1`, and its successor. At
      `position == |order|` the successor is `head`. */
  function LinkAfter<T>(l: List<T>, c: NodeId, v: T, ghost order: seq<NodeId>, ghost position: nat): (r: List<T>)
    requires Valid(l, order) && 1 <= position <= |order| && c == order[position - 1]
    ensures Valid(r, InsertAt(order, position, NewId(l)))
    ensures Values(r.heap, InsertAt(order, position, NewId(l))) == InsertAt(Values(l.heap, order), position, v)
  {
    var heap := l.heap[c := l.heap[c].(next := Some(NewId(l)))] + [Node(v, l.heap[c].next)];
    LinkAfterValid(l.heap, c, v, order, position);
    List(heap, l.head)
  }

  lemma LinkAfterValid<T>(heap: seq<Node<T>>, c: NodeId, v: T, order: seq<NodeId>, position: nat)
    requires Ring(heap, order) && 1 <= position <= |order| && c == order[position - 1]
    ensures var id := |heap|;
            var h' := heap[c := heap[c].(next := Some(id))] + [Node(v, heap[c].next)];
            var o' := InsertAt(order, position, id);
            && Ring(h', o')
            && Values(h', o') == InsertAt(Values(heap, order), position, v)
  {
    var id := |heap|;
    var h' := heap[c := heap[c].(next := Some(id))] + [Node(v, heap[c].next)];
    assert forall i {:trigger h'[order[i]]} :: 0 <= i < |order| && i != position - 1 ==> h'[order[i]] == heap[order[i]] by {
      forall i | 0 <= i < |order| && i != position - 1
        ensures h'[order[i]] == heap[order[i]]
      {
        assert order[i] != c;
      }
    }
    SpliceRing(heap, h', order, position, id);
    ValuesInsertAt(h', order, position, id);
    ValuesFrame(heap, h', order);
  }

  /** The links after the splice, for any store that adds node `id` and
      re-links exactly the node at `position - 1` to it. */
  lemma SpliceRing<T>(heap: seq<Node<T>>, h': seq<Node<T>>, order: seq<NodeId>, position: nat, id: NodeId)
    requires Ring(heap, order) && 1 <= position <= |order| && id == |heap| && |h'| == id + 1
    requires forall i {:trigger h'[order[i]]} :: 0 <= i < |order| && i != position - 1 ==> h'[order[i]] == heap[order[i]]
    requires h'[order[position - 1]].next == Some(id)
    requires h'[id].next == heap[order[position - 1]].next
    ensures Ring(h', InsertAt(order, position, id))
  {
    var n := |order|;
    var o' := InsertAt(order, position, id);
    DistinctInsertAt(order, position, id);
    RingStep(heap, order, position - 1);
    forall i | 0 <= i < n
      ensures h'[o'[i]].next == Some(o'[i + 1])
    {
      if i < position - 1 {
        assert o'[i] == order[i] && o'[i + 1] == order[i + 1];
      } else if i == position - 1 {
        assert o'[i] == order[i] && o'[i + 1] == id;
      } else if i == position {
        assert o'[i] == id && o'[i + 1] == order[i];
      } else {
        assert o'[i] == order[i - 1] && o'[i + 1] == order[i];
      }
    }
    assert h'[o'[n]].next == Some(o'[0]) by {
      assert o'[0] == order[0];
      if position < n {
        assert o'[n] == order[n - 1];
      }
    }
  }

  /** The unlink of the three deletes: node `c`, at index `k`, is re-linked
      past its successor, which drops out of the ring; when `c` is the last
      node the dropped successor is the first. */
  function UnlinkAfter<T>(l: List<T>, c: NodeId, ghost order: seq<NodeId>, ghost k: nat): (r: seq<Node<T>>)
    requires Ring(l.heap, order) && 2 <= |order| && k < |order| && c == order[k]
    ensures Ring(r, RemoveAt(order, Succ(k, |order|)))
    ensures Values(r, RemoveAt(order, Succ(k, |order|))) == RemoveAt(Values(l.heap, order), Succ(k, |order|))
  {
    UnlinkValid(l.heap, c, order, k);
    l.heap[c := l.heap[c].(next := l.heap[l.heap[c].next.value].next)]
  }

  lemma UnlinkValid<T>(heap: seq<Node<T>>, c: NodeId, order: seq<NodeId>, k: nat)
    requires Ring(heap, order) && 2 <= |order| && k < |order| && c == order[k]
    ensures var h' := heap[c := heap[c].(next := heap[heap[c].next.value].next)];
            var j := Succ(k, |order|);
            && Ring(h', RemoveAt(order, j))
            && Values(h', RemoveAt(order, j)) == RemoveAt(Values(heap, order), j)
  {
    var n := |order|;
    var h' := heap[c := heap[c].(next := heap[heap[c].next.value].next)];
    var j := Succ(k, n);
    RingStep(heap, order, k);
    assert forall i {:trigger h'[order[i]]} :: 0 <= i < n && i != k ==> h'[order[i]] == heap[order[i]] by {
      forall i | 0 <= i < n && i != k
        ensures h'[order[i]] == heap[order[i]]
      {
        assert order[i] != c;
      }
    }
    assert h'[c].next == heap[order[j]].next;
    if k + 1 < n {
      BypassRing(heap, h', order, k);
    } else {
      BypassFirstRing(heap, h', order);
    }
    ValuesRemoveAt(heap, order, j);
    ValuesFrame(heap, h', RemoveAt(order, j));
  }

  /** The links after the unlink, for any store that re-links exactly the
      node at `k` past its successor. */
  lemma BypassRing<T>(heap: seq<Node<T>>, h': seq<Node<T>>, order: seq<NodeId>, k: nat)
    requires Ring(heap, order) && k + 1 < |order| && |h'| == |heap|
    requires forall i {:trigger h'[order[i]]} :: 0 <= i < |order| && i != k ==> h'[order[i]] == heap[order[i]]
    requires h'[order[k]].next == heap[order[k + 1]].next
    ensures Ring(h', RemoveAt(order, k + 1))
  {
    var n := |order|;
    var o' := RemoveAt(order, k + 1);
    DistinctRemoveAt(order, k + 1);
    RingStep(heap, order, k + 1);
    forall i | 0 <= i < |o'| - 1
      ensures h'[o'[i]].next == Some(o'[i + 1])
    {
      if i < k {
        assert o'[i] == order[i] && o'[i + 1] == order[i + 1];
      } else if i == k {
        assert o'[i] == order[k] && o'[i + 1] == order[k + 2];
      } else {
        assert o'[i] == order[i + 1] && o'[i + 1] == order[i + 2];
      }
    }
    assert h'[o'[|o'| - 1]].next == Some(o'[0]) by {
      assert o'[0] == order[0];
      if k + 2 < n {
        assert o'[|o'| - 1] == order[n - 1];
      } else {
        assert o'[|o'| - 1] == order[k];
      }
    }
  }

  /** The links after the unlink that drops the first node, for any store
      that re-links exactly the last node past it. */
  lemma BypassFirstRing<T>(heap: seq<Node<T>>, h': seq<Node<T>>, order: seq<NodeId>)
    requires Ring(heap, order) && 2 <= |order| && |h'| == |heap|
    requires forall i {:trigger h'[order[i]]} :: 0 <= i < |order| - 1 ==> h'[order[i]] == heap[order[i]]
    requires h'[order[|order| - 1]].next == heap[order[0]].next
    ensures Ring(h', RemoveAt(order, 0))
  {
    var n := |order|;
    var o' := RemoveAt(order, 0);
    DistinctRemoveAt(order, 0);
    RingStep(heap, order, 0);
    forall i | 0 <= i < n - 2
      ensures h'[o'[i]].next == Some(o'[i + 1])
    {
      assert o'[i] == order[i + 1] && o'[i + 1] == order[i + 2];
    }
    assert o'[n - 2] == order[n - 1] && o'[0] == order[1];
  }

  /** The walk shared by the inserts and `delete_at_beginning`: from `head`
      to the node whose `next` is `head`. */
  method LastNode<T>(l: List<T>, ghost order: seq<NodeId>) returns (last: NodeId)
    requires Valid(l, order) && order != []
    ensures last == order[|order| - 1]
  {
    var n := |order|;
    last := l.head.value;
    ghost var k := 0;
    RingStep(l.heap, order, k);
    while l.heap[last].next != l.head
      invariant 0 <= k < n && last == order[k]
      invariant l.heap[last].next == l.head <==> k == n - 1
      decreases n - k
    {
      last := l.heap[last].next.value;
      k := k + 1;
      RingStep(l.heap, order, k);
    }
  }

  /** `insert_at_beginning`: the walk finds the last node, which then links
      to the new node; the new node links to the old `head` and replaces it. */
  method InsertAtBeginning<T>(l: List<T>, v: T, ghost order: seq<NodeId>) returns (r: List<T>)
    requires Valid(l, order)
    ensures Valid(r, [NewId(l)] + order)
    ensures Values(r.heap, [NewId(l)] + order) == [v] + Values(l.heap, order)
  {
    var id := NewId(l);
    if l.head.None? {
      return List(l.heap + [Node(v, Some(id))], Some(id));
    }
    var last := LastNode(l, order);
    var heap := l.heap[last := l.heap[last].(next := Some(id))] + [Node(v, l.head)];
    r := List(heap, Some(id));
    var n := |order|;
    // The ring of `insert_at_end`, entered at the new node.
    LinkAfterValid(l.heap, last, v, order, n);
    assert InsertAt(order, n, id) == order + [id];
    assert Rotate(order + [id], n) == [id] + order;
    RingRotate(heap, order + [id], n);
    assert InsertAt(Values(l.heap, order), n, v) == Values(l.heap, order) + [v];
    assert Rotate(Values(l.heap, order) + [v], n) == [v] + Values(l.heap, order);
  }

  /** `insert_at_end`: the walk finds the last node and the new node is
      linked between it and `head`. */
  method InsertAtEnd<T>(l: List<T>, v: T, ghost order: seq<NodeId>) returns (r: List<T>)
    requires Valid(l, order)
    ensures Valid(r, order + [NewId(l)])
    ensures Values(r.heap, order + [NewId(l)]) == Values(l.heap, order) + [v]
  {
    var id := NewId(l);
    if l.head.None? {
      return List(l.heap + [Node(v, Some(id))], Some(id));
    }
    var last := LastNode(l, order);
    var heap := l.heap[last := l.heap[last].(next := Some(id))] + [Node(v, l.head)];
    r := List(heap, l.head);
    // The same store as splicing after the last node, whose `next` is `head`.
    var n := |order|;
    LinkAfterValid(l.heap, last, v, order, n);
    assert InsertAt(order, n, id) == order + [id];
    assert InsertAt(Values(l.heap, order), n, v) == Values(l.heap, order) + [v];
  }

  /** `insert_at_position`: a negative position, or one past the end, reports
      an error and leaves the list alone; position 0 is `insert_at_beginning`;
      otherwise the new node is linked after the node at `position - 1`. */
  method InsertAtPosition<T>(l: List<T>, v: T, position: int, ghost order: seq<NodeId>)
    returns (r: Outcome<List<T>>)
    requires Valid(l, order)
    ensures r.status == NegativePosition <==> position < 0
    ensures r.status == OutOfRange <==> position > |order|
    ensures r.status == Done <==> 0 <= position <= |order|
    ensures r.status != Done ==> r.list == l
    ensures 0 <= position <= |order| ==>
              && Valid(r.list, InsertAt(order, position, NewId(l)))
              && Values(r.list.heap, InsertAt(order, position, NewId(l)))
                 == InsertAt(Values(l.heap, order), position, v)
  {
    if position < 0 {
      return Outcome(l, NegativePosition);
    }
    if position == 0 {
      var r0 := InsertAtBeginning(l, v, order);
      PrependIsInsertAt(order, NewId(l));
      PrependIsInsertAt(Values(l.heap, order), v);
      return Outcome(r0, Done);
    }
    var n := |order|;
    var cur := l.head;
    var count := 0;
    if n > 0 {
      RingStep(l.heap, order, 0);
    }
    while cur.Some? && count < position - 1 && l.heap[cur.value].next != l.head
      invariant 0 <= count <= position - 1
      invariant n == 0 ==> cur.None?
      invariant n > 0 ==> count < n && cur == Some(order[count])
      invariant n > 0 ==> (l.heap[order[count]].next == l.head <==> count == n - 1)
      decreases position - 1 - count
    {
      cur := l.heap[cur.value].next;
      count := count + 1;
      RingStep(l.heap, order, count);
    }
    // Precedence as in the source: `and` binds tighter than `or`.
    if cur.None? || (l.heap[cur.value].next == l.head && count < position - 1) {
      return Outcome(l, OutOfRange);
    }
    assert count == position - 1 && position <= n;
    r := Outcome(LinkAfter(l, cur.value, v, order, position), Done);
  }

  /** `delete_at_beginning`: a single node empties the list; otherwise the
      last node links past `head`, and `head` moves to the second node. */
  method DeleteAtBeginning<T>(l: List<T>, ghost order: seq<NodeId>) returns (r: Outcome<List<T>>)
    requires Valid(l, order)
    ensures r.status == EmptyList <==> order == []
    ensures r.status != EmptyList ==> r.status == Done
    ensures order == [] ==> r.list == l
    ensures order != [] ==>
              Valid(r.list, order[1..]) && Values(r.list.heap, order[1..]) == Values(l.heap, order)[1..]
  {
    if l.head.None? {
      return Outcome(l, EmptyList);
    }
    var h := l.head.value;
    RingStep(l.heap, order, 0);
    if l.heap[h].next == l.head {
      return Outcome(List(l.heap, None), Done);
    }
    var last := LastNode(l, order);
    var n := |order|;
    var heap := UnlinkAfter(l, last, order, n - 1);
    r := Outcome(List(heap, l.heap[h].next), Done);
    assert RemoveAt(order, 0) == order[1..];
    assert RemoveAt(Values(l.heap, order), 0) == Values(l.heap, order)[1..];
  }

  /** `delete_at_end`: a single node empties the list; otherwise the walk
      stops at the second-to-last node, which then links to `head`. */
  method DeleteAtEnd<T>(l: List<T>, ghost order: seq<NodeId>) returns (r: Outcome<List<T>>)
    requires Valid(l, order)
    ensures r.status == EmptyList <==> order == []
    ensures r.status != EmptyList ==> r.status == Done
    ensures order == [] ==> r.list == l
    ensures order != [] ==>
              && Valid(r.list, order[..|order| - 1])
              && Values(r.list.heap, order[..|order| - 1]) == Values(l.heap, order)[..|order| - 1]
  {
    if l.head.None? {
      return Outcome(l, EmptyList);
    }
    var h := l.head.value;
    RingStep(l.heap, order, 0);
    if l.heap[h].next == l.head {
      return Outcome(List(l.heap, None), Done);
    }
    var n := |order|;
    var cur := h;
    ghost var k := 0;
    RingStep(l.heap, order, 1);
    while l.heap[l.heap[cur].next.value].next != l.head
      invariant 0 <= k <= n - 2 && cur == order[k]
      invariant l.heap[cur].next == Some(order[k + 1])
      invariant l.heap[order[k + 1]].next == l.head <==> k == n - 2
      decreases n - k
    {
      cur := l.heap[cur].next.value;
      k := k + 1;
      RingStep(l.heap, order, k);
      RingStep(l.heap, order, k + 1);
    }
    var heap := UnlinkAfter(l, cur, order, k);
    r := Outcome(List(heap, l.head), Done);
    assert RemoveAt(order, n - 1) == order[..n - 1];
    assert RemoveAt(Values(l.heap, order), n - 1) == Values(l.heap, order)[..n - 1];
  }

  /** `delete_by_value`: removes the first node holding `v`; when `head` holds
      it, exactly as `delete_at_beginning` does, otherwise by re-linking its
      predecessor past it. */
  method DeleteByValue<T(==)>(l: List<T>, v: T, ghost order: seq<NodeId>) returns (r: Outcome<List<T>>)
    requires Valid(l, order)
    ensures r.status == EmptyList <==> order == []
    ensures r.status == NotFound <==> order != [] && v !in Values(l.heap, order)
    ensures r.status == Done <==> v in Values(l.heap, order)
    ensures r.status != Done ==> r.list == l
    ensures r.status == Done ==>
              var j := FirstIndex(Values(l.heap, order), v);
              && Valid(r.list, RemoveAt(order, j))
              && Values(r.list.heap, RemoveAt(order, j)) == RemoveFirst(Values(l.heap, order), v)
  {
    if l.head.None? {
      return Outcome(l, EmptyList);
    }
    ghost var s := Values(l.heap, order);
    var h := l.head.value;
    if l.heap[h].data == v {
      FirstIndexAt(s, v, 0);
      RemoveAtIsTail(order);
      RemoveAtIsTail(s);
      r := DeleteAtBeginning(l, order);
      return;
    }
    var n := |order|;
    var cur := h;
    ghost var k := 0;
    RingStep(l.heap, order, 0);
    while l.heap[cur].next != l.head
      invariant 0 <= k < n && cur == order[k]
      invariant l.heap[cur].next == l.head <==> k == n - 1
      invariant forall t {:trigger l.heap[order[t]]} :: 0 <= t < k + 1 ==> l.heap[order[t]].data != v
      decreases n - k
    {
      var nx := l.heap[cur].next.value;
      if l.heap[nx].data == v {
        assert s[k + 1] == v;
        ValuesMiss(l.heap, order, v, k + 1);
        FirstIndexAt(s, v, k + 1);
        var heap := UnlinkAfter(l, cur, order, k);
        return Outcome(List(heap, l.head), Done);
      }
      cur := nx;
      k := k + 1;
      RingStep(l.heap, order, k);
    }
    ValuesMiss(l.heap, order, v, k + 1);
    r := Outcome(l, NotFound);
  }

  /** `search`: one round from `head`, stopping at the first node holding `v`. */
  method Search<T(==)>(l: List<T>, v: T, ghost order: seq<NodeId>) returns (found: bool)
    requires Valid(l, order)
    ensures found <==> v in Values(l.heap, order)
  {
    if l.head.None? {
      return false;
    }
    var n := |order|;
    var h := l.head.value;
    var cur := h;
    ghost var k := 0;
    while true
      invariant 0 <= k < n && cur == order[k]
      invariant forall t {:trigger l.heap[order[t]]} :: 0 <= t < k ==> l.heap[order[t]].data != v
      decreases n - k
    {
      if l.heap[cur].data == v {
        assert Values(l.heap, order)[k] == v;
        return true;
      }
      RingStep(l.heap, order, k);
      cur := l.heap[cur].next.value;
      k := k + 1;
      if cur == h {
        break;
      }
    }
    ValuesMiss(l.heap, order, v, k);
    return false;
  }

  /** `length`: counts the nodes of one round from `head`. */
  method Length<T>(l: List<T>, ghost order: seq<NodeId>) returns (count: nat)
    requires Valid(l, order)
    ensures count == |Values(l.heap, order)|
  {
    if l.head.None? {
      return 0;
    }
    var n := |order|;
    var h := l.head.value;
    var cur := h;
    count := 0;
    while true
      invariant 0 <= count < n && cur == order[count]
      decreases n - count
    {
      RingStep(l.heap, order, count);
      count := count + 1;
      cur := l.heap[cur].next.value;
      if cur == h {
        break;
      }
    }
  }

  /** `print_list`: the values of one round from `head`; none for an empty list. */
  method ToSeq<T>(l: List<T>, ghost order: seq<NodeId>) returns (s: seq<T>)
    requires Valid(l, order)
    ensures s == Values(l.heap, order)
  {
    s := [];
    if l.head.None? {
      return;
    }
    var n := |order|;
    var h := l.head.value;
    var cur := h;
    ghost var k := 0;
    while true
      invariant 0 <= k < n && cur == order[k]
      invariant |s| == k
      invariant forall t {:trigger s[t]} :: 0 <= t < k ==> s[t] == l.heap[order[t]].data
      decreases n - k
    {
      s := s + [l.heap[cur].data];
      RingStep(l.heap, order, k);
      cur := l.heap[cur].next.value;
      k := k + 1;
      if cur == h {
        break;
      }
    }
    ForwardValues(l.heap, order, s);
  }

  /** `reverse`: turns every `next` link of the ring round, then the old last
      node becomes `head` and the old `head` links to it. */
  method Reverse<T>(l: List<T>, ghost order: seq<NodeId>) returns (r: List<T>)
    requires Valid(l, order)
    ensures Valid(r, Common.Reverse(order))
    ensures Values(r.heap, Common.Reverse(order)) == Common.Reverse(Values(l.heap, order))
  {
    if l.head.None? {
      return l;
    }
    var h := l.head.value;
    RingStep(l.heap, order, 0);
    if l.heap[h].next == l.head {
      assert Common.Reverse(order) == order;
      assert Common.Reverse(Values(l.heap, order)) == Values(l.heap, order);
      return l;
    }
    var heap, last := TurnLinks(l, order);
    var tail := h;
    heap := heap[tail := heap[tail].(next := Some(last))];
    r := List(heap, Some(last));
    ReversedRingValid(l, heap, order);
  }

  /** The loop of `reverse`: one round from `head`, pointing each node's
      `next` at the node visited before it (`None` for `head`); `last` is the
      final node visited. */
  method TurnLinks<T>(l: List<T>, ghost order: seq<NodeId>) returns (heap: seq<Node<T>>, last: NodeId)
    requires Valid(l, order) && order != []
    ensures |heap| == |l.heap| && last == order[|order| - 1]
    ensures forall id :: 0 <= id < |heap| ==> heap[id].data == l.heap[id].data
    ensures forall i {:trigger heap[order[i]]} :: 0 <= i < |order| ==> heap[order[i]].next == Before(order, i)
  {
    var n := |order|;
    var h := l.head.value;
    var prev: Option<NodeId> := None;
    var cur := h;
    heap := l.heap;
    ghost var k := 0;
    while true
      invariant 0 <= k < n && cur == order[k] && |heap| == |l.heap|
      invariant prev == Before(order, k)
      invariant forall id :: 0 <= id < |heap| ==> heap[id].data == l.heap[id].data
      invariant forall i {:trigger heap[order[i]]} :: 0 <= i < k ==> heap[order[i]].next == Before(order, i)
      invariant forall i {:trigger heap[order[i]]} :: k <= i < n ==> heap[order[i]] == l.heap[order[i]]
      decreases n - k
    {
      RingStep(l.heap, order, k);
      var nextNode := heap[cur].next.value;
      heap := heap[cur := heap[cur].(next := prev)];
      prev := Some(cur);
      cur := nextNode;
      k := k + 1;
      if cur == h {
        break;
      }
    }
    last := prev.value;
  }

  /** Once every `next` link points backwards and the first node links to
      the last, the ring read from the old last node is the reversed order. */
  lemma ReversedRingValid<T>(l: List<T>, heap: seq<Node<T>>, order: seq<NodeId>)
    requires Distinct(order) && InHeap(l.heap, order) && |order| >= 2 && |heap| == |l.heap|
    requires forall id :: 0 <= id < |heap| ==> heap[id].data == l.heap[id].data
    requires heap[order[0]].next == Some(order[|order| - 1])
    requires forall i {:trigger heap[order[i]]} :: 1 <= i < |order| ==> heap[order[i]].next == Some(order[i - 1])
    ensures Valid(List(heap, Some(order[|order| - 1])), Common.Reverse(order))
    ensures Values(heap, Common.Reverse(order)) == Common.Reverse(Values(l.heap, order))
  {
    var n := |order|;
    var o' := Common.Reverse(order);
    DistinctReverse(order);
    ValuesReverse(l.heap, heap, order);
    BackChain(heap, order, o');
  }

  /** Links that all point one node back make a ring of the order read backwards. */
  lemma BackChain<T>(heap: seq<Node<T>>, order: seq<NodeId>, o': seq<NodeId>)
    requires |order| >= 2 && |o'| == |order| && InHeap(heap, order)
    requires forall i {:trigger o'[i]} :: 0 <= i < |o'| ==> o'[i] == order[|order| - 1 - i]
    requires heap[order[0]].next == Some(order[|order| - 1])
    requires forall i {:trigger heap[order[i]]} :: 1 <= i < |order| ==> heap[order[i]].next == Some(order[i - 1])
    ensures NextChain(heap, o')
  {
    var n := |order|;
    forall i | 0 <= i < n
      ensures o'[i] < |heap|
    {
      assert o'[i] == order[n - 1 - i];
    }
    forall i | 0 <= i < n - 1
      ensures heap[o'[i]].next == Some(o'[i + 1])
    {
      assert o'[i] == order[n - 1 - i] && o'[i + 1] == order[n - 2 - i];
      assert heap[order[n - 1 - i]].next == Some(order[n - 2 - i]);
    }
    assert o'[n - 1] == order[0] && o'[0] == order[n - 1];
  }

  /** Reading the reversed order gives the values reversed. */
  lemma ValuesReverse<T>(h0: seq<Node<T>>, heap: seq<Node<T>>, order: seq<NodeId>)
    requires InHeap(h0, order) && |heap| == |h0|
    requires forall id :: 0 <= id < |heap| ==> heap[id].data == h0[id].data
    ensures InHeap(heap, Common.Reverse(order))
    ensures Values(heap, Common.Reverse(order)) == Common.Reverse(Values(h0, order))
  {
    var n := |order|;
    forall i | 0 <= i < n
      ensures Common.Reverse(order)[i] == order[n - 1 - i]
    {
    }
  }

  /** Reversing twice restores the original list: same ring, same contents. */
  method ReverseTwice<T>(l: List<T>, ghost order: seq<NodeId>) returns (r: List<T>)
    requires Valid(l, order)
    ensures Valid(r, order) && r.head == l.head
    ensures Values(r.heap, order) == Values(l.heap, order)
  {
    var r1 := Reverse(l, order);
    r := Reverse(r1, Common.Reverse(order));
    ReverseReverse(order);
    ReverseReverse(Values(l.heap, order));
  }

  /** The module-level example, first part: build [10, 15, 20] with one
      insert of each kind, print it and find 15. */
  method ExampleInsert() returns (l: List<int>, ghost o: seq<NodeId>, printed: seq<int>, found: bool)
    ensures Valid(l, o) && Values(l.heap, o) == [10, 15, 20]
    ensures printed == [10, 15, 20]
    ensures found
  {
    l := Empty();
    o := [];
    var id := NewId(l);
    l := InsertAtBeginning(l, 10, o);
    o := [id] + o;
    assert Values(l.heap, o) == [10];
    id := NewId(l);
    l := InsertAtEnd(l, 20, o);
    o := o + [id];
    assert Values(l.heap, o) == [10, 20];
    id := NewId(l);
    var out := InsertAtPosition(l, 15, 1, o);
    l, o := out.list, InsertAt(o, 1, id);
    assert Values(l.heap, o) == [10, 15, 20];
    printed := ToSeq(l, o);
    found := Search(l, 15, o);
  }

  /** The module-level example, continued: the three deletes empty
      [10, 15, 20], whose length is then 0. */
  method ExampleDelete(l: List<int>, ghost o: seq<NodeId>) returns (r: List<int>, ghost o': seq<NodeId>, printed: seq<int>, emptied: nat)
    requires Valid(l, o) && Values(l.heap, o) == [10, 15, 20]
    ensures Valid(r, o') && o' == []
    ensures printed == []
    ensures emptied == 0
  {
    var out := DeleteAtBeginning(l, o);
    r, o' := out.list, o[1..];
    assert Values(r.heap, o') == [15, 20];
    out := DeleteAtEnd(r, o');
    r, o' := out.list, o'[..|o'| - 1];
    assert Values(r.heap, o') == [15];
    out := DeleteByValue(r, 15, o');
    assert FirstIndex(Values(r.heap, o'), 15) == 0;
    r, o' := out.list, RemoveAt(o', 0);
    printed := ToSeq(r, o');
    emptied := Length(r, o');
  }

  /** The module-level example, last part: on the emptied list, append 30,
      40 and 50. */
  method ExampleAppend(l: List<int>) returns (r: List<int>, ghost o: seq<NodeId>, forward: seq<int>)
    requires Valid(l, [])
    ensures Valid(r, o) && Values(r.heap, o) == [30, 40, 50]
    ensures forward == [30, 40, 50]
  {
    o := [];
    r := l;
    var id := NewId(r);
    r := InsertAtEnd(r, 30, o);
    o := o + [id];
    assert Values(r.heap, o) == [30];
    id := NewId(r);
    r := InsertAtEnd(r, 40, o);
    o := o + [id];
    assert Values(r.heap, o) == [30, 40];
    id := NewId(r);
    r := InsertAtEnd(r, 50, o);
    o := o + [id];
    assert Values(r.heap, o) == [30, 40, 50];
    forward := ToSeq(r, o);
  }

  /** The module-level example, end: reversing [30, 40, 50] gives
      [50, 40, 30], as its closing comment says. */
  method ExampleReverse(l: List<int>, ghost o: seq<NodeId>) returns (reversed: seq<int>)
    requires Valid(l, o) && Values(l.heap, o) == [30, 40, 50]
    ensures reversed == [50, 40, 30]
  {
    var r := Reverse(l, o);
    reversed := ToSeq(r, Common.Reverse(o));
  }
}
