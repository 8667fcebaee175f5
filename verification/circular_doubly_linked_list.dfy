/** The circular doubly linked list `CircularDoublyLinkedList`: a ring of
    nodes entered at `head`, each holding one value, a `next` link and a
    `prev` link; `next` of the last node is `head` and `prev` of `head` is
    the last node.

    The node store is an arena indexed by `NodeId`; a node unlinked by a
    delete stays in the arena as garbage. The ghost `order` lists the ids of
    the ring's nodes from `head` round to `head.prev`, and the list's
    contents are the values stored at those ids.
 */
module CircularDoublyLinkedList {
  import opened Common

  datatype Node<T> = Node(data: T, next: NodeId, prev: NodeId)

  datatype List<T> = List(heap: seq<Node<T>>, head: Option<NodeId>)

  /** The list a fresh `CircularDoublyLinkedList()` holds. */
  function Empty<T>(): (r: List<T>)
    ensures Valid(r, [])
  {
    List([], None)
  }

  /** The id a node allocated now receives. */
  function NewId<T>(l: List<T>): NodeId {
    |l.heap|
  }

  ghost predicate InHeap<T>(heap: seq<Node<T>>, order: seq<NodeId>) {
    forall i :: 0 <= i < |order| ==> order[i] < |heap|
  }

  /** The values held by the nodes `order` names, in that order. */
  ghost function Values<T>(heap: seq<Node<T>>, order: seq<NodeId>): seq<T>
    requires InHeap(heap, order)
  {
    seq(|order|, i requires 0 <= i < |order| => heap[order[i]].data)
  }

  /** Along `next`, each node of `order` leads to the following one and the
      last node leads back to the first. */
  ghost predicate NextChain<T>(heap: seq<Node<T>>, order: seq<NodeId>) {
    && InHeap(heap, order)
    && (forall i {:trigger heap[order[i]]} :: 0 <= i < |order| - 1 ==> heap[order[i]].next == order[i + 1])
    && (order != [] ==> heap[order[|order| - 1]].next == order[0])
  }

  /** Along `prev`, each node of `order` leads to the preceding one and the
      first node leads back to the last. */
  ghost predicate PrevChain<T>(heap: seq<Node<T>>, order: seq<NodeId>) {
    && InHeap(heap, order)
    && (forall i {:trigger heap[order[i]]} :: 0 < i < |order| ==> heap[order[i]].prev == order[i - 1])
    && (order != [] ==> heap[order[0]].prev == order[|order| - 1])
  }

  /** The distinct nodes of `order` form a ring both ways. */
  ghost predicate Ring<T>(heap: seq<Node<T>>, order: seq<NodeId>) {
    Distinct(order) && NextChain(heap, order) && PrevChain(heap, order)
  }

  /** The class invariant: `head` enters the ring at the first node of `order`. */
  ghost predicate Valid<T>(l: List<T>, order: seq<NodeId>) {
    && Ring(l.heap, order)
    && l.head == (if order == [] then None else Some(order[0]))
  }

  /** Values only depend on the data fields of the nodes named. */
  lemma ValuesFrame<T>(h1: seq<Node<T>>, h2: seq<Node<T>>, order: seq<NodeId>)
    requires InHeap(h1, order) && |h1| <= |h2|
    requires forall id :: 0 <= id < |h1| ==> h2[id].data == h1[id].data
    ensures Values(h2, order) == Values(h1, order)
  {
  }

  lemma ValuesInsertAt<T>(heap: seq<Node<T>>, order: seq<NodeId>, j: nat, id: NodeId)
    requires InHeap(heap, order) && j <= |order| && id < |heap|
    ensures InHeap(heap, InsertAt(order, j, id))
    ensures Values(heap, InsertAt(order, j, id)) == InsertAt(Values(heap, order), j, heap[id].data)
  {
    var o' := InsertAt(order, j, id);
    assert forall i :: 0 <= i < |o'| ==> o'[i] == (if i < j then order[i] else if i == j then id else order[i - 1]);
  }

  lemma ValuesRemoveAt<T>(heap: seq<Node<T>>, order: seq<NodeId>, j: nat)
    requires InHeap(heap, order) && j < |order|
    ensures InHeap(heap, RemoveAt(order, j))
    ensures Values(heap, RemoveAt(order, j)) == RemoveAt(Values(heap, order), j)
  {
    var o' := RemoveAt(order, j);
    assert forall i :: 0 <= i < |o'| ==> o'[i] == (if i < j then order[i] else order[i + 1]);
  }

  lemma ValuesRotate<T>(heap: seq<Node<T>>, order: seq<NodeId>, k: nat)
    requires InHeap(heap, order) && k <= |order|
    ensures InHeap(heap, Rotate(order, k))
    ensures Values(heap, Rotate(order, k)) == Rotate(Values(heap, order), k)
  {
    var n := |order|;
    var s := Values(heap, order);
    var o' := Rotate(order, k);
    forall i | 0 <= i < n
      ensures o'[i] == (if i < n - k then order[i + k] else order[i + k - n])
      ensures Rotate(s, k)[i] == (if i < n - k then s[i + k] else s[i + k - n])
    {
    }
  }

  /** One step either way along the ring from position `k`: forwards the
      step lands on the first node exactly when it leaves the last one, and
      backwards it lands on the last node exactly when it leaves the first. */
  lemma RingStep<T>(heap: seq<Node<T>>, order: seq<NodeId>, k: nat)
    requires Ring(heap, order) && k < |order|
    ensures heap[order[k]].next == order[if k + 1 < |order| then k + 1 else 0]
    ensures heap[order[k]].next == order[0] <==> k == |order| - 1
    ensures heap[order[k]].prev == order[if k > 0 then k - 1 else |order| - 1]
    ensures heap[order[k]].prev == order[|order| - 1] <==> k == 0
  {
    var n := |order|;
    if k + 1 < n {
      assert heap[order[k]].next == order[k + 1];
      assert order[k + 1] != order[0];
    }
    if k > 0 {
      assert heap[order[k]].prev == order[k - 1];
      assert order[k - 1] != order[n - 1];
    }
  }

  /** A ring has no first node: read from any of its nodes it is a ring again. */
  lemma RingRotate<T>(heap: seq<Node<T>>, order: seq<NodeId>, k: nat)
    requires Ring(heap, order) && k <= |order|
    ensures Ring(heap, Rotate(order, k))
    ensures Values(heap, Rotate(order, k)) == Rotate(Values(heap, order), k)
  {
    ValuesRotate(heap, order, k);
    if k == 0 || k == |order| {
      assert Rotate(order, k) == order;
      return;
    }
    RotateDistinct(order, k);
    RotateNext(heap, order, k);
    RotatePrev(heap, order, k);
  }

  lemma RotateNext<T>(heap: seq<Node<T>>, order: seq<NodeId>, k: nat)
    requires NextChain(heap, order) && 0 < k < |order|
    ensures NextChain(heap, Rotate(order, k))
  {
    var n := |order|;
    var o' := Rotate(order, k);
    ValuesRotate(heap, order, k);
    forall i | 0 <= i < n - 1
      ensures heap[o'[i]].next == o'[i + 1]
    {
      if i < n - k - 1 {
        assert o'[i] == order[i + k] && o'[i + 1] == order[i + k + 1];
      } else if i == n - k - 1 {
        assert o'[i] == order[n - 1] && o'[i + 1] == order[0];
      } else {
        assert o'[i] == order[i + k - n] && o'[i + 1] == order[i + k - n + 1];
      }
    }
    assert o'[0] == order[k] && o'[n - 1] == order[k - 1];
  }

  lemma RotatePrev<T>(heap: seq<Node<T>>, order: seq<NodeId>, k: nat)
    requires PrevChain(heap, order) && 0 < k < |order|
    ensures PrevChain(heap, Rotate(order, k))
  {
    var n := |order|;
    var o' := Rotate(order, k);
    ValuesRotate(heap, order, k);
    forall i | 0 < i < n
      ensures heap[o'[i]].prev == o'[i - 1]
    {
      if i < n - k {
        assert o'[i] == order[i + k] && o'[i - 1] == order[i + k - 1];
      } else if i == n - k {
        assert o'[i] == order[0] && o'[i - 1] == order[n - 1];
      } else {
        assert o'[i] == order[i + k - n] && o'[i - 1] == order[i + k - n - 1];
      }
    }
    assert o'[0] == order[k] && o'[n - 1] == order[k - 1];
  }

  /** The store determines the order: no two orders describe the same list. */
  lemma {:induction false} OrderUnique<T>(l: List<T>, o1: seq<NodeId>, o2: seq<NodeId>)
    requires Valid(l, o1) && Valid(l, o2)
    ensures o1 == o2
  {
    if o1 == [] || o2 == [] {
      return;
    }
    var k := 1;
    while k < |o1| && k < |o2|
      invariant 1 <= k <= |o1| && k <= |o2|
      invariant o1[..k] == o2[..k]
    {
      assert o1[k - 1] == o2[k - 1];
      RingStep(l.heap, o1, k - 1);
      RingStep(l.heap, o2, k - 1);
      assert o1[..k + 1] == o1[..k] + [o1[k]];
      assert o2[..k + 1] == o2[..k] + [o2[k]];
      k := k + 1;
    }
    // One order ends at `k` and so leads back to `head`; the other, if longer,
    // would name `head` a second time.
    assert o1[k - 1] == o2[k - 1];
    RingStep(l.heap, o1, k - 1);
    RingStep(l.heap, o2, k - 1);
    assert o1 == o1[..k] && o2 == o2[..k];
  }

  /** The splice shared by the three inserts, for any store that adds node
      `|heap|` holding `v` between the nodes at `p - 1` and `b`, the one
      after it round the ring, and rewrites no other link. */
  lemma SpliceValid<T>(heap: seq<Node<T>>, h': seq<Node<T>>, order: seq<NodeId>, p: nat, b: nat, v: T)
    requires Ring(heap, order) && 1 <= p <= |order| && b == (if p < |order| then p else 0)
    requires |h'| == |heap| + 1
    requires forall x :: 0 <= x < |heap| ==> h'[x].data == heap[x].data
    requires forall i {:trigger h'[order[i]]} :: 0 <= i < |order| && i != p - 1 ==> h'[order[i]].next == heap[order[i]].next
    requires forall i {:trigger h'[order[i]]} :: 0 <= i < |order| && i != b ==> h'[order[i]].prev == heap[order[i]].prev
    requires h'[order[p - 1]].next == |heap| && h'[order[b]].prev == |heap|
    requires h'[|heap|] == Node(v, order[b], order[p - 1])
    ensures Ring(h', InsertAt(order, p, |heap|))
    ensures Values(h', InsertAt(order, p, |heap|)) == InsertAt(Values(heap, order), p, v)
  {
    var id := |heap|;
    assert id !in order;
    DistinctInsertAt(order, p, id);
    SpliceNext(heap, h', order, p, b, id);
    SplicePrev(heap, h', order, p, b, id);
    ValuesInsertAt(h', order, p, id);
    ValuesFrame(heap, h', order);
  }

  lemma SpliceNext<T>(heap: seq<Node<T>>, h': seq<Node<T>>, order: seq<NodeId>, p: nat, b: nat, id: NodeId)
    requires NextChain(heap, order) && 1 <= p <= |order| && b == (if p < |order| then p else 0)
    requires |heap| <= id < |h'|
    requires forall i {:trigger h'[order[i]]} :: 0 <= i < |order| && i != p - 1 ==> h'[order[i]].next == heap[order[i]].next
    requires h'[order[p - 1]].next == id && h'[id].next == order[b]
    ensures NextChain(h', InsertAt(order, p, id))
  {
    var n := |order|;
    var o' := InsertAt(order, p, id);
    forall i | 0 <= i < n + 1
      ensures o'[i] < |h'|
    {
      assert o'[i] == (if i < p then order[i] else if i == p then id else order[i - 1]);
    }
    forall i | 0 <= i < n
      ensures h'[o'[i]].next == o'[i + 1]
    {
      if i < p - 1 {
        assert o'[i] == order[i] && o'[i + 1] == order[i + 1];
      } else if i == p - 1 {
        assert o'[i] == order[i] && o'[i + 1] == id;
      } else if i == p {
        assert o'[i] == id && o'[i + 1] == order[i];
      } else {
        assert o'[i] == order[i - 1] && o'[i + 1] == order[i];
      }
    }
    assert o'[0] == order[0];
    assert o'[n] == (if p == n then id else order[n - 1]);
  }

  lemma SplicePrev<T>(heap: seq<Node<T>>, h': seq<Node<T>>, order: seq<NodeId>, p: nat, b: nat, id: NodeId)
    requires PrevChain(heap, order) && 1 <= p <= |order| && b == (if p < |order| then p else 0)
    requires |heap| <= id < |h'|
    requires forall i {:trigger h'[order[i]]} :: 0 <= i < |order| && i != b ==> h'[order[i]].prev == heap[order[i]].prev
    requires h'[order[b]].prev == id && h'[id].prev == order[p - 1]
    ensures PrevChain(h', InsertAt(order, p, id))
  {
    var n := |order|;
    var o' := InsertAt(order, p, id);
    forall i | 0 <= i < n + 1
      ensures o'[i] < |h'|
    {
      assert o'[i] == (if i < p then order[i] else if i == p then id else order[i - 1]);
    }
    forall i | 0 < i <= n
      ensures h'[o'[i]].prev == o'[i - 1]
    {
      if i < p {
        assert o'[i] == order[i] && o'[i - 1] == order[i - 1];
      } else if i == p {
        assert o'[i] == id && o'[i - 1] == order[i - 1];
      } else if i == p + 1 {
        assert o'[i] == order[p] && o'[i - 1] == id;
      } else {
        assert o'[i] == order[i - 1] && o'[i - 1] == order[i - 2];
      }
    }
    assert o'[0] == order[0];
    assert o'[n] == (if p == n then id else order[n - 1]);
  }

  /** The unlink shared by the three deletes, for any store that re-links
      the neighbours `a` and `b` of position `j` to each other and rewrites
      no other link. */
  lemma BypassValid<T>(heap: seq<Node<T>>, h': seq<Node<T>>, order: seq<NodeId>, j: nat, a: nat, b: nat)
    requires Ring(heap, order) && 2 <= |order| && j < |order|
    requires a == (if j > 0 then j - 1 else |order| - 1) && b == (if j + 1 < |order| then j + 1 else 0)
    requires |h'| == |heap|
    requires forall x :: 0 <= x < |heap| ==> h'[x].data == heap[x].data
    requires forall i {:trigger h'[order[i]]} :: 0 <= i < |order| && i != a ==> h'[order[i]].next == heap[order[i]].next
    requires forall i {:trigger h'[order[i]]} :: 0 <= i < |order| && i != b ==> h'[order[i]].prev == heap[order[i]].prev
    requires h'[order[a]].next == order[b] && h'[order[b]].prev == order[a]
    ensures Ring(h', RemoveAt(order, j))
    ensures Values(h', RemoveAt(order, j)) == RemoveAt(Values(heap, order), j)
  {
    DistinctRemoveAt(order, j);
    BypassNext(heap, h', order, j, a, b);
    BypassPrev(heap, h', order, j, a, b);
    ValuesRemoveAt(heap, order, j);
    ValuesFrame(heap, h', RemoveAt(order, j));
  }

  lemma BypassNext<T>(heap: seq<Node<T>>, h': seq<Node<T>>, order: seq<NodeId>, j: nat, a: nat, b: nat)
    requires NextChain(heap, order) && 2 <= |order| && j < |order|
    requires a == (if j > 0 then j - 1 else |order| - 1) && b == (if j + 1 < |order| then j + 1 else 0)
    requires |h'| == |heap|
    requires forall i {:trigger h'[order[i]]} :: 0 <= i < |order| && i != a ==> h'[order[i]].next == heap[order[i]].next
    requires h'[order[a]].next == order[b]
    ensures NextChain(h', RemoveAt(order, j))
  {
    var n := |order|;
    var o' := RemoveAt(order, j);
    ValuesRemoveAt(heap, order, j);
    forall i | 0 <= i < n - 2
      ensures h'[o'[i]].next == o'[i + 1]
    {
      if i + 1 < j {
        assert o'[i] == order[i] && o'[i + 1] == order[i + 1];
      } else if i + 1 == j {
        assert o'[i] == order[a] && o'[i + 1] == order[b];
      } else {
        assert o'[i] == order[i + 1] && o'[i + 1] == order[i + 2];
      }
    }
    assert o'[0] == order[if j > 0 then 0 else 1];
    assert o'[n - 2] == order[if j == n - 1 then n - 2 else n - 1];
  }

  lemma BypassPrev<T>(heap: seq<Node<T>>, h': seq<Node<T>>, order: seq<NodeId>, j: nat, a: nat, b: nat)
    requires PrevChain(heap, order) && 2 <= |order| && j < |order|
    requires a == (if j > 0 then j - 1 else |order| - 1) && b == (if j + 1 < |order| then j + 1 else 0)
    requires |h'| == |heap|
    requires forall i {:trigger h'[order[i]]} :: 0 <= i < |order| && i != b ==> h'[order[i]].prev == heap[order[i]].prev
    requires h'[order[b]].prev == order[a]
    ensures PrevChain(h', RemoveAt(order, j))
  {
    var n := |order|;
    var o' := RemoveAt(order, j);
    ValuesRemoveAt(heap, order, j);
    forall i | 0 < i < n - 1
      ensures h'[o'[i]].prev == o'[i - 1]
    {
      if i < j {
        assert o'[i] == order[i] && o'[i - 1] == order[i - 1];
      } else if i == j {
        assert o'[i] == order[b] && o'[i - 1] == order[a];
      } else {
        assert o'[i] == order[i + 1] && o'[i - 1] == order[i];
      }
    }
    assert o'[0] == order[if j > 0 then 0 else 1];
    assert o'[n - 2] == order[if j == n - 1 then n - 2 else n - 1];
  }

  /** The store after a new node holding `v` is linked in between node `a`
      and its successor `b`: `b.prev` and `a.next` name the new node, which
      leads on to `b` and back to `a`. The two writes touch different fields,
      so the store is the same whichever the source performs first. */
  function Splice<T>(heap: seq<Node<T>>, a: NodeId, b: NodeId, v: T): (r: seq<Node<T>>)
    requires a < |heap| && b < |heap|
    ensures |r| == |heap| + 1 && r[|heap|] == Node(v, b, a)
    ensures r[a].next == |heap| && r[b].prev == |heap|
    ensures forall x :: 0 <= x < |heap| ==> r[x].data == heap[x].data
    ensures forall x :: 0 <= x < |heap| && x != a ==> r[x].next == heap[x].next
    ensures forall x :: 0 <= x < |heap| && x != b ==> r[x].prev == heap[x].prev
  {
    var id := |heap|;
    var h1 := heap[b := heap[b].(prev := id)];
    h1[a := h1[a].(next := id)] + [Node(v, b, a)]
  }

  /** What `Splice` at positions `p - 1` and `b` of `order` rewrites, and
      what it leaves alone. */
  lemma SpliceFrame<T>(heap: seq<Node<T>>, order: seq<NodeId>, p: nat, b: nat, v: T)
    requires Distinct(order) && InHeap(heap, order)
    requires 1 <= p <= |order| && b == (if p < |order| then p else 0)
    ensures var h' := Splice(heap, order[p - 1], order[b], v);
            && |h'| == |heap| + 1
            && (forall x :: 0 <= x < |heap| ==> h'[x].data == heap[x].data)
            && (forall i {:trigger h'[order[i]]} :: 0 <= i < |order| && i != p - 1 ==> h'[order[i]].next == heap[order[i]].next)
            && (forall i {:trigger h'[order[i]]} :: 0 <= i < |order| && i != b ==> h'[order[i]].prev == heap[order[i]].prev)
            && h'[order[p - 1]].next == |heap| && h'[order[b]].prev == |heap|
            && h'[|heap|] == Node(v, order[b], order[p - 1])
  {
    var h' := Splice(heap, order[p - 1], order[b], v);
    forall i | 0 <= i < |order| && i != p - 1
      ensures h'[order[i]].next == heap[order[i]].next
    {
      assert order[i] != order[p - 1];
    }
    forall i | 0 <= i < |order| && i != b
      ensures h'[order[i]].prev == heap[order[i]].prev
    {
      assert order[i] != order[b];
    }
  }

  /** `Splice` between the nodes at `p - 1` and `p` (round the ring) inserts
      the new node at index `p`. */
  lemma SpliceAt<T>(heap: seq<Node<T>>, order: seq<NodeId>, p: nat, v: T)
    requires Ring(heap, order) && 1 <= p <= |order|
    ensures var h' := Splice(heap, order[p - 1], order[if p < |order| then p else 0], v);
            && Ring(h', InsertAt(order, p, |heap|))
            && Values(h', InsertAt(order, p, |heap|)) == InsertAt(Values(heap, order), p, v)
  {
    var b := if p < |order| then p else 0;
    SpliceFrame(heap, order, p, b, v);
    SpliceValid(heap, Splice(heap, order[p - 1], order[b], v), order, p, b, v);
  }

  /** The store after node `a` and node `b` are linked to each other, `a.next`
      naming `b` and `b.prev` naming `a`, bypassing whatever lay between. */
  function Bypass<T>(heap: seq<Node<T>>, a: NodeId, b: NodeId): (r: seq<Node<T>>)
    requires a < |heap| && b < |heap|
    ensures |r| == |heap| && r[a].next == b && r[b].prev == a
    ensures forall x :: 0 <= x < |heap| ==> r[x].data == heap[x].data
    ensures forall x :: 0 <= x < |heap| && x != a ==> r[x].next == heap[x].next
    ensures forall x :: 0 <= x < |heap| && x != b ==> r[x].prev == heap[x].prev
  {
    var h1 := heap[a := heap[a].(next := b)];
    h1[b := h1[b].(prev := a)]
  }

  /** What `Bypass` of the neighbours of position `j` rewrites, and what it
      leaves alone. */
  lemma BypassFrame<T>(heap: seq<Node<T>>, order: seq<NodeId>, a: nat, b: nat)
    requires Distinct(order) && InHeap(heap, order) && a < |order| && b < |order|
    ensures var h' := Bypass(heap, order[a], order[b]);
            && |h'| == |heap|
            && (forall x :: 0 <= x < |heap| ==> h'[x].data == heap[x].data)
            && (forall i {:trigger h'[order[i]]} :: 0 <= i < |order| && i != a ==> h'[order[i]].next == heap[order[i]].next)
            && (forall i {:trigger h'[order[i]]} :: 0 <= i < |order| && i != b ==> h'[order[i]].prev == heap[order[i]].prev)
            && h'[order[a]].next == order[b] && h'[order[b]].prev == order[a]
  {
    var h' := Bypass(heap, order[a], order[b]);
    forall i | 0 <= i < |order| && i != a
      ensures h'[order[i]].next == heap[order[i]].next
    {
      assert order[i] != order[a];
    }
    forall i | 0 <= i < |order| && i != b
      ensures h'[order[i]].prev == heap[order[i]].prev
    {
      assert order[i] != order[b];
    }
  }

  /** `Bypass` of the two neighbours of position `j` removes index `j`. */
  lemma BypassAt<T>(heap: seq<Node<T>>, order: seq<NodeId>, j: nat)
    requires Ring(heap, order) && 2 <= |order| && j < |order|
    ensures var h' := Bypass(heap, order[Pred(j, |order|)], order[Succ(j, |order|)]);
            && Ring(h', RemoveAt(order, j))
            && Values(h', RemoveAt(order, j)) == RemoveAt(Values(heap, order), j)
  {
    var a := Pred(j, |order|);
    var b := Succ(j, |order|);
    BypassFrame(heap, order, a, b);
    BypassValid(heap, Bypass(heap, order[a], order[b]), order, j, a, b);
  }

  /** `insert_at_beginning`: the new node goes between `head.prev` and `head`
      and becomes `head`; on an empty list it links to itself both ways. */
  function InsertAtBeginning<T>(l: List<T>, v: T, ghost order: seq<NodeId>): (r: List<T>)
    requires Valid(l, order)
    ensures Valid(r, [NewId(l)] + order)
    ensures Values(r.heap, [NewId(l)] + order) == [v] + Values(l.heap, order)
  {
    var id := NewId(l);
    if l.head.None? then
      List(l.heap + [Node(v, id, id)], Some(id))
    else
      var h := l.head.value;
      PrependValid(l.heap, order, v);
      List(Splice(l.heap, l.heap[h].prev, h, v), Some(id))
  }

  lemma PrependValid<T>(heap: seq<Node<T>>, order: seq<NodeId>, v: T)
    requires Ring(heap, order) && order != []
    ensures var h' := Splice(heap, heap[order[0]].prev, order[0], v);
            && Ring(h', [|heap|] + order)
            && Values(h', [|heap|] + order) == [v] + Values(heap, order)
  {
    var n := |order|;
    RingStep(heap, order, 0);
    SpliceAt(heap, order, n, v);
    var h' := Splice(heap, order[n - 1], order[0], v);
    AppendIsInsertAt(order, |heap|);
    AppendIsInsertAt(Values(heap, order), v);
    RingRotate(h', order + [|heap|], n);
  }

  /** `insert_at_end`: the new node goes between `head.prev` and `head`,
      reached without a walk; `head` stays. */
  function InsertAtEnd<T>(l: List<T>, v: T, ghost order: seq<NodeId>): (r: List<T>)
    requires Valid(l, order)
    ensures Valid(r, order + [NewId(l)])
    ensures Values(r.heap, order + [NewId(l)]) == Values(l.heap, order) + [v]
  {
    var id := NewId(l);
    if l.head.None? then
      List(l.heap + [Node(v, id, id)], Some(id))
    else
      var h := l.head.value;
      AppendValid(l.heap, order, v);
      List(Splice(l.heap, l.heap[h].prev, h, v), l.head)
  }

  lemma AppendValid<T>(heap: seq<Node<T>>, order: seq<NodeId>, v: T)
    requires Ring(heap, order) && order != []
    ensures var h' := Splice(heap, heap[order[0]].prev, order[0], v);
            && Ring(h', order + [|heap|])
            && Values(h', order + [|heap|]) == Values(heap, order) + [v]
  {
    var n := |order|;
    RingStep(heap, order, 0);
    SpliceAt(heap, order, n, v);
    AppendIsInsertAt(order, |heap|);
    AppendIsInsertAt(Values(heap, order), v);
  }

  /** `insert_at_position`: a negative position, or one past the end, reports
      an error and leaves the list alone; position 0 is `insert_at_beginning`;
      otherwise the new node is linked after the node at `position - 1`. A
      positive position needs a node to start from: on an empty list the
      first `current.next` read, by the walk's guard for a position of 2 or
      more and by the range test after the walk for position 1, has no node
      to read. */
  method InsertAtPosition<T>(l: List<T>, v: T, position: int, ghost order: seq<NodeId>)
    returns (r: Outcome<List<T>>)
    requires Valid(l, order)
    requires position <= 0 || order != []
    ensures r.status == NegativePosition <==> position < 0
    ensures r.status == OutOfRange <==> position > |order|
    ensures r.status == Done <==> 0 <= position <= |order|
    ensures r.status != Done ==> r.list == l
    ensures position == 0 ==> r.list == InsertAtBeginning(l, v, order)
    ensures 0 <= position <= |order| ==>
              && Valid(r.list, InsertAt(order, position, NewId(l)))
              && Values(r.list.heap, InsertAt(order, position, NewId(l)))
                 == InsertAt(Values(l.heap, order), position, v)
  {
    if position < 0 {
      return Outcome(l, NegativePosition);
    }
    if position == 0 {
      PrependIsInsertAt(order, NewId(l));
      PrependIsInsertAt(Values(l.heap, order), v);
      return Outcome(InsertAtBeginning(l, v, order), Done);
    }
    var n := |order|;
    var h := l.head.value;
    var cur := h;
    var count := 0;
    RingStep(l.heap, order, 0);
    while count < position - 1 && l.heap[cur].next != h
      invariant 0 <= count <= position - 1 && count < n && cur == order[count]
      invariant l.heap[cur].next == h <==> count == n - 1
      decreases position - 1 - count
    {
      cur := l.heap[cur].next;
      count := count + 1;
      RingStep(l.heap, order, count);
    }
    if l.heap[cur].next == h && count < position - 1 {
      return Outcome(l, OutOfRange);
    }
    RingStep(l.heap, order, count);
    SpliceAt(l.heap, order, position, v);
    r := Outcome(List(Splice(l.heap, cur, l.heap[cur].next, v), l.head), Done);
  }

  /** `delete_at_beginning`: a single node empties the list; otherwise
      `head.prev` and `head.next` are linked to each other and `head` moves
      to the second node. */
  function DeleteAtBeginning<T>(l: List<T>, ghost order: seq<NodeId>): (r: Outcome<List<T>>)
    requires Valid(l, order)
    ensures r.status == EmptyList <==> order == []
    ensures r.status != EmptyList ==> r.status == Done
    ensures order == [] ==> r.list == l
    ensures order != [] ==>
              Valid(r.list, order[1..]) && Values(r.list.heap, order[1..]) == Values(l.heap, order)[1..]
  {
    if l.head.None? then Outcome(l, EmptyList)
    else
      var h := l.head.value;
      if l.heap[h].next == h then
        SingleNode(l.heap, order);
        Outcome(List(l.heap, None), Done)
      else
        DropFirstValid(l.heap, order);
        Outcome(List(Bypass(l.heap, l.heap[h].prev, l.heap[h].next), Some(l.heap[h].next)), Done)
  }

  /** A node links to itself exactly when the ring has one node. */
  lemma SingleNode<T>(heap: seq<Node<T>>, order: seq<NodeId>)
    requires Ring(heap, order) && order != []
    ensures heap[order[0]].next == order[0] <==> |order| == 1
  {
    RingStep(heap, order, 0);
  }

  lemma DropFirstValid<T>(heap: seq<Node<T>>, order: seq<NodeId>)
    requires Ring(heap, order) && order != [] && heap[order[0]].next != order[0]
    ensures var h := order[0];
            var h' := Bypass(heap, heap[h].prev, heap[h].next);
            && heap[h].next == order[1]
            && Ring(h', order[1..])
            && Values(h', order[1..]) == Values(heap, order)[1..]
  {
    var n := |order|;
    SingleNode(heap, order);
    RingStep(heap, order, 0);
    assert Pred(0, n) == n - 1 && Succ(0, n) == 1;
    assert heap[order[0]].prev == order[n - 1] && heap[order[0]].next == order[1];
    BypassAt(heap, order, 0);
    RemoveAtIsTail(order);
    RemoveAtIsTail(Values(heap, order));
  }

  /** `delete_at_end`: a single node empties the list; otherwise the node
      before `head.prev` and `head` are linked to each other. */
  function DeleteAtEnd<T>(l: List<T>, ghost order: seq<NodeId>): (r: Outcome<List<T>>)
    requires Valid(l, order)
    ensures r.status == EmptyList <==> order == []
    ensures r.status != EmptyList ==> r.status == Done
    ensures order == [] ==> r.list == l
    ensures order != [] ==>
              && Valid(r.list, order[..|order| - 1])
              && Values(r.list.heap, order[..|order| - 1]) == Values(l.heap, order)[..|order| - 1]
  {
    if l.head.None? then Outcome(l, EmptyList)
    else
      var h := l.head.value;
      if l.heap[h].next == h then
        SingleNode(l.heap, order);
        Outcome(List(l.heap, None), Done)
      else
        DropLastValid(l.heap, order);
        Outcome(List(Bypass(l.heap, l.heap[l.heap[h].prev].prev, h), l.head), Done)
  }

  lemma DropLastValid<T>(heap: seq<Node<T>>, order: seq<NodeId>)
    requires Ring(heap, order) && order != [] && heap[order[0]].next != order[0]
    ensures var h := order[0];
            var last := heap[h].prev;
            var h' := Bypass(heap, heap[last].prev, h);
            && Ring(h', order[..|order| - 1])
            && Values(h', order[..|order| - 1]) == Values(heap, order)[..|order| - 1]
  {
    var n := |order|;
    SingleNode(heap, order);
    RingStep(heap, order, 0);
    RingStep(heap, order, n - 1);
    BypassAt(heap, order, n - 1);
    RemoveAtIsInit(order);
    RemoveAtIsInit(Values(heap, order));
  }

  /** `delete_by_value`: removes the first node holding `v`; when `head` holds
      it, exactly as `delete_at_beginning` does, otherwise by linking its two
      neighbours to each other. */
  method DeleteByValue<T(==)>(l: List<T>, v: T, ghost order: seq<NodeId>) returns (r: Outcome<List<T>>)
    requires Valid(l, order)
    ensures r.status == EmptyList <==> order == []
    ensures r.status == NotFound <==> order != [] && v !in Values(l.heap, order)
    ensures r.status == Done <==> v in Values(l.heap, order)
    ensures r.status != Done ==> r.list == l
    ensures order != [] && l.heap[order[0]].data == v ==> r == DeleteAtBeginning(l, order)
    ensures r.status == Done ==>
              var j := FirstIndex(Values(l.heap, order), v);
              && Valid(r.list, RemoveAt(order, j))
              && Values(r.list.heap, RemoveAt(order, j)) == RemoveFirst(Values(l.heap, order), v)
  {
    if l.head.None? {
      return Outcome(l, EmptyList);
    }
    ghost var s := Values(l.heap, order);
    var h := l.head.value;
    if l.heap[h].data == v {
      FirstIndexAt(s, v, 0);
      RemoveAtIsTail(order);
      RemoveAtIsTail(s);
      return DeleteAtBeginning(l, order);
    }
    var n := |order|;
    RingStep(l.heap, order, 0);
    var cur := l.heap[h].next;
    ghost var k := if n > 1 then 1 else 0;
    while cur != h
      invariant 0 <= k < n && cur == order[k]
      invariant cur == h <==> k == 0
      invariant forall t {:trigger l.heap[order[t]]} :: 0 <= t < (if k == 0 then n else k) ==> l.heap[order[t]].data != v
      decreases if k == 0 then 0 else n - k
    {
      if l.heap[cur].data == v {
        ValuesMiss(l.heap, order, v, k);
        UnlinkFound(l, order, k, v);
        return Outcome(List(Bypass(l.heap, l.heap[cur].prev, l.heap[cur].next), l.head), Done);
      }
      RingStep(l.heap, order, k);
      cur := l.heap[cur].next;
      k := if k + 1 < n then k + 1 else 0;
    }
    ValuesMiss(l.heap, order, v, n);
    r := Outcome(l, NotFound);
  }

  /** The unlink of `delete_by_value` at the first node holding `v`, which
      is not `head`, removes exactly that occurrence. */
  lemma UnlinkFound<T>(l: List<T>, order: seq<NodeId>, k: nat, v: T)
    requires Valid(l, order) && 1 <= k < |order|
    requires l.heap[order[k]].data == v && v !in Values(l.heap, order)[..k]
    ensures var c := order[k];
            var r := List(Bypass(l.heap, l.heap[c].prev, l.heap[c].next), l.head);
            && v in Values(l.heap, order)
            && FirstIndex(Values(l.heap, order), v) == k
            && Valid(r, RemoveAt(order, k))
            && Values(r.heap, RemoveAt(order, k)) == RemoveFirst(Values(l.heap, order), v)
  {
    FirstIndexAt(Values(l.heap, order), v, k);
    RingStep(l.heap, order, k);
    BypassAt(l.heap, order, k);
  }

  /** `search`: one round from `head`, stopping at the first node holding `v`. */
  method Search<T(==)>(l: List<T>, v: T, ghost order: seq<NodeId>) returns (found: bool)
    requires Valid(l, order)
    ensures found <==> v in Values(l.heap, order)
  {
    if l.head.None? {
      return false;
    }
    var n := |order|;
    var h := l.head.value;
    var cur := h;
    ghost var k := 0;
    while true
      invariant 0 <= k < n && cur == order[k]
      invariant forall t {:trigger l.heap[order[t]]} :: 0 <= t < k ==> l.heap[order[t]].data != v
      decreases n - k
    {
      if l.heap[cur].data == v {
        assert Values(l.heap, order)[k] == v;
        return true;
      }
      RingStep(l.heap, order, k);
      cur := l.heap[cur].next;
      k := k + 1;
      if cur == h {
        break;
      }
    }
    ValuesMiss(l.heap, order, v, k);
    return false;
  }

  /** No node among the first `k` of `order` holds `v`. */
  lemma ValuesMiss<T>(heap: seq<Node<T>>, order: seq<NodeId>, v: T, k: nat)
    requires InHeap(heap, order) && k <= |order|
    requires forall t {:trigger heap[order[t]]} :: 0 <= t < k ==> heap[order[t]].data != v
    ensures v !in Values(heap, order)[..k]
    ensures k == |order| ==> v !in Values(heap, order)
  {
    assert Values(heap, order)[..|order|] == Values(heap, order);
  }

  /** The values of `order` read from the first node on. */
  lemma ForwardValues<T>(heap: seq<Node<T>>, order: seq<NodeId>, s: seq<T>)
    requires InHeap(heap, order) && |s| == |order|
    requires forall t {:trigger s[t]} :: 0 <= t < |s| ==> s[t] == heap[order[t]].data
    ensures s == Values(heap, order)
  {
  }

  /** `length`: counts the nodes of one round from `head`. */
  method Length<T>(l: List<T>, ghost order: seq<NodeId>) returns (count: nat)
    requires Valid(l, order)
    ensures count == |Values(l.heap, order)|
  {
    if l.head.None? {
      return 0;
    }
    var n := |order|;
    var h := l.head.value;
    var cur := h;
    count := 0;
    while true
      invariant 0 <= count < n && cur == order[count]
      decreases n - count
    {
      RingStep(l.heap, order, count);
      count := count + 1;
      cur := l.heap[cur].next;
      if cur == h {
        break;
      }
    }
  }

  /** `print_list_forward`: the values of one round along `next` from `head`;
      none for an empty list. */
  method ToSeqForward<T>(l: List<T>, ghost order: seq<NodeId>) returns (s: seq<T>)
    requires Valid(l, order)
    ensures s == Values(l.heap, order)
  {
    s := [];
    if l.head.None? {
      return;
    }
    var n := |order|;
    var h := l.head.value;
    var cur := h;
    ghost var k := 0;
    while true
      invariant 0 <= k < n && cur == order[k]
      invariant |s| == k
      invariant forall t {:trigger s[t]} :: 0 <= t < k ==> s[t] == l.heap[order[t]].data
      decreases n - k
    {
      s := s + [l.heap[cur].data];
      RingStep(l.heap, order, k);
      cur := l.heap[cur].next;
      k := k + 1;
      if cur == h {
        break;
      }
    }
    ForwardValues(l.heap, order, s);
  }

  /** `print_list_backward`: the values of one round along `prev` from
      `head.prev`, which are the forward values reversed. */
  method ToSeqBackward<T>(l: List<T>, ghost order: seq<NodeId>) returns (s: seq<T>)
    requires Valid(l, order)
    ensures s == Common.Reverse(Values(l.heap, order))
  {
    s := [];
    if l.head.None? {
      return;
    }
    var n := |order|;
    RingStep(l.heap, order, 0);
    var last := l.heap[l.head.value].prev;
    var cur := last;
    ghost var k := n - 1;
    while true
      invariant 0 <= k < n && cur == order[k]
      invariant |s| == n - 1 - k
      invariant forall t :: 0 <= t < |s| ==> s[t] == l.heap[order[n - 1 - t]].data
      decreases k
    {
      s := s + [l.heap[cur].data];
      RingStep(l.heap, order, k);
      cur := l.heap[cur].prev;
      if cur == last {
        break;
      }
      k := k - 1;
    }
    BackwardValues(l.heap, order, s);
  }

  /** The values of `order` read from the last node back are the values
      reversed. */
  lemma BackwardValues<T>(heap: seq<Node<T>>, order: seq<NodeId>, s: seq<T>)
    requires InHeap(heap, order) && |s| == |order|
    requires forall t :: 0 <= t < |s| ==> s[t] == heap[order[|order| - 1 - t]].data
    ensures s == Common.Reverse(Values(heap, order))
  {
  }

  /** The loop of `reverse`: one round from `head` exchanging every node's
      `next` and `prev`. */
  method SwapLinks<T>(l: List<T>, ghost order: seq<NodeId>) returns (heap: seq<Node<T>>)
    requires Valid(l, order) && order != []
    ensures |heap| == |l.heap|
    ensures forall id :: 0 <= id < |heap| ==> heap[id].data == l.heap[id].data
    ensures forall i {:trigger heap[order[i]]} :: 0 <= i < |order| ==>
              heap[order[i]].next == l.heap[order[i]].prev && heap[order[i]].prev == l.heap[order[i]].next
  {
    var n := |order|;
    var h := l.head.value;
    var cur := h;
    heap := l.heap;
    ghost var k := 0;
    while true
      invariant 0 <= k < n && cur == order[k] && |heap| == |l.heap|
      invariant forall id :: 0 <= id < |heap| ==> heap[id].data == l.heap[id].data
      invariant forall i {:trigger heap[order[i]]} :: 0 <= i < k ==>
                  heap[order[i]].next == l.heap[order[i]].prev && heap[order[i]].prev == l.heap[order[i]].next
      invariant forall i {:trigger heap[order[i]]} :: k <= i < n ==> heap[order[i]] == l.heap[order[i]]
      decreases n - k
    {
      RingStep(l.heap, order, k);
      var temp := heap[cur].next;
      heap := heap[cur := heap[cur].(next := heap[cur].prev, prev := temp)];
      cur := temp;
      k := k + 1;
      if cur == h {
        break;
      }
    }
  }

  /** Exchanging `next` and `prev` on every node of a ring gives the ring of
      the reversed order. */
  lemma SwappedRing<T>(l: List<T>, heap: seq<Node<T>>, order: seq<NodeId>)
    requires Valid(l, order) && |heap| == |l.heap|
    requires forall id :: 0 <= id < |heap| ==> heap[id].data == l.heap[id].data
    requires forall i {:trigger heap[order[i]]} :: 0 <= i < |order| ==>
               heap[order[i]].next == l.heap[order[i]].prev && heap[order[i]].prev == l.heap[order[i]].next
    ensures Ring(heap, Common.Reverse(order))
    ensures Values(heap, Common.Reverse(order)) == Common.Reverse(Values(l.heap, order))
  {
    DistinctReverse(order);
    SwappedNext(l.heap, heap, order);
    SwappedPrev(l.heap, heap, order);
    ValuesReverse(l.heap, heap, order);
  }

  lemma ValuesReverse<T>(h0: seq<Node<T>>, heap: seq<Node<T>>, order: seq<NodeId>)
    requires InHeap(h0, order) && |heap| == |h0|
    requires forall id :: 0 <= id < |heap| ==> heap[id].data == h0[id].data
    ensures InHeap(heap, Common.Reverse(order))
    ensures Values(heap, Common.Reverse(order)) == Common.Reverse(Values(h0, order))
  {
    var n := |order|;
    forall i | 0 <= i < n
      ensures Common.Reverse(order)[i] == order[n - 1 - i]
    {
    }
  }

  /** The old `prev` links, now `next` links, lead along the reversed order. */
  lemma SwappedNext<T>(h0: seq<Node<T>>, heap: seq<Node<T>>, order: seq<NodeId>)
    requires PrevChain(h0, order) && |heap| == |h0|
    requires forall i {:trigger heap[order[i]]} :: 0 <= i < |order| ==> heap[order[i]].next == h0[order[i]].prev
    ensures NextChain(heap, Common.Reverse(order))
  {
    var n := |order|;
    var o' := Common.Reverse(order);
    forall i | 0 <= i < n - 1
      ensures heap[o'[i]].next == o'[i + 1]
    {
      assert o'[i] == order[n - 1 - i] && o'[i + 1] == order[n - 2 - i];
    }
    if n > 0 {
      assert o'[0] == order[n - 1] && o'[n - 1] == order[0];
    }
  }

  /** The old `next` links, now `prev` links, lead back along the reversed
      order. */
  lemma SwappedPrev<T>(h0: seq<Node<T>>, heap: seq<Node<T>>, order: seq<NodeId>)
    requires NextChain(h0, order) && |heap| == |h0|
    requires forall i {:trigger heap[order[i]]} :: 0 <= i < |order| ==> heap[order[i]].prev == h0[order[i]].next
    ensures PrevChain(heap, Common.Reverse(order))
  {
    var n := |order|;
    var o' := Common.Reverse(order);
    forall i | 0 < i < n
      ensures heap[o'[i]].prev == o'[i - 1]
    {
      assert o'[i] == order[n - 1 - i] && o'[i - 1] == order[n - i];
    }
    if n > 0 {
      assert o'[0] == order[n - 1] && o'[n - 1] == order[0];
    }
  }

  /** `reverse`, as written: exchanges `next` and `prev` on every node, then
      moves `head` to `head.prev` -- after the exchange that is the old second
      node, so the list reads [a1, a0, a(n-1), ..., a2]: the reversed ring
      entered two places late. */
  method Reverse<T>(l: List<T>, ghost order: seq<NodeId>) returns (r: List<T>)
    requires Valid(l, order)
    ensures |order| <= 1 ==> r == l
    ensures |order| >= 2 ==>
              && Valid(r, Rotate(Common.Reverse(order), |order| - 2))
              && Values(r.heap, Rotate(Common.Reverse(order), |order| - 2))
                 == Rotate(Common.Reverse(Values(l.heap, order)), |order| - 2)
  {
    if l.head.None? {
      return l;
    }
    var h := l.head.value;
    SingleNode(l.heap, order);
    if l.heap[h].next == h {
      return l;
    }
    var heap := SwapLinks(l, order);
    r := List(heap, Some(heap[h].prev));
    var n := |order|;
    SwappedRing(l, heap, order);
    RingRotate(heap, Common.Reverse(order), n - 2);
    RingStep(l.heap, order, 0);
  }

  /** `reverse` with the head its comment describes: the node `head.next`
      after the exchange, i.e. the old last node. */
  method ReverseToLast<T>(l: List<T>, ghost order: seq<NodeId>) returns (r: List<T>)
    requires Valid(l, order)
    ensures Valid(r, Common.Reverse(order))
    ensures Values(r.heap, Common.Reverse(order)) == Common.Reverse(Values(l.heap, order))
  {
    if l.head.None? {
      return l;
    }
    var h := l.head.value;
    SingleNode(l.heap, order);
    if l.heap[h].next == h {
      assert Common.Reverse(order) == order;
      assert Common.Reverse(Values(l.heap, order)) == Values(l.heap, order);
      return l;
    }
    var heap := SwapLinks(l, order);
    r := List(heap, Some(heap[h].next));
    SwappedRing(l, heap, order);
    RingStep(l.heap, order, 0);
  }

  /** Reading the reversed sequence two places late, twice over, gives the
      sequence back. */
  lemma RotatedReverseTwice<X>(s: seq<X>)
    requires |s| >= 2
    ensures Rotate(Common.Reverse(Rotate(Common.Reverse(s), |s| - 2)), |s| - 2) == s
  {
    var n := |s|;
    var t := Rotate(Common.Reverse(s), n - 2);
    assert forall i :: 0 <= i < n ==> t[i] == (if i < 2 then s[1 - i] else s[n + 1 - i]);
    var u := Rotate(Common.Reverse(t), n - 2);
    forall i | 0 <= i < n
      ensures u[i] == s[i]
    {
      assert u[i] == (if i < 2 then t[1 - i] else t[n + 1 - i]);
    }
  }

  /** `reverse` as written, applied twice, restores the original list: same
      ring, same `head`, same contents. */
  method ReverseTwice<T>(l: List<T>, ghost order: seq<NodeId>) returns (r: List<T>)
    requires Valid(l, order)
    ensures Valid(r, order) && r.head == l.head
    ensures Values(r.heap, order) == Values(l.heap, order)
  {
    ghost var n := |order|;
    var r1 := Reverse(l, order);
    ghost var o1 := if n <= 1 then order else Rotate(Common.Reverse(order), n - 2);
    r := Reverse(r1, o1);
    if n >= 2 {
      RotatedReverseTwice(order);
      RotatedReverseTwice(Values(l.heap, order));
    }
  }

  /** The module-level example, first part: build [10, 15, 20] with one
      insert of each kind, read it both ways and find 15. */
  method ExampleInsert() returns (l: List<int>, ghost o: seq<NodeId>,
                                  forward: seq<int>, backward: seq<int>, found: bool)
    ensures Valid(l, o) && Values(l.heap, o) == [10, 15, 20]
    ensures forward == [10, 15, 20]
    ensures backward == [20, 15, 10]
    ensures found
  {
    l := Empty();
    o := [];
    var id := NewId(l);
    l, o := InsertAtBeginning(l, 10, o), [id] + o;
    assert Values(l.heap, o) == [10];
    id := NewId(l);
    l, o := InsertAtEnd(l, 20, o), o + [id];
    assert Values(l.heap, o) == [10, 20];
    id := NewId(l);
    var out := InsertAtPosition(l, 15, 1, o);
    l, o := out.list, InsertAt(o, 1, id);
    assert Values(l.heap, o) == [10, 15, 20];
    forward := ToSeqForward(l, o);
    backward := ToSeqBackward(l, o);
    found := Search(l, 15, o);
  }

  /** The module-level example, continued: the three deletes empty
      [10, 15, 20], whose length is then 0. */
  method ExampleDelete(l: List<int>, ghost o: seq<NodeId>) returns (r: List<int>, ghost o': seq<NodeId>, forward: seq<int>, emptied: nat)
    requires Valid(l, o) && Values(l.heap, o) == [10, 15, 20]
    ensures Valid(r, o') && o' == []
    ensures forward == []
    ensures emptied == 0
  {
    var out := DeleteAtBeginning(l, o);
    r, o' := out.list, o[1..];
    assert Values(r.heap, o') == [15, 20];
    out := DeleteAtEnd(r, o');
    r, o' := out.list, o'[..|o'| - 1];
    assert Values(r.heap, o') == [15];
    out := DeleteByValue(r, 15, o');
    assert FirstIndex(Values(r.heap, o'), 15) == 0;
    r, o' := out.list, RemoveAt(o', 0);
    forward := ToSeqForward(r, o');
    emptied := Length(r, o');
  }

  /** The module-level example, last part: on the emptied list, append 30,
      40 and 50. */
  method ExampleAppend(l: List<int>) returns (r: List<int>, ghost o: seq<NodeId>, forward: seq<int>)
    requires Valid(l, [])
    ensures Valid(r, o) && Values(r.heap, o) == [30, 40, 50]
    ensures forward == [30, 40, 50]
  {
    o := [];
    r := l;
    var id := NewId(r);
    r, o := InsertAtEnd(r, 30, o), o + [id];
    assert Values(r.heap, o) == [30];
    id := NewId(r);
    r, o := InsertAtEnd(r, 40, o), o + [id];
    assert Values(r.heap, o) == [30, 40];
    id := NewId(r);
    r, o := InsertAtEnd(r, 50, o), o + [id];
    assert Values(r.heap, o) == [30, 40, 50];
    forward := ToSeqForward(r, o);
  }

  /** The module-level example, end: its closing comment promises
      [50, 40, 30] after `reverse`; as written the list reads [40, 30, 50]. */
  method ExampleReverse(l: List<int>, ghost o: seq<NodeId>) returns (forward: seq<int>)
    requires Valid(l, o) && Values(l.heap, o) == [30, 40, 50]
    ensures forward == [40, 30, 50]
    ensures forward != [50, 40, 30]
  {
    var r := Reverse(l, o);
    forward := ToSeqForward(r, Rotate(Common.Reverse(o), 1));
    assert Common.Reverse(Values(l.heap, o)) == [50, 40, 30];
    assert Rotate([50, 40, 30], 1) == [40, 30, 50];
  }

  /** With `head` moved to the old last node the same example reads
      [50, 40, 30], as the comment says. */
  method ExampleReverseToLast(l: List<int>, ghost o: seq<NodeId>) returns (forward: seq<int>)
    requires Valid(l, o) && Values(l.heap, o) == [30, 40, 50]
    ensures forward == [50, 40, 30]
  {
    var r := ReverseToLast(l, o);
    forward := ToSeqForward(r, Common.Reverse(o));
  }
}
