/** The doubly linked list `DoublyLinkedList`: a chain of nodes from `head`,
    each holding one value, a `next` link and a `prev` link; the last node's
    `next` and the first node's `prev` are `None`.

    As in the singly linked model, the node store is an arena indexed by
    `NodeId`, and the ghost `order` lists the ids of the reachable nodes.
 */
module DoublyLinkedList {
  import opened Common

  datatype Node<T> = Node(data: T, next: Option<NodeId>, prev: Option<NodeId>)

  datatype List<T> = List(heap: seq<Node<T>>, head: Option<NodeId>)

  /** The list a fresh `DoublyLinkedList()` holds. */
  function Empty<T>(): (r: List<T>)
    ensures Valid(r, [])
  {
    List([], None)
  }

  /** The id a node allocated now receives. */
  function NewId<T>(l: List<T>): NodeId {
    |l.heap|
  }

  ghost predicate InHeap<T>(heap: seq<Node<T>>, order: seq<NodeId>) {
    forall i :: 0 <= i < |order| ==> order[i] < |heap|
  }

  /** The values held by the nodes `order` names, in that order. */
  ghost function Values<T>(heap: seq<Node<T>>, order: seq<NodeId>): seq<T>
    requires InHeap(heap, order)
  {
    seq(|order|, i requires 0 <= i < |order| => heap[order[i]].data)
  }

  /** Following `next` from `head` visits exactly the distinct nodes of
      `order` and then reaches `None`; the `prev` links are not looked at. */
  ghost predicate Chain<T>(l: List<T>, order: seq<NodeId>) {
    && Distinct(order)
    && InHeap(l.heap, order)
    && l.head == (if order == [] then None else Some(order[0]))
    && forall i {:trigger l.heap[order[i]]} :: 0 <= i < |order| ==>
         l.heap[order[i]].next == After(order, i)
  }

  /** The class invariant: a chain whose `prev` links mirror its `next`
      links, so that `head.prev` is `None`. */
  ghost predicate Valid<T>(l: List<T>, order: seq<NodeId>) {
    && Chain(l, order)
    && forall i {:trigger l.heap[order[i]]} :: 0 <= i < |order| ==>
         l.heap[order[i]].prev == Before(order, i)
  }

  /** Values only depend on the data fields of the nodes named. */
  lemma ValuesFrame<T>(h1: seq<Node<T>>, h2: seq<Node<T>>, order: seq<NodeId>)
    requires InHeap(h1, order) && |h1| <= |h2|
    requires forall id :: 0 <= id < |h1| ==> h2[id].data == h1[id].data
    ensures Values(h2, order) == Values(h1, order)
  {
  }

  /** No node among the first `k` of `order` holds `v`. */
  lemma ValuesMiss<T>(heap: seq<Node<T>>, order: seq<NodeId>, v: T, k: nat)
    requires InHeap(heap, order) && k <= |order|
    requires forall t {:trigger heap[order[t]]} :: 0 <= t < k ==> heap[order[t]].data != v
    ensures v !in Values(heap, order)[..k]
    ensures k == |order| ==> v !in Values(heap, order)
  {
    assert Values(heap, order)[..|order|] == Values(heap, order);
  }

  /** The values of `order` read from the first node on. */
  lemma ForwardValues<T>(heap: seq<Node<T>>, order: seq<NodeId>, s: seq<T>)
    requires InHeap(heap, order) && |s| == |order|
    requires forall t {:trigger s[t]} :: 0 <= t < |s| ==> s[t] == heap[order[t]].data
    ensures s == Values(heap, order)
  {
  }

  /** The values of `order` read from the last node back are the values
      reversed. */
  lemma BackwardValues<T>(heap: seq<Node<T>>, order: seq<NodeId>, s: seq<T>)
    requires InHeap(heap, order) && |s| == |order|
    requires forall t :: 0 <= t < |s| ==> s[t] == heap[order[|order| - 1 - t]].data
    ensures s == Common.Reverse(Values(heap, order))
  {
  }

  lemma ValuesInsertAt<T>(heap: seq<Node<T>>, order: seq<NodeId>, j: nat, id: NodeId)
    requires InHeap(heap, order) && j <= |order| && id < |heap|
    ensures InHeap(heap, InsertAt(order, j, id))
    ensures Values(heap, InsertAt(order, j, id)) == InsertAt(Values(heap, order), j, heap[id].data)
  {
    var o' := InsertAt(order, j, id);
    assert forall i :: 0 <= i < |o'| ==> o'[i] == (if i < j then order[i] else if i == j then id else order[i - 1]);
  }

  lemma ValuesRemoveAt<T>(heap: seq<Node<T>>, order: seq<NodeId>, j: nat)
    requires InHeap(heap, order) && j < |order|
    ensures InHeap(heap, RemoveAt(order, j))
    ensures Values(heap, RemoveAt(order, j)) == RemoveAt(Values(heap, order), j)
  {
    var o' := RemoveAt(order, j);
    assert forall i :: 0 <= i < |o'| ==> o'[i] == (if i < j then order[i] else order[i + 1]);
  }

  /** The store determines the order: no two orders describe the same chain. */
  lemma {:induction false} OrderUnique<T>(l: List<T>, o1: seq<NodeId>, o2: seq<NodeId>)
    requires Chain(l, o1) && Chain(l, o2)
    ensures o1 == o2
  {
    var k := 0;
    while k < |o1| && k < |o2|
      invariant 0 <= k <= |o1| && 0 <= k <= |o2|
      invariant o1[..k] == o2[..k]
      invariant 0 < k ==> o1[k - 1] == o2[k - 1]
    {
      if k == 0 {
        assert o1[0] == o2[0];
      } else {
        assert l.heap[o1[k - 1]].next == Some(o1[k]);
      }
      assert o1[..k + 1] == o1[..k] + [o1[k]];
      assert o2[..k + 1] == o2[..k] + [o2[k]];
      k := k + 1;
    }
    if k > 0 {
      assert After(o1, k - 1) == l.heap[o1[k - 1]].next == After(o2, k - 1);
    } else {
      assert (o1 == []) == (o2 == []);
    }
    assert o1 == o1[..k] && o2 == o2[..k];
  }

  /** `insert_at_beginning`: the old head's `prev` and the new node's `next`
      link the two, and the new node becomes `head`. */
  function InsertAtBeginning<T>(l: List<T>, v: T, ghost order: seq<NodeId>): (r: List<T>)
    requires Valid(l, order)
    ensures Valid(r, [NewId(l)] + order)
    ensures Values(r.heap, [NewId(l)] + order) == [v] + Values(l.heap, order)
  {
    var id := NewId(l);
    if l.head.None? then
      List(l.heap + [Node(v, None, None)], Some(id))
    else
      var h := l.head.value;
      var heap := l.heap[h := l.heap[h].(prev := Some(id))] + [Node(v, Some(h), None)];
      PrependValid(l, v, order);
      List(heap, Some(id))
  }

  lemma PrependValid<T>(l: List<T>, v: T, order: seq<NodeId>)
    requires Valid(l, order) && order != []
    ensures var h := order[0];
            var heap := l.heap[h := l.heap[h].(prev := Some(NewId(l)))] + [Node(v, Some(h), None)];
            && Valid(List(heap, Some(NewId(l))), [NewId(l)] + order)
            && Values(heap, [NewId(l)] + order) == [v] + Values(l.heap, order)
  {
    var id := NewId(l);
    var h := order[0];
    var heap := l.heap[h := l.heap[h].(prev := Some(id))] + [Node(v, Some(h), None)];
    PrependFrame(l.heap, order, v);
    PrependLinks(l, heap, order, id);
    ValuesInsertAt(heap, order, 0, id);
    ValuesFrame(l.heap, heap, order);
    PrependIsInsertAt(order, id);
    PrependIsInsertAt(Values(l.heap, order), v);
  }

  /** `insert_at_beginning` rewrites only `head` among the chain's nodes. */
  lemma PrependFrame<T>(h0: seq<Node<T>>, order: seq<NodeId>, v: T)
    requires Distinct(order) && InHeap(h0, order) && order != []
    ensures var id := |h0|;
            var h := order[0];
            var heap := h0[h := h0[h].(prev := Some(id))] + [Node(v, Some(h), None)];
            forall i {:trigger heap[order[i]]} :: 0 < i < |order| ==> heap[order[i]] == h0[order[i]]
  {
    var id := |h0|;
    var h := order[0];
    var heap := h0[h := h0[h].(prev := Some(id))] + [Node(v, Some(h), None)];
    forall i | 0 < i < |order|
      ensures heap[order[i]] == h0[order[i]]
    {
      assert order[i] != h;
    }
  }

  /** Any store that links node `id` in before `head`, and rewrites no other
      node of the chain, prepends `id`. */
  lemma PrependLinks<T>(l: List<T>, heap: seq<Node<T>>, order: seq<NodeId>, id: NodeId)
    requires Valid(l, order) && order != [] && |l.heap| <= id < |heap|
    requires forall i {:trigger heap[order[i]]} :: 0 < i < |order| ==> heap[order[i]] == l.heap[order[i]]
    requires heap[order[0]] == l.heap[order[0]].(prev := Some(id))
    requires heap[id].next == Some(order[0]) && heap[id].prev == None
    ensures Valid(List(heap, Some(id)), [id] + order)
  {
    var o' := [id] + order;
    DistinctInsertAt(order, 0, id);
    PrependIsInsertAt(order, id);
    forall i | 0 <= i < |o'|
      ensures o'[i] < |heap|
      ensures heap[o'[i]].next == After(o', i) && heap[o'[i]].prev == Before(o', i)
    {
      if i > 0 {
        assert o'[i] == order[i - 1];
        assert i + 1 < |o'| ==> o'[i + 1] == order[i];
        assert i > 1 ==> o'[i - 1] == order[i - 2];
      }
    }
  }

  /** The splice of `insert_at_position`: a new node holding `v` is linked
      between node `c`, at index `position - 1`, and its successor (if any). */
  function LinkAfter<T>(l: List<T>, c: NodeId, v: T, ghost order: seq<NodeId>, ghost position: nat): (r: List<T>)
    requires Valid(l, order) && 1 <= position <= |order| && c == order[position - 1]
    ensures Valid(r, InsertAt(order, position, NewId(l)))
    ensures Values(r.heap, InsertAt(order, position, NewId(l))) == InsertAt(Values(l.heap, order), position, v)
  {
    var id := NewId(l);
    var nx := l.heap[c].next;
    var h1 := if nx.Some? then l.heap[nx.value := l.heap[nx.value].(prev := Some(id))] else l.heap;
    var heap := h1[c := h1[c].(next := Some(id))] + [Node(v, nx, Some(c))];
    LinkAfterValid(l, c, v, order, position);
    List(heap, l.head)
  }

  lemma LinkAfterValid<T>(l: List<T>, c: NodeId, v: T, order: seq<NodeId>, position: nat)
    requires Valid(l, order) && 1 <= position <= |order| && c == order[position - 1]
    ensures var id := NewId(l);
            var nx := l.heap[c].next;
            var h1 := if nx.Some? then l.heap[nx.value := l.heap[nx.value].(prev := Some(id))] else l.heap;
            var heap := h1[c := h1[c].(next := Some(id))] + [Node(v, nx, Some(c))];
            && Valid(List(heap, l.head), InsertAt(order, position, id))
            && Values(heap, InsertAt(order, position, id)) == InsertAt(Values(l.heap, order), position, v)
  {
    var id := NewId(l);
    var nx := l.heap[c].next;
    var h1 := if nx.Some? then l.heap[nx.value := l.heap[nx.value].(prev := Some(id))] else l.heap;
    var heap := h1[c := h1[c].(next := Some(id))] + [Node(v, nx, Some(c))];
    assert forall i {:trigger heap[order[i]]} :: 0 <= i < |order| && i != position - 1 && i != position ==> heap[order[i]] == l.heap[order[i]] by {
      forall i | 0 <= i < |order| && i != position - 1 && i != position
        ensures heap[order[i]] == l.heap[order[i]]
      {
        assert order[i] != c;
        assert position < |order| ==> order[i] != order[position];
      }
    }
    assert forall x :: 0 <= x < |l.heap| ==> heap[x].data == l.heap[x].data;
    LinkLinks(l, heap, order, position, id);
    ValuesInsertAt(heap, order, position, id);
    ValuesFrame(l.heap, heap, order);
  }

  /** The links after the splice, for any store that adds node `id` and
      rewrites exactly the two nodes around position `position`. */
  lemma LinkLinks<T>(l: List<T>, heap: seq<Node<T>>, order: seq<NodeId>, position: nat, id: NodeId)
    requires Valid(l, order) && 1 <= position <= |order| && id == |l.heap| && |heap| == id + 1
    requires forall i {:trigger heap[order[i]]} :: 0 <= i < |order| && i != position - 1 && i != position ==> heap[order[i]] == l.heap[order[i]]
    requires heap[order[position - 1]] == l.heap[order[position - 1]].(next := Some(id))
    requires position < |order| ==> heap[order[position]] == l.heap[order[position]].(prev := Some(id))
    requires heap[id].next == After(order, position - 1) && heap[id].prev == Some(order[position - 1])
    ensures Valid(List(heap, l.head), InsertAt(order, position, id))
  {
    var o' := InsertAt(order, position, id);
    DistinctInsertAt(order, position, id);
    forall i | 0 <= i < |o'|
      ensures heap[o'[i]].next == After(o', i) && heap[o'[i]].prev == Before(o', i)
    {
      if i < position - 1 {
        assert o'[i] == order[i] && o'[i + 1] == order[i + 1];
        assert i > 0 ==> o'[i - 1] == order[i - 1];
      } else if i == position - 1 {
        assert o'[i] == order[i] && o'[i + 1] == id;
        assert i > 0 ==> o'[i - 1] == order[i - 1];
      } else if i == position {
        assert o'[i] == id && o'[i - 1] == order[i - 1];
        assert i + 1 < |o'| ==> o'[i + 1] == order[i];
      } else if i == position + 1 {
        assert o'[i] == order[i - 1] && o'[i - 1] == id;
        assert i + 1 < |o'| ==> o'[i + 1] == order[i];
      } else {
        assert o'[i] == order[i - 1] && o'[i - 1] == order[i - 2];
        assert i + 1 < |o'| ==> o'[i + 1] == order[i];
      }
    }
  }

  /** `insert_at_end`: walks to the last node and links the new node after it. */
  method InsertAtEnd<T>(l: List<T>, v: T, ghost order: seq<NodeId>) returns (r: List<T>)
    requires Valid(l, order)
    ensures Valid(r, order + [NewId(l)])
    ensures Values(r.heap, order + [NewId(l)]) == Values(l.heap, order) + [v]
  {
    var id := NewId(l);
    if l.head.None? {
      return List(l.heap + [Node(v, None, None)], Some(id));
    }
    var cur := l.head.value;
    ghost var k := 0;
    while l.heap[cur].next.Some?
      invariant 0 <= k < |order| && cur == order[k]
      decreases |order| - k
    {
      cur := l.heap[cur].next.value;
      k := k + 1;
    }
    var heap := l.heap[cur := l.heap[cur].(next := Some(id))] + [Node(v, None, Some(cur))];
    r := List(heap, l.head);
    // The same store as splicing after the last node, whose `next` is `None`.
    LinkAfterValid(l, cur, v, order, |order|);
    AppendIsInsertAt(order, id);
    AppendIsInsertAt(Values(l.heap, order), v);
  }

  /** `insert_at_position`: a negative position or one past the end reports
      an error and leaves the list alone; position 0 prepends; otherwise the
      new node is linked after the node at `position - 1`. */
  method InsertAtPosition<T>(l: List<T>, v: T, position: int, ghost order: seq<NodeId>)
    returns (r: Outcome<List<T>>)
    requires Valid(l, order)
    ensures r.status == NegativePosition <==> position < 0
    ensures r.status == OutOfRange <==> position > |order|
    ensures r.status == Done <==> 0 <= position <= |order|
    ensures r.status != Done ==> r.list == l
    ensures position == 0 ==> r.list == InsertAtBeginning(l, v, order)
    ensures 0 <= position <= |order| ==>
              && Valid(r.list, InsertAt(order, position, NewId(l)))
              && Values(r.list.heap, InsertAt(order, position, NewId(l)))
                 == InsertAt(Values(l.heap, order), position, v)
  {
    if position < 0 {
      return Outcome(l, NegativePosition);
    }
    if position == 0 {
      // The source repeats the body of insert_at_beginning here.
      var r0 := InsertAtBeginning(l, v, order);
      assert InsertAt(order, 0, NewId(l)) == [NewId(l)] + order;
      assert InsertAt(Values(l.heap, order), 0, v) == [v] + Values(l.heap, order);
      return Outcome(r0, Done);
    }
    var cur := l.head;
    var count := 0;
    while cur.Some? && count < position - 1
      invariant 0 <= count <= position - 1 && count <= |order|
      invariant cur == (if count < |order| then Some(order[count]) else None)
      decreases position - 1 - count
    {
      cur := l.heap[cur.value].next;
      count := count + 1;
    }
    if cur.None? {
      return Outcome(l, OutOfRange);
    }
    r := Outcome(LinkAfter(l, cur.value, v, order, position), Done);
  }

  /** `delete_at_beginning`: `head` moves to the second node, whose `prev`
      is cleared. */
  function DeleteAtBeginning<T>(l: List<T>, ghost order: seq<NodeId>): (r: Outcome<List<T>>)
    requires Valid(l, order)
    ensures r.status == EmptyList <==> order == []
    ensures r.status != EmptyList ==> r.status == Done
    ensures order == [] ==> r.list == l
    ensures order != [] ==>
              Valid(r.list, order[1..]) && Values(r.list.heap, order[1..]) == Values(l.heap, order)[1..]
  {
    if l.head.None? then Outcome(l, EmptyList)
    else
      var nh := l.heap[l.head.value].next;
      if nh.Some? then
        var heap := l.heap[nh.value := l.heap[nh.value].(prev := None)];
        DropFirstValid(l, order);
        Outcome(List(heap, nh), Done)
      else
        Outcome(List(l.heap, None), Done)
  }

  lemma DropFirstValid<T>(l: List<T>, order: seq<NodeId>)
    requires Valid(l, order) && |order| >= 2
    ensures var heap := l.heap[order[1] := l.heap[order[1]].(prev := None)];
            && Valid(List(heap, Some(order[1])), order[1..])
            && Values(heap, order[1..]) == Values(l.heap, order)[1..]
  {
    var heap := l.heap[order[1] := l.heap[order[1]].(prev := None)];
    var o' := order[1..];
    assert forall i {:trigger heap[o'[i]]} :: 0 <= i < |o'| ==>
      heap[o'[i]].next == After(o', i) && heap[o'[i]].prev == Before(o', i)
    by {
      forall i | 0 <= i < |o'|
        ensures heap[o'[i]].next == After(o', i) && heap[o'[i]].prev == Before(o', i)
      {
        assert o'[i] == order[i + 1];
        if i > 0 {
          assert order[i + 1] != order[1];
        }
      }
    }
    assert Values(heap, o') == Values(l.heap, order)[1..];
  }

  /** `delete_at_end`: a single node empties the list; otherwise the walk goes
      to the last node and its predecessor's `next` becomes `None`. */
  method DeleteAtEnd<T>(l: List<T>, ghost order: seq<NodeId>) returns (r: Outcome<List<T>>)
    requires Valid(l, order)
    ensures r.status == EmptyList <==> order == []
    ensures r.status != EmptyList ==> r.status == Done
    ensures order == [] ==> r.list == l
    ensures order != [] ==>
              && Valid(r.list, order[..|order| - 1])
              && Values(r.list.heap, order[..|order| - 1]) == Values(l.heap, order)[..|order| - 1]
  {
    if l.head.None? {
      return Outcome(l, EmptyList);
    }
    var h := l.head.value;
    if l.heap[h].next.None? {
      return Outcome(List(l.heap, None), Done);
    }
    var cur := h;
    ghost var k := 0;
    while l.heap[cur].next.Some?
      invariant 0 <= k < |order| && cur == order[k]
      decreases |order| - k
    {
      cur := l.heap[cur].next.value;
      k := k + 1;
    }
    var p := l.heap[cur].prev.value;
    var heap := l.heap[p := l.heap[p].(next := None)];
    DropLastValid(l, order);
    r := Outcome(List(heap, l.head), Done);
  }

  lemma DropLastValid<T>(l: List<T>, order: seq<NodeId>)
    requires Valid(l, order) && |order| >= 2
    ensures var p := order[|order| - 2];
            var heap := l.heap[p := l.heap[p].(next := None)];
            && Valid(List(heap, l.head), order[..|order| - 1])
            && Values(heap, order[..|order| - 1]) == Values(l.heap, order)[..|order| - 1]
  {
    var n := |order|;
    var p := order[n - 2];
    var heap := l.heap[p := l.heap[p].(next := None)];
    assert forall i {:trigger heap[order[i]]} :: 0 <= i < n && i != n - 2 ==> heap[order[i]] == l.heap[order[i]] by {
      forall i | 0 <= i < n && i != n - 2
        ensures heap[order[i]] == l.heap[order[i]]
      {
        assert order[i] != p;
      }
    }
    TruncateLinks(l, heap, order);
    ValuesFrame(l.heap, heap, order);
    ValuesRemoveAt(heap, order, n - 1);
    RemoveAtIsInit(order);
    RemoveAtIsInit(Values(heap, order));
  }

  /** Any store that ends the chain at the second-to-last node, and rewrites
      no other node, drops the last node. */
  lemma TruncateLinks<T>(l: List<T>, heap: seq<Node<T>>, order: seq<NodeId>)
    requires Valid(l, order) && |order| >= 2 && |heap| == |l.heap|
    requires forall i {:trigger heap[order[i]]} :: 0 <= i < |order| && i != |order| - 2 ==> heap[order[i]] == l.heap[order[i]]
    requires heap[order[|order| - 2]] == l.heap[order[|order| - 2]].(next := None)
    ensures Valid(List(heap, l.head), order[..|order| - 1])
  {
    var n := |order|;
    var o' := order[..n - 1];
    forall i | 0 <= i < |o'|
      ensures o'[i] < |heap|
      ensures heap[o'[i]].next == After(o', i) && heap[o'[i]].prev == Before(o', i)
    {
      assert o'[i] == order[i];
      assert i > 0 ==> o'[i - 1] == order[i - 1];
      assert i + 1 < |o'| ==> o'[i + 1] == order[i + 1];
    }
  }

  /** The unlink of `delete_by_value`: node `c`, at index `k >= 1`, is
      bypassed by its neighbours' `next` and `prev` links. */
  function Unlink<T>(l: List<T>, c: NodeId, ghost order: seq<NodeId>, ghost k: nat): (r: List<T>)
    requires Valid(l, order) && 1 <= k < |order| && c == order[k]
    ensures Valid(r, RemoveAt(order, k))
    ensures Values(r.heap, RemoveAt(order, k)) == RemoveAt(Values(l.heap, order), k)
  {
    var nx := l.heap[c].next;
    var pv := l.heap[c].prev.value;
    var h1 := if nx.Some? then l.heap[nx.value := l.heap[nx.value].(prev := l.heap[c].prev)] else l.heap;
    var heap := h1[pv := h1[pv].(next := nx)];
    UnlinkValid(l, c, order, k);
    List(heap, l.head)
  }

  lemma UnlinkValid<T>(l: List<T>, c: NodeId, order: seq<NodeId>, k: nat)
    requires Valid(l, order) && 1 <= k < |order| && c == order[k]
    ensures var nx := l.heap[c].next;
            var pv := l.heap[c].prev.value;
            var h1 := if nx.Some? then l.heap[nx.value := l.heap[nx.value].(prev := l.heap[c].prev)] else l.heap;
            var heap := h1[pv := h1[pv].(next := nx)];
            && Valid(List(heap, l.head), RemoveAt(order, k))
            && Values(heap, RemoveAt(order, k)) == RemoveAt(Values(l.heap, order), k)
  {
    var nx := l.heap[c].next;
    var pv := l.heap[c].prev.value;
    var h1 := if nx.Some? then l.heap[nx.value := l.heap[nx.value].(prev := l.heap[c].prev)] else l.heap;
    var heap := h1[pv := h1[pv].(next := nx)];
    assert pv == order[k - 1];
    assert forall i {:trigger heap[order[i]]} :: 0 <= i < |order| && i != k - 1 && i != k + 1 ==> heap[order[i]] == l.heap[order[i]] by {
      forall i | 0 <= i < |order| && i != k - 1 && i != k + 1
        ensures heap[order[i]] == l.heap[order[i]]
      {
        assert order[i] != pv;
        assert k + 1 < |order| ==> order[i] != order[k + 1];
      }
    }
    assert forall id :: 0 <= id < |l.heap| ==> heap[id].data == l.heap[id].data;
    UnlinkLinks(l, heap, order, k);
    ValuesRemoveAt(l.heap, order, k);
    ValuesFrame(l.heap, heap, RemoveAt(order, k));
  }

  /** The links after the unlink, for any store that rewrites exactly the
      two neighbours of position `k`. */
  lemma UnlinkLinks<T>(l: List<T>, heap: seq<Node<T>>, order: seq<NodeId>, k: nat)
    requires Valid(l, order) && 1 <= k < |order| && |heap| == |l.heap|
    requires forall i {:trigger heap[order[i]]} :: 0 <= i < |order| && i != k - 1 && i != k + 1 ==> heap[order[i]] == l.heap[order[i]]
    requires heap[order[k - 1]] == l.heap[order[k - 1]].(next := After(RemoveAt(order, k), k - 1))
    requires k + 1 < |order| ==> heap[order[k + 1]] == l.heap[order[k + 1]].(prev := Some(order[k - 1]))
    ensures Valid(List(heap, l.head), RemoveAt(order, k))
  {
    var o' := RemoveAt(order, k);
    DistinctRemoveAt(order, k);
    assert forall i :: 0 <= i < |o'| ==> o'[i] == (if i < k then order[i] else order[i + 1]);
    forall i | 0 <= i < |o'|
      ensures heap[o'[i]].next == After(o', i) && heap[o'[i]].prev == Before(o', i)
    {
      if i < k - 1 {
        assert heap[o'[i]] == l.heap[order[i]];
      } else if i > k {
        assert heap[o'[i]] == l.heap[order[i + 1]];
      }
    }
  }

  /** `delete_by_value`: removes the first node holding `v`; when `head`
      holds it, `head` moves on exactly as in `delete_at_beginning`. */
  method DeleteByValue<T(==)>(l: List<T>, v: T, ghost order: seq<NodeId>) returns (r: Outcome<List<T>>)
    requires Valid(l, order)
    ensures r.status == EmptyList <==> order == []
    ensures r.status == NotFound <==> order != [] && v !in Values(l.heap, order)
    ensures r.status == Done <==> v in Values(l.heap, order)
    ensures r.status != Done ==> r.list == l
    ensures order != [] && l.heap[order[0]].data == v ==> r == DeleteAtBeginning(l, order)
    ensures r.status == Done ==>
              var j := FirstIndex(Values(l.heap, order), v);
              && Valid(r.list, RemoveAt(order, j))
              && Values(r.list.heap, RemoveAt(order, j)) == RemoveFirst(Values(l.heap, order), v)
  {
    if l.head.None? {
      return Outcome(l, EmptyList);
    }
    ghost var s := Values(l.heap, order);
    var h := l.head.value;
    if l.heap[h].data == v {
      // The source repeats the body of delete_at_beginning here.
      FirstIndexAt(s, v, 0);
      RemoveAtIsTail(order);
      RemoveAtIsTail(s);
      return DeleteAtBeginning(l, order);
    }
    var cur := l.head;
    ghost var k := 0;
    while cur.Some?
      invariant 0 <= k <= |order|
      invariant cur == (if k < |order| then Some(order[k]) else None)
      invariant forall t {:trigger l.heap[order[t]]} :: 0 <= t < k ==> l.heap[order[t]].data != v
      decreases |order| - k
    {
      var c := cur.value;
      if l.heap[c].data == v {
        assert s[k] == v;
        ValuesMiss(l.heap, order, v, k);
        FirstIndexAt(s, v, k);
        return Outcome(Unlink(l, c, order, k), Done);
      }
      cur := l.heap[c].next;
      k := k + 1;
    }
    ValuesMiss(l.heap, order, v, k);
    r := Outcome(l, NotFound);
  }

  /** `search`: a forward walk that stops at the first node holding `v`. */
  method Search<T(==)>(l: List<T>, v: T, ghost order: seq<NodeId>) returns (found: bool)
    requires Valid(l, order)
    ensures found <==> v in Values(l.heap, order)
  {
    var cur := l.head;
    ghost var k := 0;
    while cur.Some?
      invariant 0 <= k <= |order|
      invariant cur == (if k < |order| then Some(order[k]) else None)
      invariant forall t {:trigger l.heap[order[t]]} :: 0 <= t < k ==> l.heap[order[t]].data != v
      decreases |order| - k
    {
      if l.heap[cur.value].data == v {
        assert Values(l.heap, order)[k] == v;
        return true;
      }
      cur := l.heap[cur.value].next;
      k := k + 1;
    }
    ValuesMiss(l.heap, order, v, k);
    return false;
  }

  /** `length`: counts the nodes of a full forward walk. */
  method Length<T>(l: List<T>, ghost order: seq<NodeId>) returns (count: nat)
    requires Valid(l, order)
    ensures count == |Values(l.heap, order)|
  {
    count := 0;
    var cur := l.head;
    while cur.Some?
      invariant 0 <= count <= |order|
      invariant cur == (if count < |order| then Some(order[count]) else None)
      decreases |order| - count
    {
      count := count + 1;
      cur := l.heap[cur.value].next;
    }
  }

  /** `print_list_forward`: the values a walk along `next` from `head` visits.
      The walk reads no `prev` link, so a chain of `next` links is all it needs. */
  method ToSeqForward<T>(l: List<T>, ghost order: seq<NodeId>) returns (s: seq<T>)
    requires Chain(l, order)
    ensures s == Values(l.heap, order)
  {
    s := [];
    var cur := l.head;
    ghost var k := 0;
    while cur.Some?
      invariant 0 <= k <= |order|
      invariant cur == (if k < |order| then Some(order[k]) else None)
      invariant |s| == k
      invariant forall t {:trigger s[t]} :: 0 <= t < k ==> s[t] == l.heap[order[t]].data
      decreases |order| - k
    {
      s := s + [l.heap[cur.value].data];
      cur := l.heap[cur.value].next;
      k := k + 1;
    }
    ForwardValues(l.heap, order, s);
  }

  /** `print_list_backward`: walks to the last node along `next`, then
      collects values along `prev` back to `head`: the contents reversed. */
  method ToSeqBackward<T>(l: List<T>, ghost order: seq<NodeId>) returns (s: seq<T>)
    requires Valid(l, order)
    ensures s == Common.Reverse(Values(l.heap, order))
  {
    s := [];
    if l.head.None? {
      return;
    }
    var n := |order|;
    var last := l.head.value;
    ghost var k := 0;
    while l.heap[last].next.Some?
      invariant 0 <= k < n && last == order[k]
      decreases n - k
    {
      last := l.heap[last].next.value;
      k := k + 1;
    }
    var cur := Some(last);
    ghost var j := n;
    while cur.Some?
      invariant 0 <= j <= n
      invariant cur == (if j > 0 then Some(order[j - 1]) else None)
      invariant |s| == n - j
      invariant forall t :: 0 <= t < |s| ==> s[t] == l.heap[order[n - 1 - t]].data
      decreases j
    {
      s := s + [l.heap[cur.value].data];
      cur := l.heap[cur.value].prev;
      j := j - 1;
    }
    BackwardValues(l.heap, order, s);
  }

  /** The link swap of `reverse`: every node reachable from `head` gets its
      `next` and `prev` exchanged; `last` is the final node visited. */
  method SwapLinks<T>(l: List<T>, ghost order: seq<NodeId>) returns (heap: seq<Node<T>>, last: NodeId)
    requires Valid(l, order) && order != []
    ensures |heap| == |l.heap| && last == order[|order| - 1]
    ensures forall id :: 0 <= id < |heap| ==> heap[id].data == l.heap[id].data
    ensures forall i {:trigger heap[order[i]]} :: 0 <= i < |order| ==>
              heap[order[i]].next == Before(order, i) && heap[order[i]].prev == After(order, i)
  {
    var n := |order|;
    var cur := l.head;
    heap := l.heap;
    last := l.head.value;
    ghost var k := 0;
    while cur.Some?
      invariant 0 <= k <= n && |heap| == |l.heap|
      invariant cur == (if k < n then Some(order[k]) else None)
      invariant last == order[if k == 0 then 0 else k - 1]
      invariant forall id :: 0 <= id < |heap| ==> heap[id].data == l.heap[id].data
      invariant forall i {:trigger heap[order[i]]} :: 0 <= i < k ==>
                  heap[order[i]].next == Before(order, i) && heap[order[i]].prev == After(order, i)
      invariant forall i {:trigger heap[order[i]]} :: k <= i < n ==> heap[order[i]] == l.heap[order[i]]
      decreases n - k
    {
      var c := cur.value;
      var temp := heap[c].next;
      heap := heap[c := heap[c].(next := heap[c].prev, prev := temp)];
      last := c;
      cur := temp;
      k := k + 1;
    }
  }

  /** `reverse`, as written: after the swap, `head` becomes the old head's
      new `prev`, which is the old second node. From there `next` leads
      back to the old head and then to `None`, so a list of three or more
      keeps only its first two values, in swapped order, and the new head
      still has a `prev` link: no valid list remains. */
  method Reverse<T>(l: List<T>, ghost order: seq<NodeId>) returns (r: List<T>)
    requires Valid(l, order)
    ensures |order| <= 1 ==> r == l
    ensures |order| >= 2 ==>
              && Chain(r, [order[1], order[0]])
              && Values(r.heap, [order[1], order[0]]) == [Values(l.heap, order)[1], Values(l.heap, order)[0]]
    ensures |order| == 2 ==> Valid(r, Common.Reverse(order))
    ensures |order| >= 3 ==> r.head == Some(order[1]) && r.heap[order[1]].prev == Some(order[2])
  {
    if l.head.None? || l.heap[l.head.value].next.None? {
      return l;
    }
    var h := l.head.value;
    var heap, _ := SwapLinks(l, order);
    r := List(heap, heap[h].prev);
    SwappedFront(l, heap, order);
  }

  /** After the exchange, the first two nodes form a chain of two, second
      node first; with only two nodes that is the whole reversed list. */
  lemma SwappedFront<T>(l: List<T>, heap: seq<Node<T>>, order: seq<NodeId>)
    requires Valid(l, order) && |order| >= 2 && |heap| == |l.heap|
    requires forall id :: 0 <= id < |heap| ==> heap[id].data == l.heap[id].data
    requires forall i {:trigger heap[order[i]]} :: 0 <= i < |order| ==>
               heap[order[i]].next == Before(order, i) && heap[order[i]].prev == After(order, i)
    ensures var r := List(heap, heap[order[0]].prev);
            && Chain(r, [order[1], order[0]])
            && Values(r.heap, [order[1], order[0]]) == [Values(l.heap, order)[1], Values(l.heap, order)[0]]
            && (|order| == 2 ==> Valid(r, Common.Reverse(order)))
            && (|order| >= 3 ==> r.head == Some(order[1]) && r.heap[order[1]].prev == Some(order[2]))
  {
    assert heap[order[0]].next == None && heap[order[1]].next == Some(order[0]);
    assert heap[order[0]].prev == Some(order[1]);
    if |order| == 2 {
      assert Common.Reverse(order) == [order[1], order[0]];
    }
  }

  /** A list whose `head` has a `prev` link is no valid list, whatever order
      is claimed for it. */
  lemma HeadWithPrevInvalid<T>(l: List<T>, order: seq<NodeId>)
    requires l.head.Some? && l.head.value < |l.heap| && l.heap[l.head.value].prev.Some?
    ensures !Valid(l, order)
  {
  }

  /** `reverse` with the head the comment describes: the last node visited by
      the swap, i.e. the old last node. */
  method ReverseToLast<T>(l: List<T>, ghost order: seq<NodeId>) returns (r: List<T>)
    requires Valid(l, order)
    ensures Valid(r, Common.Reverse(order))
    ensures Values(r.heap, Common.Reverse(order)) == Common.Reverse(Values(l.heap, order))
  {
    if l.head.None? || l.heap[l.head.value].next.None? {
      assert Common.Reverse(order) == order;
      assert Common.Reverse(Values(l.heap, order)) == Values(l.heap, order);
      return l;
    }
    var heap, last := SwapLinks(l, order);
    r := List(heap, Some(last));
    SwappedValid(l, heap, order);
  }

  lemma SwappedValid<T>(l: List<T>, heap: seq<Node<T>>, order: seq<NodeId>)
    requires Valid(l, order) && order != [] && |heap| == |l.heap|
    requires forall id :: 0 <= id < |heap| ==> heap[id].data == l.heap[id].data
    requires forall i {:trigger heap[order[i]]} :: 0 <= i < |order| ==>
               heap[order[i]].next == Before(order, i) && heap[order[i]].prev == After(order, i)
    ensures Valid(List(heap, Some(order[|order| - 1])), Common.Reverse(order))
    ensures Values(heap, Common.Reverse(order)) == Common.Reverse(Values(l.heap, order))
  {
    SwappedLinks(heap, order);
    ValuesReverse(l.heap, heap, order);
  }

  /** Links that run backwards along `order` form the chain of the reversed
      order. */
  lemma SwappedLinks<T>(heap: seq<Node<T>>, order: seq<NodeId>)
    requires Distinct(order) && InHeap(heap, order) && order != []
    requires forall i {:trigger heap[order[i]]} :: 0 <= i < |order| ==>
               heap[order[i]].next == Before(order, i) && heap[order[i]].prev == After(order, i)
    ensures Valid(List(heap, Some(order[|order| - 1])), Common.Reverse(order))
  {
    var n := |order|;
    var o' := Common.Reverse(order);
    DistinctReverse(order);
    forall i | 0 <= i < n
      ensures o'[i] < |heap|
      ensures heap[o'[i]].next == After(o', i) && heap[o'[i]].prev == Before(o', i)
    {
      var j := n - 1 - i;
      assert o'[i] == order[j];
      assert heap[order[j]].next == Before(order, j);
      assert heap[order[j]].prev == After(order, j);
      if i + 1 < n { assert o'[i + 1] == order[j - 1]; }
      if i > 0 { assert o'[i - 1] == order[j + 1]; }
    }
  }

  lemma ValuesReverse<T>(h0: seq<Node<T>>, heap: seq<Node<T>>, order: seq<NodeId>)
    requires InHeap(h0, order) && |heap| == |h0|
    requires forall id :: 0 <= id < |heap| ==> heap[id].data == h0[id].data
    ensures InHeap(heap, Common.Reverse(order))
    ensures Values(heap, Common.Reverse(order)) == Common.Reverse(Values(h0, order))
  {
    var n := |order|;
    forall i | 0 <= i < n
      ensures Common.Reverse(order)[i] == order[n - 1 - i]
    {
    }
  }

  /** The module-level example, first half: build [10, 15, 20] with one
      insert of each kind, read it both ways and find 15. */
  method ExampleInsert() returns (l: List<int>, ghost o: seq<NodeId>,
                                  forward: seq<int>, backward: seq<int>, found: bool)
    ensures Valid(l, o) && Values(l.heap, o) == [10, 15, 20]
    ensures forward == [10, 15, 20]
    ensures backward == [20, 15, 10]
    ensures found
  {
    l := Empty();
    o := [];
    var id := NewId(l);
    l, o := InsertAtBeginning(l, 10, o), [id] + o;
    assert Values(l.heap, o) == [10];
    id := NewId(l);
    l := InsertAtEnd(l, 20, o);
    o := o + [id];
    assert Values(l.heap, o) == [10, 20];
    id := NewId(l);
    var out := InsertAtPosition(l, 15, 1, o);
    l, o := out.list, InsertAt(o, 1, id);
    assert Values(l.heap, o) == [10, 15, 20];
    forward := ToSeqForward(l, o);
    backward := ToSeqBackward(l, o);
    found := Search(l, 15, o);
  }

  /** The module-level example, continued: deleting at the beginning, at the
      end and by value empties the list [10, 15, 20]. */
  method ExampleDelete(l: List<int>, ghost o: seq<NodeId>) returns (r: List<int>, ghost o': seq<NodeId>, forward: seq<int>, emptied: nat)
    requires Valid(l, o) && Values(l.heap, o) == [10, 15, 20]
    ensures Valid(r, o') && o' == []
    ensures forward == []
    ensures emptied == 0
  {
    var out := DeleteAtBeginning(l, o);
    r, o' := out.list, o[1..];
    assert Values(r.heap, o') == [15, 20];
    out := DeleteAtEnd(r, o');
    r, o' := out.list, o'[..|o'| - 1];
    assert Values(r.heap, o') == [15];
    out := DeleteByValue(r, 15, o');
    assert FirstIndex(Values(r.heap, o'), 15) == 0;
    r, o' := out.list, RemoveAt(o', 0);
    forward := ToSeqForward(r, o');
    emptied := Length(r, o');
  }

  /** The module-level example, second half: on the emptied list, append 30,
      40 and 50 and reverse. The comment promises [50, 40, 30]; the code as
      written prints [40, 30], and the list is no longer valid. */
  method ExampleReverse(l: List<int>) returns (forward: seq<int>, reversed: List<int>, ghost o: seq<NodeId>, printed: seq<int>)
    requires Valid(l, [])
    ensures forward == [30, 40, 50]
    ensures Chain(reversed, o) && Values(reversed.heap, o) == [40, 30]
    ensures printed == [40, 30]
    ensures forall o' :: !Valid(reversed, o')
  {
    o := [];
    var r := l;
    var id := NewId(r);
    r := InsertAtEnd(r, 30, o);
    o := o + [id];
    assert Values(r.heap, o) == [30];
    id := NewId(r);
    r := InsertAtEnd(r, 40, o);
    o := o + [id];
    assert Values(r.heap, o) == [30, 40];
    id := NewId(r);
    r := InsertAtEnd(r, 50, o);
    o := o + [id];
    assert Values(r.heap, o) == [30, 40, 50];
    forward := ToSeqForward(r, o);
    reversed := Reverse(r, o);
    o := [o[1], o[0]];
    printed := ToSeqForward(reversed, o);
    forall o': seq<NodeId>
      ensures !Valid(reversed, o')
    {
      HeadWithPrevInvalid(reversed, o');
    }
  }

  /** The same second half with the head the comment describes: [50, 40, 30]. */
  method ExampleReverseToLast(l: List<int>) returns (reversed: seq<int>)
    requires Valid(l, [])
    ensures reversed == [50, 40, 30]
  {
    ghost var o: seq<NodeId> := [];
    var r := l;
    var id := NewId(r);
    r := InsertAtEnd(r, 30, o);
    o := o + [id];
    id := NewId(r);
    r := InsertAtEnd(r, 40, o);
    o := o + [id];
    id := NewId(r);
    r := InsertAtEnd(r, 50, o);
    o := o + [id];
    assert Values(r.heap, o) == [30, 40, 50];
    r := ReverseToLast(r, o);
    o := Common.Reverse(o);
    reversed := ToSeqForward(r, o);
  }
}
