/** The singly linked list `LinkedList`: a chain of nodes from `head`, each
    holding one value and a `next` link, the last `next` being `None`.

    The node store is an arena indexed by `NodeId`; a node unlinked by a
    delete stays in the arena as garbage. The ghost `order` lists the ids of
    the reachable nodes from `head` onwards, and the list's contents are the
    values stored at those ids.
 */
module LinkedList {
  import opened Common

  datatype Node<T> = Node(data: T, next: Option<NodeId>)

  datatype List<T> = List(heap: seq<Node<T>>, head: Option<NodeId>)

  /** The list a fresh `LinkedList()` holds. */
  function Empty<T>(): (r: List<T>)
    ensures Valid(r, [])
  {
    List([], None)
  }

  /** The id a node allocated now receives. */
  function NewId<T>(l: List<T>): NodeId {
    |l.heap|
  }

  ghost predicate InHeap<T>(heap: seq<Node<T>>, order: seq<NodeId>) {
    forall i :: 0 <= i < |order| ==> order[i] < |heap|
  }

  /** The values held by the nodes `order` names, in that order. */
  ghost function Values<T>(heap: seq<Node<T>>, order: seq<NodeId>): seq<T>
    requires InHeap(heap, order)
  {
    seq(|order|, i requires 0 <= i < |order| => heap[order[i]].data)
  }

  /** The class invariant: following `next` from `head` visits exactly the
      distinct nodes of `order` and then reaches `None`. */
  ghost predicate Valid<T>(l: List<T>, order: seq<NodeId>) {
    && Distinct(order)
    && InHeap(l.heap, order)
    && l.head == (if order == [] then None else Some(order[0]))
    && forall i {:trigger l.heap[order[i]]} :: 0 <= i < |order| ==>
         l.heap[order[i]].next == After(order, i)
  }

  /** Values only depend on the data fields of the nodes named. */
  lemma ValuesFrame<T>(h1: seq<Node<T>>, h2: seq<Node<T>>, order: seq<NodeId>)
    requires InHeap(h1, order) && |h1| <= |h2|
    requires forall id :: 0 <= id < |h1| ==> h2[id].data == h1[id].data
    ensures Values(h2, order) == Values(h1, order)
  {
  }

  /** No node among the first `k` of `order` holds `v`. */
  lemma ValuesMiss<T>(heap: seq<Node<T>>, order: seq<NodeId>, v: T, k: nat)
    requires InHeap(heap, order) && k <= |order|
    requires forall t {:trigger heap[order[t]]} :: 0 <= t < k ==> heap[order[t]].data != v
    ensures v !in Values(heap, order)[..k]
    ensures k == |order| ==> v !in Values(heap, order)
  {
    assert Values(heap, order)[..|order|] == Values(heap, order);
  }

  /** The values of `order` read from the first node on. */
  lemma ForwardValues<T>(heap: seq<Node<T>>, order: seq<NodeId>, s: seq<T>)
    requires InHeap(heap, order) && |s| == |order|
    requires forall t {:trigger s[t]} :: 0 <= t < |s| ==> s[t] == heap[order[t]].data
    ensures s == Values(heap, order)
  {
  }

  lemma ValuesInsertAt<T>(heap: seq<Node<T>>, order: seq<NodeId>, j: nat, id: NodeId)
    requires InHeap(heap, order) && j <= |order| && id < |heap|
    ensures InHeap(heap, InsertAt(order, j, id))
    ensures Values(heap, InsertAt(order, j, id)) == InsertAt(Values(heap, order), j, heap[id].data)
  {
    var o' := InsertAt(order, j, id);
    assert forall i :: 0 <= i < |o'| ==> o'[i] == (if i < j then order[i] else if i == j then id else order[i - 1]);
  }

  lemma ValuesRemoveAt<T>(heap: seq<Node<T>>, order: seq<NodeId>, j: nat)
    requires InHeap(heap, order) && j < |order|
    ensures InHeap(heap, RemoveAt(order, j))
    ensures Values(heap, RemoveAt(order, j)) == RemoveAt(Values(heap, order), j)
  {
    var o' := RemoveAt(order, j);
    assert forall i :: 0 <= i < |o'| ==> o'[i] == (if i < j then order[i] else order[i + 1]);
  }

  /** The store determines the order: no two orders describe the same list. */
  lemma {:induction false} OrderUnique<T>(l: List<T>, o1: seq<NodeId>, o2: seq<NodeId>)
    requires Valid(l, o1) && Valid(l, o2)
    ensures o1 == o2
  {
    var k := 0;
    while k < |o1| && k < |o2|
      invariant 0 <= k <= |o1| && 0 <= k <= |o2|
      invariant o1[..k] == o2[..k]
      invariant 0 < k ==> o1[k - 1] == o2[k - 1]
    {
      if k == 0 {
        assert o1[0] == o2[0];
      } else {
        assert l.heap[o1[k - 1]].next == Some(o1[k]);
      }
      assert o1[..k + 1] == o1[..k] + [o1[k]];
      assert o2[..k + 1] == o2[..k] + [o2[k]];
      k := k + 1;
    }
    if k > 0 {
      assert After(o1, k - 1) == l.heap[o1[k - 1]].next == After(o2, k - 1);
    } else {
      assert (o1 == []) == (o2 == []);
    }
    assert o1 == o1[..k] && o2 == o2[..k];
  }

  /** `insert_at_beginning`: the new node becomes `head` and links to the old one. */
  function InsertAtBeginning<T>(l: List<T>, v: T, ghost order: seq<NodeId>): (r: List<T>)
    requires Valid(l, order)
    ensures Valid(r, [NewId(l)] + order)
    ensures Values(r.heap, [NewId(l)] + order) == [v] + Values(l.heap, order)
  {
    List(l.heap + [Node(v, l.head)], Some(NewId(l)))
  }

  /** `insert_at_end`: walks to the last node and links the new node after it. */
  method InsertAtEnd<T>(l: List<T>, v: T, ghost order: seq<NodeId>) returns (r: List<T>)
    requires Valid(l, order)
    ensures Valid(r, order + [NewId(l)])
    ensures Values(r.heap, order + [NewId(l)]) == Values(l.heap, order) + [v]
  {
    var id := NewId(l);
    if l.head.None? {
      return List(l.heap + [Node(v, None)], Some(id));
    }
    var cur := l.head.value;
    ghost var k := 0;
    while l.heap[cur].next.Some?
      invariant 0 <= k < |order| && cur == order[k]
      decreases |order| - k
    {
      cur := l.heap[cur].next.value;
      k := k + 1;
    }
    var heap := l.heap[cur := l.heap[cur].(next := Some(id))] + [Node(v, None)];
    r := List(heap, l.head);
    // The same store as splicing after the last node, whose `next` is `None`.
    LinkAfterValid(l, cur, v, order, |order|);
    assert InsertAt(order, |order|, id) == order + [id];
    assert InsertAt(Values(l.heap, order), |order|, v) == Values(l.heap, order) + [v];
  }

  /** `insert_at_position`: a negative position or one past the end reports
      an error and leaves the list alone; position 0 prepends; otherwise the
      new node is linked after the node at `position - 1`. */
  method InsertAtPosition<T>(l: List<T>, v: T, position: int, ghost order: seq<NodeId>)
    returns (r: Outcome<List<T>>)
    requires Valid(l, order)
    ensures r.status == NegativePosition <==> position < 0
    ensures r.status == OutOfRange <==> position > |order|
    ensures r.status == Done <==> 0 <= position <= |order|
    ensures r.status != Done ==> r.list == l
    ensures position == 0 ==> r.list == InsertAtBeginning(l, v, order)
    ensures 0 <= position <= |order| ==>
              && Valid(r.list, InsertAt(order, position, NewId(l)))
              && Values(r.list.heap, InsertAt(order, position, NewId(l)))
                 == InsertAt(Values(l.heap, order), position, v)
  {
    if position < 0 {
      return Outcome(l, NegativePosition);
    }
    if position == 0 {
      // The source repeats the body of insert_at_beginning here.
      var r0 := InsertAtBeginning(l, v, order);
      assert InsertAt(order, 0, NewId(l)) == [NewId(l)] + order;
      assert InsertAt(Values(l.heap, order), 0, v) == [v] + Values(l.heap, order);
      return Outcome(r0, Done);
    }
    var cur := l.head;
    var count := 0;
    while cur.Some? && count < position - 1
      invariant 0 <= count <= position - 1 && count <= |order|
      invariant cur == (if count < |order| then Some(order[count]) else None)
      decreases position - 1 - count
    {
      cur := l.heap[cur.value].next;
      count := count + 1;
    }
    if cur.None? {
      return Outcome(l, OutOfRange);
    }
    r := Outcome(LinkAfter(l, cur.value, v, order, position), Done);
  }

  /** The splice of `insert_at_position`: a new node holding `v` is linked
      between node `c`, at index `position - 1`, and its successor. */
  function LinkAfter<T>(l: List<T>, c: NodeId, v: T, ghost order: seq<NodeId>, ghost position: nat): (r: List<T>)
    requires Valid(l, order) && 1 <= position <= |order| && c == order[position - 1]
    ensures Valid(r, InsertAt(order, position, NewId(l)))
    ensures Values(r.heap, InsertAt(order, position, NewId(l))) == InsertAt(Values(l.heap, order), position, v)
  {
    var id := NewId(l);
    var heap := l.heap[c := l.heap[c].(next := Some(id))] + [Node(v, l.heap[c].next)];
    LinkAfterValid(l, c, v, order, position);
    List(heap, l.head)
  }

  lemma LinkAfterValid<T>(l: List<T>, c: NodeId, v: T, order: seq<NodeId>, position: nat)
    requires Valid(l, order) && 1 <= position <= |order| && c == order[position - 1]
    ensures var id := NewId(l);
            var heap := l.heap[c := l.heap[c].(next := Some(id))] + [Node(v, l.heap[c].next)];
            var o' := InsertAt(order, position, id);
            && Valid(List(heap, l.head), o')
            && Values(heap, o') == InsertAt(Values(l.heap, order), position, v)
  {
    var id := NewId(l);
    var heap := l.heap[c := l.heap[c].(next := Some(id))] + [Node(v, l.heap[c].next)];
    assert forall i {:trigger heap[order[i]]} :: 0 <= i < |order| && i != position - 1 ==> heap[order[i]] == l.heap[order[i]] by {
      forall i | 0 <= i < |order| && i != position - 1
        ensures heap[order[i]] == l.heap[order[i]]
      {
        assert order[i] != c;
      }
    }
    assert l.heap[c].next == After(order, position - 1);
    SpliceChain(l, heap, order, position, id);
    ValuesInsertAt(heap, order, position, id);
    ValuesFrame(l.heap, heap, order);
  }

  /** Any store that links node `id` in after the node at `position - 1`,
      and rewrites no other node of the chain, inserts `id` at `position`. */
  lemma SpliceChain<T>(l: List<T>, heap: seq<Node<T>>, order: seq<NodeId>, position: nat, id: NodeId)
    requires Valid(l, order) && 1 <= position <= |order| && |l.heap| <= id < |heap|
    requires forall i {:trigger heap[order[i]]} :: 0 <= i < |order| && i != position - 1 ==> heap[order[i]] == l.heap[order[i]]
    requires heap[order[position - 1]].next == Some(id)
    requires heap[id].next == After(order, position - 1)
    ensures Valid(List(heap, l.head), InsertAt(order, position, id))
  {
    var o' := InsertAt(order, position, id);
    DistinctInsertAt(order, position, id);
    forall i | 0 <= i < |o'|
      ensures o'[i] < |heap|
      ensures heap[o'[i]].next == After(o', i)
    {
      if i < position - 1 {
        assert o'[i] == order[i] && o'[i + 1] == order[i + 1];
      } else if i == position - 1 {
        assert o'[i] == order[i] && o'[i + 1] == id;
      } else if i == position {
        assert o'[i] == id;
        assert i + 1 < |o'| ==> o'[i + 1] == order[i];
      } else {
        assert o'[i] == order[i - 1];
        assert i + 1 < |o'| ==> o'[i + 1] == order[i];
      }
    }
  }

  /** `delete_at_beginning`: `head` moves to the second node. */
  function DeleteAtBeginning<T>(l: List<T>, ghost order: seq<NodeId>): (r: Outcome<List<T>>)
    requires Valid(l, order)
    ensures r.status == EmptyList <==> order == []
    ensures r.status != EmptyList ==> r.status == Done
    ensures order == [] ==> r.list == l
    ensures order != [] ==>
              Valid(r.list, order[1..]) && Values(r.list.heap, order[1..]) == Values(l.heap, order)[1..]
  {
    if l.head.None? then Outcome(l, EmptyList)
    else Outcome(List(l.heap, l.heap[l.head.value].next), Done)
  }

  /** `delete_at_end`: a single node empties the list; otherwise the walk stops
      at the second-to-last node, whose `next` becomes `None`. */
  method DeleteAtEnd<T>(l: List<T>, ghost order: seq<NodeId>) returns (r: Outcome<List<T>>)
    requires Valid(l, order)
    ensures r.status == EmptyList <==> order == []
    ensures r.status != EmptyList ==> r.status == Done
    ensures order == [] ==> r.list == l
    ensures order != [] ==>
              && Valid(r.list, order[..|order| - 1])
              && Values(r.list.heap, order[..|order| - 1]) == Values(l.heap, order)[..|order| - 1]
  {
    if l.head.None? {
      return Outcome(l, EmptyList);
    }
    var h := l.head.value;
    if l.heap[h].next.None? {
      return Outcome(List(l.heap, None), Done);
    }
    var cur := h;
    ghost var k := 0;
    while l.heap[l.heap[cur].next.value].next.Some?
      invariant 0 <= k < |order| - 1 && cur == order[k]
      decreases |order| - k
    {
      cur := l.heap[cur].next.value;
      k := k + 1;
    }
    var heap := l.heap[cur := l.heap[cur].(next := None)];
    r := Outcome(List(heap, l.head), Done);
    assert Values(heap, order[..|order| - 1]) == Values(l.heap, order)[..|order| - 1];
  }

  /** `delete_by_value`: removes the first node holding `v`, by re-linking its
      predecessor past it (or by moving `head` when `head` holds `v`). */
  method DeleteByValue<T(==)>(l: List<T>, v: T, ghost order: seq<NodeId>) returns (r: Outcome<List<T>>)
    requires Valid(l, order)
    ensures r.status == EmptyList <==> order == []
    ensures r.status == NotFound <==> order != [] && v !in Values(l.heap, order)
    ensures r.status == Done <==> v in Values(l.heap, order)
    ensures r.status != Done ==> r.list == l
    ensures order != [] && l.heap[order[0]].data == v ==> r == DeleteAtBeginning(l, order)
    ensures r.status == Done ==>
              var j := FirstIndex(Values(l.heap, order), v);
              && Valid(r.list, RemoveAt(order, j))
              && Values(r.list.heap, RemoveAt(order, j)) == RemoveFirst(Values(l.heap, order), v)
  {
    if l.head.None? {
      return Outcome(l, EmptyList);
    }
    ghost var s := Values(l.heap, order);
    var h := l.head.value;
    if l.heap[h].data == v {
      // The source repeats the body of delete_at_beginning here.
      FirstIndexAt(s, v, 0);
      RemoveAtIsTail(order);
      RemoveAtIsTail(s);
      return DeleteAtBeginning(l, order);
    }
    var cur := h;
    ghost var k := 0;
    while l.heap[cur].next.Some?
      invariant 0 <= k < |order| && cur == order[k]
      invariant forall t {:trigger l.heap[order[t]]} :: 0 <= t < k + 1 ==> l.heap[order[t]].data != v
      decreases |order| - k
    {
      var nx := l.heap[cur].next.value;
      if l.heap[nx].data == v {
        assert s[k + 1] == v;
        ValuesMiss(l.heap, order, v, k + 1);
        FirstIndexAt(s, v, k + 1);
        return Outcome(UnlinkAfter(l, cur, order, k), Done);
      }
      cur := nx;
      k := k + 1;
    }
    ValuesMiss(l.heap, order, v, k + 1);
    r := Outcome(l, NotFound);
  }

  /** The unlink of `delete_by_value`: node `c`, at index `k`, is re-linked
      past its successor, which drops out of the chain. */
  function UnlinkAfter<T>(l: List<T>, c: NodeId, ghost order: seq<NodeId>, ghost k: nat): (r: List<T>)
    requires Valid(l, order) && k + 1 < |order| && c == order[k]
    ensures Valid(r, RemoveAt(order, k + 1))
    ensures Values(r.heap, RemoveAt(order, k + 1)) == RemoveAt(Values(l.heap, order), k + 1)
  {
    var heap := l.heap[c := l.heap[c].(next := l.heap[l.heap[c].next.value].next)];
    UnlinkAfterValid(l, c, order, k);
    List(heap, l.head)
  }

  lemma UnlinkAfterValid<T>(l: List<T>, c: NodeId, order: seq<NodeId>, k: nat)
    requires Valid(l, order) && k + 1 < |order| && c == order[k]
    ensures var heap := l.heap[c := l.heap[c].(next := l.heap[l.heap[c].next.value].next)];
            var o' := RemoveAt(order, k + 1);
            && Valid(List(heap, l.head), o')
            && Values(heap, o') == RemoveAt(Values(l.heap, order), k + 1)
  {
    var heap := l.heap[c := l.heap[c].(next := l.heap[l.heap[c].next.value].next)];
    assert forall i {:trigger heap[order[i]]} :: 0 <= i < |order| && i != k ==> heap[order[i]] == l.heap[order[i]] by {
      forall i | 0 <= i < |order| && i != k
        ensures heap[order[i]] == l.heap[order[i]]
      {
        assert order[i] != c;
      }
    }
    BypassChain(l, heap, order, k);
    ValuesRemoveAt(l.heap, order, k + 1);
    ValuesFrame(l.heap, heap, RemoveAt(order, k + 1));
  }

  /** The links after the unlink, for any store that re-links exactly the
      node at `k` past its successor. */
  lemma BypassChain<T>(l: List<T>, heap: seq<Node<T>>, order: seq<NodeId>, k: nat)
    requires Valid(l, order) && k + 1 < |order| && |heap| == |l.heap|
    requires forall i {:trigger heap[order[i]]} :: 0 <= i < |order| && i != k ==> heap[order[i]] == l.heap[order[i]]
    requires heap[order[k]].next == l.heap[order[k + 1]].next
    ensures Valid(List(heap, l.head), RemoveAt(order, k + 1))
  {
    var o' := RemoveAt(order, k + 1);
    DistinctRemoveAt(order, k + 1);
    forall i | 0 <= i < |o'|
      ensures heap[o'[i]].next == After(o', i)
    {
      if i < k {
        assert o'[i] == order[i] && o'[i + 1] == order[i + 1];
      } else if i == k {
        assert o'[i] == order[k];
        assert i + 1 < |o'| ==> o'[i + 1] == order[k + 2];
      } else {
        assert o'[i] == order[i + 1];
        assert i + 1 < |o'| ==> o'[i + 1] == order[i + 2];
      }
    }
  }

  /** `search`: a forward walk that stops at the first node holding `v`. */
  method Search<T(==)>(l: List<T>, v: T, ghost order: seq<NodeId>) returns (found: bool)
    requires Valid(l, order)
    ensures found <==> v in Values(l.heap, order)
  {
    var cur := l.head;
    ghost var k := 0;
    while cur.Some?
      invariant 0 <= k <= |order|
      invariant cur == (if k < |order| then Some(order[k]) else None)
      invariant forall t {:trigger l.heap[order[t]]} :: 0 <= t < k ==> l.heap[order[t]].data != v
      decreases |order| - k
    {
      if l.heap[cur.value].data == v {
        assert Values(l.heap, order)[k] == v;
        return true;
      }
      cur := l.heap[cur.value].next;
      k := k + 1;
    }
    ValuesMiss(l.heap, order, v, k);
    return false;
  }

  /** `length`: counts the nodes of a full forward walk. */
  method Length<T>(l: List<T>, ghost order: seq<NodeId>) returns (count: nat)
    requires Valid(l, order)
    ensures count == |Values(l.heap, order)|
  {
    count := 0;
    var cur := l.head;
    while cur.Some?
      invariant 0 <= count <= |order|
      invariant cur == (if count < |order| then Some(order[count]) else None)
      decreases |order| - count
    {
      count := count + 1;
      cur := l.heap[cur.value].next;
    }
  }

  /** `print_list`: the values a forward walk from `head` visits. */
  method ToSeq<T>(l: List<T>, ghost order: seq<NodeId>) returns (s: seq<T>)
    requires Valid(l, order)
    ensures s == Values(l.heap, order)
  {
    s := [];
    var cur := l.head;
    ghost var k := 0;
    while cur.Some?
      invariant 0 <= k <= |order|
      invariant cur == (if k < |order| then Some(order[k]) else None)
      invariant |s| == k
      invariant forall t {:trigger s[t]} :: 0 <= t < k ==> s[t] == l.heap[order[t]].data
      decreases |order| - k
    {
      s := s + [l.heap[cur.value].data];
      cur := l.heap[cur.value].next;
      k := k + 1;
    }
    ForwardValues(l.heap, order, s);
  }

  /** `reverse`: turns every `next` link round, then `head` is the old last node. */
  method Reverse<T>(l: List<T>, ghost order: seq<NodeId>) returns (r: List<T>)
    requires Valid(l, order)
    ensures Valid(r, Common.Reverse(order))
    ensures Values(r.heap, Common.Reverse(order)) == Common.Reverse(Values(l.heap, order))
  {
    var n := |order|;
    var prev: Option<NodeId> := None;
    var cur := l.head;
    var heap := l.heap;
    ghost var k := 0;
    while cur.Some?
      invariant 0 <= k <= n && |heap| == |l.heap|
      invariant cur == (if k < n then Some(order[k]) else None)
      invariant prev == (if k == 0 then None else Some(order[k - 1]))
      invariant forall id :: 0 <= id < |heap| ==> heap[id].data == l.heap[id].data
      invariant forall i {:trigger heap[order[i]]} :: 0 <= i < k ==> heap[order[i]].next == Before(order, i)
      invariant forall i {:trigger heap[order[i]]} :: k <= i < n ==> heap[order[i]] == l.heap[order[i]]
      decreases n - k
    {
      var c := cur.value;
      var nx := heap[c].next;
      heap := heap[c := heap[c].(next := prev)];
      prev := cur;
      cur := nx;
      k := k + 1;
    }
    r := List(heap, prev);
    ReversedLinksValid(l, heap, order);
  }

  /** Once every `next` link of the chain points backwards, the chain read
      from its old last node is the reversed order. */
  lemma ReversedLinksValid<T>(l: List<T>, heap: seq<Node<T>>, order: seq<NodeId>)
    requires Valid(l, order) && |heap| == |l.heap|
    requires forall id :: 0 <= id < |heap| ==> heap[id].data == l.heap[id].data
    requires forall i {:trigger heap[order[i]]} :: 0 <= i < |order| ==> heap[order[i]].next == Before(order, i)
    ensures var last := if order == [] then None else Some(order[|order| - 1]);
            && Valid(List(heap, last), Common.Reverse(order))
            && Values(heap, Common.Reverse(order)) == Common.Reverse(Values(l.heap, order))
  {
    var n := |order|;
    var o' := Common.Reverse(order);
    DistinctReverse(order);
    forall i | 0 <= i < n
      ensures o'[i] == order[n - 1 - i] && o'[i] < |heap|
      ensures heap[o'[i]].next == After(o', i)
      ensures heap[o'[i]].data == Common.Reverse(Values(l.heap, order))[i]
    {
    }
  }

  /** Reversing twice restores the original contents. */
  method ReverseTwice<T>(l: List<T>, ghost order: seq<NodeId>) returns (r: List<T>)
    requires Valid(l, order)
    ensures Valid(r, order)
    ensures Values(r.heap, order) == Values(l.heap, order)
  {
    var r1 := Reverse(l, order);
    r := Reverse(r1, Common.Reverse(order));
    ReverseReverse(order);
    ReverseReverse(Values(l.heap, order));
  }

  /** The module-level example, first half: build [10, 15, 20] with one
      insert of each kind, find 15, then delete all three values. */
  method ExampleInsertDelete() returns (l: List<int>, ghost o: seq<NodeId>, built: seq<int>, found: bool,
                                        emptiedPrint: seq<int>, emptied: nat)
    ensures Valid(l, o) && o == []
    ensures built == [10, 15, 20]
    ensures found
    ensures emptiedPrint == []
    ensures emptied == 0
  {
    l := Empty();
    o := [];
    var id := NewId(l);
    l, o := InsertAtBeginning(l, 10, o), [id] + o;
    assert Values(l.heap, o) == [10];
    id := NewId(l);
    l := InsertAtEnd(l, 20, o);
    o := o + [id];
    assert Values(l.heap, o) == [10, 20];
    id := NewId(l);
    var out := InsertAtPosition(l, 15, 1, o);
    l, o := out.list, InsertAt(o, 1, id);
    assert Values(l.heap, o) == [10, 15, 20];
    built := ToSeq(l, o);
    found := Search(l, 15, o);

    out := DeleteAtBeginning(l, o);
    l, o := out.list, o[1..];
    assert Values(l.heap, o) == [15, 20];
    out := DeleteAtEnd(l, o);
    l, o := out.list, o[..|o| - 1];
    assert Values(l.heap, o) == [15];
    out := DeleteByValue(l, 15, o);
    assert FirstIndex(Values(l.heap, o), 15) == 0;
    l, o := out.list, RemoveAt(o, 0);
    emptiedPrint := ToSeq(l, o);
    emptied := Length(l, o);
  }

  /** The module-level example, second half: on the emptied list, append
      30, 40 and 50. */
  method ExampleAppend(l: List<int>) returns (r: List<int>, ghost o: seq<NodeId>, forward: seq<int>)
    requires Valid(l, [])
    ensures Valid(r, o) && Values(r.heap, o) == [30, 40, 50]
    ensures forward == [30, 40, 50]
  {
    o := [];
    r := l;
    var id := NewId(r);
    r := InsertAtEnd(r, 30, o);
    o := o + [id];
    assert Values(r.heap, o) == [30];
    id := NewId(r);
    r := InsertAtEnd(r, 40, o);
    o := o + [id];
    assert Values(r.heap, o) == [30, 40];
    id := NewId(r);
    r := InsertAtEnd(r, 50, o);
    o := o + [id];
    assert Values(r.heap, o) == [30, 40, 50];
    forward := ToSeq(r, o);
  }

  /** The module-level example, end: reversing [30, 40, 50] gives
      [50, 40, 30]. */
  method ExampleReverse(l: List<int>, ghost o: seq<NodeId>) returns (reversed: seq<int>)
    requires Valid(l, o) && Values(l.heap, o) == [30, 40, 50]
    ensures reversed == [50, 40, 30]
  {
    var r := Reverse(l, o);
    reversed := ToSeq(r, Common.Reverse(o));
  }
}
