/** Vocabulary shared by the four linked-list models: node ids and optional
    links, the result codes that stand for the lists' printed messages, and
    the sequence operations every list operation is specified against.
 */
module Common {

  /** A link that may be absent: Python's `None`. */
  datatype Option<T> = None | Some(value: T)

  /** The slot of a node in a list's node store. A new node always takes the
      first unused slot, so it never aliases a node that already exists. */
  type NodeId = nat

  /** What an operation reports. Every non-`Done` code stands for a message the
      list prints before returning without touching any link. */
  datatype Status =
    | Done
    | NegativePosition  // "Position cannot be negative."
    | OutOfRange        // "Position out of range."
    | EmptyList         // "List is empty."
    | NotFound          // "Value not found."

  /** The list after an operation, together with what the operation reported. */
  datatype Outcome<L> = Outcome(list: L, status: Status)

  ghost predicate Distinct<X>(s: seq<X>) {
    forall i, j :: 0 <= i < j < |s| ==> s[i] != s[j]
  }

  /** The element after position `i` of a chain, `None` after the last one. */
  function After<X>(s: seq<X>, i: nat): Option<X>
    requires i < |s|
  {
    if i + 1 < |s| then Some(s[i + 1]) else None
  }

  /** The element before position `i` of a chain, `None` before the first one. */
  function Before<X>(s: seq<X>, i: nat): Option<X>
    requires i < |s|
  {
    if i == 0 then None else Some(s[i - 1])
  }

  /** Index of the successor of position `i` in a ring of `n` positions. */
  function Succ(i: nat, n: nat): nat
    requires i < n
  {
    if i + 1 < n then i + 1 else 0
  }

  /** Index of the predecessor of position `i` in a ring of `n` positions. */
  function Pred(i: nat, n: nat): nat
    requires i < n
  {
    if i == 0 then n - 1 else i - 1
  }

  function Reverse<X>(s: seq<X>): seq<X> {
    seq(|s|, i requires 0 <= i < |s| => s[|s| - 1 - i])
  }

  function InsertAt<X>(s: seq<X>, i: nat, x: X): seq<X>
    requires i <= |s|
  {
    s[..i] + [x] + s[i..]
  }

  function RemoveAt<X>(s: seq<X>, i: nat): seq<X>
    requires i < |s|
  {
    s[..i] + s[i + 1..]
  }

  /** `s` read from position `k` round to position `k - 1`. */
  function Rotate<X>(s: seq<X>, k: nat): seq<X>
    requires k <= |s|
  {
    s[k..] + s[..k]
  }

  /** The position of the first occurrence of `x` in `s`. */
  function FirstIndex<X(==)>(s: seq<X>, x: X): (i: nat)
    requires x in s
    ensures i < |s| && s[i] == x
    ensures x !in s[..i]
  {
    if s[0] == x then 0
    else
      var j := FirstIndex(s[1..], x);
      assert s[..j + 1] == [s[0]] + s[1..][..j];
      1 + j
  }

  /** `s` without the first occurrence of `x`; `s` itself when `x` is absent. */
  function RemoveFirst<X(==)>(s: seq<X>, x: X): seq<X> {
    if x in s then RemoveAt(s, FirstIndex(s, x)) else s
  }

  lemma DistinctInsertAt<X>(s: seq<X>, i: nat, x: X)
    requires Distinct(s) && x !in s && i <= |s|
    ensures Distinct(InsertAt(s, i, x))
  {
    var t := InsertAt(s, i, x);
    forall a, b | 0 <= a < b < |t|
      ensures t[a] != t[b]
    {
      assert t[a] == (if a < i then s[a] else if a == i then x else s[a - 1]);
      assert t[b] == (if b < i then s[b] else if b == i then x else s[b - 1]);
    }
  }

  lemma DistinctRemoveAt<X>(s: seq<X>, i: nat)
    requires Distinct(s) && i < |s|
    ensures Distinct(RemoveAt(s, i))
  {
    var t := RemoveAt(s, i);
    forall a, b | 0 <= a < b < |t|
      ensures t[a] != t[b]
    {
      assert t[a] == (if a < i then s[a] else s[a + 1]);
      assert t[b] == (if b < i then s[b] else s[b + 1]);
    }
  }

  /** The first occurrence is the one with no earlier occurrence. */
  lemma {:induction false} FirstIndexAt<X>(s: seq<X>, x: X, i: nat)
    requires i < |s| && s[i] == x && x !in s[..i]
    ensures x in s && FirstIndex(s, x) == i
  {
    if i > 0 {
      assert s[0] in s[..i];
      assert s[1..][..i - 1] == s[1..i];
      assert s[..i] == [s[0]] + s[1..i];
      FirstIndexAt(s[1..], x, i - 1);
    }
  }

  /** Inserting at the end appends; read from the old length on, the
      appended sequence starts with the new element. */
  lemma AppendIsInsertAt<X>(s: seq<X>, x: X)
    ensures InsertAt(s, |s|, x) == s + [x]
    ensures Rotate(s + [x], |s|) == [x] + s
  {
  }

  lemma PrependIsInsertAt<X>(s: seq<X>, x: X)
    ensures InsertAt(s, 0, x) == [x] + s
  {
  }

  lemma RemoveAtIsTail<X>(s: seq<X>)
    requires s != []
    ensures RemoveAt(s, 0) == s[1..]
  {
  }

  lemma RemoveAtIsInit<X>(s: seq<X>)
    requires s != []
    ensures RemoveAt(s, |s| - 1) == s[..|s| - 1]
  {
  }

  /** A sequence of distinct elements stays distinct under rotation. */
  lemma RotateDistinct<X>(s: seq<X>, k: nat)
    requires Distinct(s) && 0 < k < |s|
    ensures Distinct(Rotate(s, k))
  {
    var n := |s|;
    var t := Rotate(s, k);
    forall a, b | 0 <= a < b < n
      ensures t[a] != t[b]
    {
    }
  }

  /** Reversing twice gives the sequence back. */
  lemma ReverseReverse<X>(s: seq<X>)
    ensures Reverse(Reverse(s)) == s
  {
  }

  /** A sequence of distinct elements stays distinct under reversal. */
  lemma DistinctReverse<X>(s: seq<X>)
    requires Distinct(s)
    ensures Distinct(Reverse(s))
  {
  }
}
