/**
 * The doubly linked list the cache keeps its recency queue in, seen as the
 * sequence of its elements from front to back. Elements are references, so
 * an element is found by identity, as the list's own operations do.
 */
module ElementList {
  import opened Wrappers

  /** Position of element `e` in the list. */
  function IndexOf<T(==)>(q: seq<T>, e: T): (i: nat)
    requires e in q
    ensures i < |q| && q[i] == e
    ensures e !in q[..i]
  {
    if q[0] == e then 0 else IndexOf(q[1..], e) + 1
  }

  /** list.Remove: unlink `e`; the other elements keep their order. */
  function Remove<T(==)>(q: seq<T>, e: T): (r: seq<T>)
    requires e in q
    ensures |r| == |q| - 1
    ensures forall j {:trigger r[j]} :: 0 <= j < IndexOf(q, e) ==> r[j] == q[j]
    ensures forall j {:trigger r[j]} :: IndexOf(q, e) <= j < |r| ==> r[j] == q[j + 1]
    ensures forall x :: x in r ==> x in q
    ensures forall x :: x in q && x != e ==> x in r
  {
    var i := IndexOf(q, e);
    q[..i] + q[i + 1..]
  }

  /**
   * list.MoveToFront: unlink `e` and relink it as the first element; the
   * elements before it shift back by one, those after it stay in place.
   */
  function MoveToFront<T(==)>(q: seq<T>, e: T): (r: seq<T>)
    requires e in q
    ensures |r| == |q| && r[0] == e
    ensures forall j {:trigger r[j]} :: 1 <= j <= IndexOf(q, e) ==> r[j] == q[j - 1]
    ensures forall j {:trigger r[j]} :: IndexOf(q, e) < j < |r| ==> r[j] == q[j]
    ensures forall x :: x in r ==> x in q
    ensures forall x :: x in q ==> x in r
  {
    [e] + Remove(q, e)
  }

  /** list.PushFront. */
  function PushFront<T>(q: seq<T>, e: T): seq<T>
  {
    [e] + q
  }

  /** list.Back: the last element, None for an empty list. */
  function Back<T>(q: seq<T>): (r: Option<T>)
    ensures r.Some? <==> q != []
    ensures r.Some? ==> r.value == q[|q| - 1]
  {
    if q == [] then None else Some(q[|q| - 1])
  }
}
