/**
 * The abstract view of the LRU cache: its entries as a sequence of
 * (key, value) pairs, index 0 being the most recently used entry and the
 * last index the least recently used one. Every operation of the cache is
 * specified here as a function on that sequence, and the properties the
 * cache promises are proved as lemmas about those functions.
 */
module LruSpec {
  import opened Wrappers

  type Entry<V> = (string, V)

  /** The keys held by the entries. */
  function Keys<V>(s: seq<Entry<V>>): set<string>
  {
    set i | 0 <= i < |s| :: s[i].0
  }

  /** No key occurs twice: the index can point at exactly one entry per key. */
  ghost predicate DistinctKeys<V>(s: seq<Entry<V>>)
  {
    forall i, j :: 0 <= i < j < |s| ==> s[i].0 != s[j].0
  }

  /** Position of the first entry with key `k`. */
  function KeyIndex<V>(s: seq<Entry<V>>, k: string): (i: nat)
    requires k in Keys(s)
    ensures i < |s| && s[i].0 == k
    ensures forall j :: 0 <= j < i ==> s[j].0 != k
  {
    if s[0].0 == k then 0
    else
      assert k in Keys(s[1..]) by {
        var m :| 0 <= m < |s| && s[m].0 == k;
        assert s[1..][m - 1].0 == k;
      }
      KeyIndex(s[1..], k) + 1
  }

  /** The value stored under `k`, or None when `k` is not cached. */
  function Lookup<V>(s: seq<Entry<V>>, k: string): Option<V>
  {
    if k in Keys(s) then Some(s[KeyIndex(s, k)].1) else None
  }

  /** The sequence without its element at position `i`. */
  function RemoveAt<T>(s: seq<T>, i: nat): (r: seq<T>)
    requires i < |s|
    ensures |r| == |s| - 1
    ensures forall j :: 0 <= j < i ==> r[j] == s[j]
    ensures forall j :: i <= j < |r| ==> r[j] == s[j + 1]
  {
    s[..i] + s[i + 1..]
  }

  /** Remove / deleteItem: the entry with key `k` is unlinked, the others keep their order. */
  function Without<V>(s: seq<Entry<V>>, k: string): seq<Entry<V>>
  {
    if k in Keys(s) then RemoveAt(s, KeyIndex(s, k)) else s
  }

  /**
   * What an insert of a new key leaves of the old entries: the back entry is
   * dropped when the queue length equals the capacity; an empty queue has no
   * back entry, so nothing is dropped then.
   */
  function Evicted<V>(s: seq<Entry<V>>, capacity: int): seq<Entry<V>>
  {
    if |s| == capacity && |s| > 0 then s[..|s| - 1] else s
  }

  /** Add: update-and-move-to-front for a present key, evict-then-push-front for a new one. */
  function Added<V>(s: seq<Entry<V>>, capacity: int, k: string, v: V): seq<Entry<V>>
  {
    if k in Keys(s) then [(k, v)] + Without(s, k)
    else [(k, v)] + Evicted(s, capacity)
  }

  /** Get: the value found (if any) and the entries afterwards, the hit moved to the front. */
  function Touched<V>(s: seq<Entry<V>>, k: string): (Option<V>, seq<Entry<V>>)
  {
    if k in Keys(s) then
      var i := KeyIndex(s, k);
      (Some(s[i].1), [s[i]] + RemoveAt(s, i))
    else (None, s)
  }

  /** A fold of Add over `rows`, first row first. */
  function Folded<V>(s: seq<Entry<V>>, capacity: int, rows: seq<Entry<V>>): seq<Entry<V>>
  {
    if rows == [] then s
    else
      var last := rows[|rows| - 1];
      Added(Folded(s, capacity, rows[..|rows| - 1]), capacity, last.0, last.1)
  }

  /** The first `n` elements, or all of them when there are fewer. */
  function Take<T>(n: nat, s: seq<T>): (r: seq<T>)
  {
    if |s| <= n then s else s[..n]
  }

  function Reverse<T>(s: seq<T>): (r: seq<T>)
  {
    if s == [] then [] else [s[|s| - 1]] + Reverse(s[..|s| - 1])
  }
}
