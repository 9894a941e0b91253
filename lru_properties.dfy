/**
 * Properties of the LRU operations, stated on the abstract view of module
 * LruSpec: index and queue stay consistent (distinct keys), Add/Get/Remove
 * move, evict and delete exactly as the cache promises, the capacity bound
 * holds for a positive capacity, and a run of inserts keeps the most
 * recently touched entries.
 */
module LruProperties {
  import opened Wrappers
  import opened LruSpec

  // ---------------------------------------------------------------------
  // Positions, keys and lookups

  /** With distinct keys, the position of an entry's key is that entry's position. */
  lemma KeyIndexOf<V>(s: seq<Entry<V>>, i: nat)
    requires DistinctKeys(s) && i < |s|
    ensures s[i].0 in Keys(s) && KeyIndex(s, s[i].0) == i
  {
  }

  /** The index has one key per entry: `len(items)` equals the queue length. */
  lemma {:induction false} KeysCardinality<V>(s: seq<Entry<V>>)
    requires DistinctKeys(s)
    ensures |Keys(s)| == |s|
  {
    if s != [] {
      var p := s[..|s| - 1];
      assert DistinctKeys(p);
      KeysCardinality(p);
      assert Keys(s) == Keys(p) + {s[|s| - 1].0};
      assert s[|s| - 1].0 !in Keys(p);
    }
  }

  /** A lookup finds exactly the pairs the entries hold. */
  lemma LookupIsMembership<V>(s: seq<Entry<V>>, k: string, v: V)
    requires DistinctKeys(s)
    ensures Lookup(s, k) == Some(v) <==> (k, v) in s
    ensures Lookup(s, k) == None <==> k !in Keys(s)
  {
    if (k, v) in s {
      var i :| 0 <= i < |s| && s[i] == (k, v);
      KeyIndexOf(s, i);
    }
  }

  lemma KeysOfConcat<V>(a: seq<Entry<V>>, b: seq<Entry<V>>)
    ensures Keys(a + b) == Keys(a) + Keys(b)
  {
    forall k | k in Keys(a) + Keys(b) ensures k in Keys(a + b) {
      if k in Keys(a) {
        var i :| 0 <= i < |a| && a[i].0 == k;
        assert (a + b)[i].0 == k;
      } else {
        var i :| 0 <= i < |b| && b[i].0 == k;
        assert (a + b)[|a| + i].0 == k;
      }
    }
  }

  lemma KeysOfCons<V>(x: Entry<V>, s: seq<Entry<V>>)
    ensures Keys([x] + s) == {x.0} + Keys(s)
  {
    KeysOfConcat([x], s);
    assert Keys([x]) == {x.0} by { assert [x][0].0 == x.0; }
  }

  /** A pair whose key is new can go in front without repeating a key. */
  lemma ConsDistinct<V>(x: Entry<V>, s: seq<Entry<V>>)
    requires DistinctKeys(s) && x.0 !in Keys(s)
    ensures DistinctKeys([x] + s)
    ensures Keys([x] + s) == {x.0} + Keys(s)
  {
    var t := [x] + s;
    KeysOfCons(x, s);
    forall a, b | 0 <= a < b < |t| ensures t[a].0 != t[b].0 {
      assert t[b] == s[b - 1];
      if a == 0 {
        assert s[b - 1].0 in Keys(s);
      } else {
        assert t[a] == s[a - 1];
      }
    }
  }

  // ---------------------------------------------------------------------
  // Remove (and deleteItem)

  /**
   * Removing a key deletes exactly its entry: the others stay, in the same
   * order, under the same values, and the size drops by one exactly when the
   * key was present.
   */
  lemma WithoutFacts<V>(s: seq<Entry<V>>, k: string)
    requires DistinctKeys(s)
    ensures DistinctKeys(Without(s, k))
    ensures Keys(Without(s, k)) == Keys(s) - {k}
    ensures |Without(s, k)| == if k in Keys(s) then |s| - 1 else |s|
    ensures k !in Keys(s) ==> Without(s, k) == s
    ensures forall j :: Lookup(Without(s, k), j) == if j == k then None else Lookup(s, j)
  {
    var w := Without(s, k);
    if k in Keys(s) {
      var i := KeyIndex(s, k);
      assert w == RemoveAt(s, i);
      assert DistinctKeys(w) by {
        forall a, b | 0 <= a < b < |w| ensures w[a].0 != w[b].0 {
          var a' := if a < i then a else a + 1;
          var b' := if b < i then b else b + 1;
          assert w[a] == s[a'] && w[b] == s[b'];
        }
      }
      assert Keys(w) == Keys(s) - {k} by {
        forall x | x in Keys(s) - {k} ensures x in Keys(w) {
          var m :| 0 <= m < |s| && s[m].0 == x;
          assert m != i;
          if m < i { assert w[m].0 == x; } else { assert w[m - 1].0 == x; }
        }
        forall x | x in Keys(w) ensures x in Keys(s) - {k} {
          var m :| 0 <= m < |w| && w[m].0 == x;
          var m' := if m < i then m else m + 1;
          assert s[m'].0 == x && m' != i;
        }
      }
      forall j ensures Lookup(w, j) == if j == k then None else Lookup(s, j) {
        if j != k && j in Keys(s) {
          var v := Lookup(s, j).value;
          LookupIsMembership(s, j, v);
          var m :| 0 <= m < |s| && s[m] == (j, v);
          assert m != i;
          if m < i { assert w[m] == (j, v); } else { assert w[m - 1] == (j, v); }
          LookupIsMembership(w, j, v);
        }
      }
    }
  }

  // ---------------------------------------------------------------------
  // Add

  /**
   * Add on a present key: the entry gets the new value and moves to the
   * front; the size, the key set and the relative order of all other
   * entries are unchanged.
   */
  lemma AddPresentFacts<V>(s: seq<Entry<V>>, capacity: int, k: string, v: V)
    requires DistinctKeys(s) && k in Keys(s)
    ensures var a := Added(s, capacity, k, v);
      a[0] == (k, v) && |a| == |s| && Keys(a) == Keys(s) && DistinctKeys(a) &&
      Without(a, k) == Without(s, k)
  {
    var a := Added(s, capacity, k, v);
    var w := Without(s, k);
    WithoutFacts(s, k);
    assert a == [(k, v)] + w;
    ConsDistinct((k, v), w);
    assert a[0].0 == k;
    assert KeyIndex(a, k) == 0;
  }

  /**
   * Add on an absent key: the new pair goes to the front. While the cache
   * is below capacity (or empty) nothing is evicted and the size grows by
   * one; at capacity exactly the back entry is evicted and the size stays
   * at the capacity.
   */
  lemma AddAbsentFacts<V>(s: seq<Entry<V>>, capacity: int, k: string, v: V)
    requires DistinctKeys(s) && k !in Keys(s)
    ensures var a := Added(s, capacity, k, v);
      a[0] == (k, v) && DistinctKeys(a) &&
      (|s| != capacity || |s| == 0 ==> a == [(k, v)] + s && |a| == |s| + 1) &&
      (|s| == capacity && capacity > 0 ==>
        a == [(k, v)] + s[..|s| - 1] && |a| == capacity && s[|s| - 1].0 !in Keys(a))
  {
    var a := Added(s, capacity, k, v);
    var e := Evicted(s, capacity);
    assert a == [(k, v)] + e;
    assert forall j :: 0 <= j < |e| ==> e[j] == s[j];
    assert forall j :: 1 <= j < |a| ==> a[j] == s[j - 1];
    if |s| == capacity && capacity > 0 {
      var back := s[|s| - 1].0;
      forall m | 0 <= m < |a| ensures a[m].0 != back {
        if m > 0 { assert s[m - 1].0 != back; }
      }
    }
  }

  /** The key set after Add: the added key joins, and the back entry's key leaves when it was evicted. */
  lemma AddKeys<V>(s: seq<Entry<V>>, capacity: int, k: string, v: V)
    requires DistinctKeys(s)
    ensures Keys(Added(s, capacity, k, v)) ==
      {k} + if k !in Keys(s) && |s| == capacity && capacity > 0 then Keys(s) - {s[|s| - 1].0} else Keys(s)
  {
    var a := Added(s, capacity, k, v);
    assert Keys([(k, v)]) == {k} by { assert [(k, v)][0].0 == k; }
    if k in Keys(s) {
      AddPresentFacts(s, capacity, k, v);
    } else {
      var e := Evicted(s, capacity);
      assert a == [(k, v)] + e;
      KeysOfConcat([(k, v)], e);
      if |s| == capacity && capacity > 0 {
        var n := |s| - 1;
        assert s == e + [s[n]];
        KeysOfConcat(e, [s[n]]);
        assert Keys([s[n]]) == {s[n].0} by { assert [s[n]][0].0 == s[n].0; }
        assert s[n].0 !in Keys(e) by {
          forall m | 0 <= m < |e| ensures e[m].0 != s[n].0 { assert e[m] == s[m]; }
        }
      }
    }
  }

  /**
   * Add keeps the representation invariant, and it keeps the size within
   * the capacity whenever the capacity is at least one.
   */
  lemma AddKeepsInvariant<V>(s: seq<Entry<V>>, capacity: int, k: string, v: V)
    requires DistinctKeys(s)
    ensures DistinctKeys(Added(s, capacity, k, v))
    ensures 1 <= capacity && |s| <= capacity ==> |Added(s, capacity, k, v)| <= capacity
  {
    if k in Keys(s) {
      AddPresentFacts(s, capacity, k, v);
    } else {
      AddAbsentFacts(s, capacity, k, v);
    }
  }

  /**
   * After Add the key holds the new value; every other key keeps its value,
   * except the back entry's key when a new key was added at capacity, which
   * has been evicted.
   */
  lemma AddLookup<V>(s: seq<Entry<V>>, capacity: int, k: string, v: V)
    requires DistinctKeys(s)
    ensures Lookup(Added(s, capacity, k, v), k) == Some(v)
    ensures forall j :: j != k ==>
      Lookup(Added(s, capacity, k, v), j) ==
      (if k !in Keys(s) && |s| == capacity && capacity > 0 && j == s[|s| - 1].0 then None
       else Lookup(s, j))
  {
    var a := Added(s, capacity, k, v);
    AddKeepsInvariant(s, capacity, k, v);
    assert a[0].0 == k;
    assert KeyIndex(a, k) == 0;
    forall j | j != k
      ensures Lookup(a, j) ==
        (if k !in Keys(s) && |s| == capacity && capacity > 0 && j == s[|s| - 1].0 then None
         else Lookup(s, j))
    {
      var rest := a[1..];
      assert a == [(k, v)] + rest;
      if k in Keys(s) {
        WithoutFacts(s, k);
        assert rest == Without(s, k);
      } else {
        AddAbsentFacts(s, capacity, k, v);
      }
      if j in Keys(a) {
        var w := Lookup(a, j).value;
        LookupIsMembership(a, j, w);
        var m :| 0 <= m < |a| && a[m] == (j, w);
        assert m > 0 && rest[m - 1] == (j, w);
        if k in Keys(s) {
          LookupIsMembership(rest, j, w);
        } else {
          assert s[m - 1] == (j, w);
          LookupIsMembership(s, j, w);
        }
      } else {
        AddKeys(s, capacity, k, v);
      }
    }
  }

  /**
   * With a capacity of zero or less, the eviction guard `Len() == capacity`
   * is met only by the empty queue, which has no back entry, so nothing is
   * ever evicted: distinct inserts all stay, most recent first.
   */
  lemma {:induction false} NonPositiveCapacityNeverEvicts<V>(capacity: int, rows: seq<Entry<V>>)
    requires capacity <= 0 && DistinctKeys(rows)
    ensures Folded([], capacity, rows) == Reverse(rows)
  {
    if rows != [] {
      var p := rows[..|rows| - 1];
      var last := rows[|rows| - 1];
      assert DistinctKeys(p);
      NonPositiveCapacityNeverEvicts(capacity, p);
      ReverseFacts(p);
      assert last.0 !in Keys(p);
    }
  }

  // ---------------------------------------------------------------------
  // Get

  /**
   * Get on a present key returns its current value and moves its entry to
   * the front; the size, the key set, the cached pairs and the relative
   * order of the other entries are unchanged. Get on an absent key returns
   * None and changes nothing.
   */
  lemma GetFacts<V>(s: seq<Entry<V>>, k: string)
    requires DistinctKeys(s)
    ensures Touched(s, k).0 == Lookup(s, k)
    ensures k !in Keys(s) ==> Touched(s, k).0 == None && Touched(s, k).1 == s
    ensures k in Keys(s) ==> var t := Touched(s, k).1;
      t[0].0 == k && |t| == |s| && Keys(t) == Keys(s) && DistinctKeys(t) &&
      multiset(t) == multiset(s) && Without(t, k) == Without(s, k)
  {
    if k in Keys(s) {
      var i := KeyIndex(s, k);
      var t := Touched(s, k).1;
      assert t == [s[i]] + Without(s, k);
      AddPresentFacts(s, 0, k, s[i].1);
      assert t == Added(s, 0, k, s[i].1);
      assert s == s[..i] + [s[i]] + s[i + 1..];
      assert multiset(t) == multiset(s);
    }
  }

  /** Giving the front entry a new value keeps the keys and their distinctness. */
  lemma ReplaceFront<V>(s: seq<Entry<V>>, v: V)
    requires DistinctKeys(s) && s != []
    ensures DistinctKeys([(s[0].0, v)] + s[1..])
    ensures Keys([(s[0].0, v)] + s[1..]) == Keys(s)
  {
    var r := [(s[0].0, v)] + s[1..];
    assert forall j :: 0 <= j < |s| ==> r[j].0 == s[j].0;
  }

  /** Add on a present key is Get's move to the front followed by storing the new value. */
  lemma AddPresentIsTouchThenStore<V>(s: seq<Entry<V>>, capacity: int, k: string, v: V)
    requires DistinctKeys(s) && k in Keys(s)
    ensures Added(s, capacity, k, v) == [(k, v)] + Touched(s, k).1[1..]
  {
    var i := KeyIndex(s, k);
    assert Touched(s, k).1 == [s[i]] + RemoveAt(s, i);
  }

  // ---------------------------------------------------------------------
  // Sequences of inserts

  lemma {:induction false} ReverseFacts<T>(s: seq<T>)
    ensures |Reverse(s)| == |s|
    ensures forall i :: 0 <= i < |s| ==> Reverse(s)[i] == s[|s| - 1 - i]
  {
    if s != [] {
      ReverseFacts(s[..|s| - 1]);
    }
  }

  lemma ReverseKeys<V>(s: seq<Entry<V>>)
    ensures Keys(Reverse(s)) == Keys(s)
    ensures forall x :: x in Reverse(s) <==> x in s
  {
    ReverseFacts(s);
    var r := Reverse(s);
    forall k | k in Keys(s) ensures k in Keys(r) {
      var m :| 0 <= m < |s| && s[m].0 == k;
      assert r[|s| - 1 - m].0 == k;
    }
    forall x | x in s ensures x in r {
      var m :| 0 <= m < |s| && s[m] == x;
      assert r[|s| - 1 - m] == x;
    }
  }

  lemma KeysOfTake<V>(n: nat, s: seq<Entry<V>>)
    ensures Keys(Take(n, s)) <= Keys(s)
  {
    forall k | k in Keys(Take(n, s)) ensures k in Keys(s) {
      var m :| 0 <= m < |Take(n, s)| && Take(n, s)[m].0 == k;
      assert s[m].0 == k;
    }
  }

  /** A new key inserted into a cache within capacity is a push onto the front, cut to the capacity. */
  lemma AddAbsentIsTake<V>(s: seq<Entry<V>>, capacity: nat, k: string, v: V)
    requires 1 <= capacity && |s| <= capacity && k !in Keys(s)
    ensures Added(s, capacity, k, v) == Take(capacity, [(k, v)] + s)
  {
  }

  lemma TakeTake<T>(n: nat, x: T, s: seq<T>)
    requires 1 <= n
    ensures Take(n, [x] + Take(n, s)) == Take(n, [x] + s)
  {
    if |s| > n {
      assert ([x] + s)[..n] == [x] + s[..n - 1];
    }
  }

  /**
   * A run of inserts of new keys yields the pending entries followed by the
   * old ones, most recent first, cut to the capacity.
   */
  lemma {:induction false} FoldedFresh<V>(s: seq<Entry<V>>, capacity: nat, rows: seq<Entry<V>>)
    requires 1 <= capacity && |s| <= capacity
    requires DistinctKeys(rows) && Keys(rows) !! Keys(s)
    ensures Folded(s, capacity, rows) == Take(capacity, Reverse(rows) + s)
  {
    if rows != [] {
      var p := rows[..|rows| - 1];
      var last := rows[|rows| - 1];
      assert DistinctKeys(p);
      assert Keys(p) <= Keys(rows);
      FoldedFresh(s, capacity, p);
      var before := Take(capacity, Reverse(p) + s);
      assert last.0 !in Keys(before) by {
        KeysOfTake(capacity, Reverse(p) + s);
        KeysOfConcat(Reverse(p), s);
        ReverseKeys(p);
        assert last.0 !in Keys(p);
        assert last.0 in Keys(rows);
      }
      AddAbsentIsTake(before, capacity, last.0, last.1);
      TakeTake(capacity, last, Reverse(p) + s);
      assert Reverse(rows) + s == [last] + (Reverse(p) + s);
    }
  }

  /**
   * Inserting distinct keys into an empty cache of capacity C leaves exactly
   * the C most recently inserted ones, most recent first: with C + k inserts
   * the first k are gone.
   */
  lemma KeepsMostRecent<V>(capacity: nat, rows: seq<Entry<V>>)
    requires 1 <= capacity && DistinctKeys(rows)
    ensures Folded([], capacity, rows) == Take(capacity, Reverse(rows))
    ensures |rows| > capacity ==> |Folded([], capacity, rows)| == capacity
  {
    assert Keys<V>([]) == {};
    FoldedFresh([], capacity, rows);
    assert Reverse(rows) + [] == Reverse(rows);
    ReverseFacts(rows);
  }
}
