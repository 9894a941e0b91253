/**
 * Concrete runs of the cache, each stating its observable outcome: the
 * eviction order, a read refreshing recency, a cache without a positive
 * capacity, and a shutdown-restart round trip through the snapshot table.
 */
module Scenarios {
  import opened Wrappers
  import opened LruSpec
  import opened Persistence
  import Cache
  import LruProperties
  import PersistenceProperties

  /** A stand-in for an order: its identifier and one field of payload. */
  datatype Order = Order(uid: string, amount: int)

  /** With capacity 2, adding a third key evicts the first one added. */
  lemma EvictsLeastRecentlyAdded()
    ensures var s := Added(Added(Added([], 2, "a", 1), 2, "b", 2), 2, "c", 3);
      s == [("c", 3), ("b", 2)] && Lookup(s, "a") == None
  {
    Fresh([], 2, "a", 1);
    Fresh([("a", 1)], 2, "b", 2);
    Fresh([("b", 2), ("a", 1)], 2, "c", 3);
    Unknown([("c", 3), ("b", 2)], "a");
  }

  /** Reading a key makes it the most recently used, so the other key is evicted instead. */
  lemma ReadRefreshesRecency()
    ensures var (first, s) := Touched(Added(Added([], 2, "a", 1), 2, "b", 2), "a");
      first == Some(1) && Added(s, 2, "c", 3) == [("c", 3), ("a", 1)] &&
      Lookup(Added(s, 2, "c", 3), "b") == None
  {
    var s1: seq<Entry<int>> := [("a", 1)];
    Fresh([], 2, "a", 1);
    assert Added([], 2, "a", 1) == s1;
    var s2: seq<Entry<int>> := [("b", 2), ("a", 1)];
    Fresh(s1, 2, "b", 2);
    assert Added(s1, 2, "b", 2) == s2;
    var s3: seq<Entry<int>> := [("a", 1), ("b", 2)];
    HitAt(s2, 1);
    assert s2[1] == ("a", 1) && RemoveAt(s2, 1) == [("b", 2)];
    assert [s2[1]] + RemoveAt(s2, 1) == s3;
    assert Touched(s2, "a") == (Some(1), s3);
    var s4: seq<Entry<int>> := [("c", 3), ("a", 1)];
    Fresh(s3, 2, "c", 3);
    assert Evicted(s3, 2) == [("a", 1)];
    assert Added(s3, 2, "c", 3) == s4;
    Unknown(s4, "b");
  }

  /**
   * The same run on an LRUCache object, followed by the three reads: b has
   * been evicted, a and c are still cached.
   */
  method ReadRefreshesRecencyOnCache() returns (a: Option<int>, b: Option<int>, c: Option<int>)
    ensures b == None && a == Some(1) && c == Some(3)
  {
    var cache := AddReadAdd();
    b, a, c := ReadBack(cache);
  }

  /** Add a and b, read a, add c, on a new cache of capacity 2. */
  method AddReadAdd() returns (cache: Cache.LRUCache<int>)
    ensures fresh(cache) && cache.Valid() && cache.Contents == [("c", 3), ("a", 1)]
  {
    cache := new Cache.LRUCache<int>.New(2);
    var ok := cache.Add("a", 1);
    ok := cache.Add("b", 2);
    var first := cache.Get("a");
    ok := cache.Add("c", 3);
    ReadRefreshesRecency();
  }

  /** Read b, a and c from a cache holding c then a. */
  method ReadBack(cache: Cache.LRUCache<int>) returns (b: Option<int>, a: Option<int>, c: Option<int>)
    requires cache.Valid() && cache.Contents == [("c", 3), ("a", 1)]
    modifies cache
    ensures b == None && a == Some(1) && c == Some(3)
  {
    var s: seq<Entry<int>> := [("c", 3), ("a", 1)];
    assert s[0].0 == "c" && s[1].0 == "a" && "c" != "b" && "a" != "b" && "c" != "a";
    Unknown(s, "b");
    b := cache.Get("b");
    var t: seq<Entry<int>> := [("a", 1), ("c", 3)];
    HitAt(s, 1);
    assert [s[1]] + RemoveAt(s, 1) == t;
    a := cache.Get("a");
    HitAt(t, 1);
    assert t[1] == ("c", 3);
    c := cache.Get("c");
  }

  /** On an LRUCache object: a removed key can be added again, and then reads back its new value. */
  method RemoveThenAddOnCache() returns (r: Option<int>)
    ensures r == Some(5)
  {
    var cache := new Cache.LRUCache<int>.New(2);
    var ok := cache.Add("a", 1);
    var one: seq<Entry<int>> := [("a", 1)];
    Fresh([], 2, "a", 1);
    assert cache.Contents == one;
    RemovedAt(one, 0);
    assert one[0].0 == "a" && RemoveAt(one, 0) == [];
    ok := cache.Remove("a");
    assert cache.Contents == [];
    Fresh([], 2, "a", 5);
    ok := cache.Add("a", 5);
    var s: seq<Entry<int>> := [("a", 5)];
    assert cache.Contents == s;
    HitAt(s, 0);
    r := cache.Get("a");
  }

  /** Updating a present key replaces its value and refreshes it, without evicting anything. */
  lemma UpdateKeepsOthers()
    ensures Added(Added(Added([], 2, "a", 1), 2, "b", 2), 2, "a", 10) == [("a", 10), ("b", 2)]
  {
    Fresh([], 2, "a", 1);
    Fresh([("a", 1)], 2, "b", 2);
    UpdateAt([("b", 2), ("a", 1)], 2, 1, 10);
  }

  /** Removing a key drops only that key; removing an absent key changes nothing. */
  lemma RemoveDropsOneKey()
    ensures var s := Without(Added(Added([], 2, "a", 1), 2, "b", 2), "a");
      s == [("b", 2)] && Without(s, "z") == s
  {
    var s1: seq<Entry<int>> := [("a", 1)];
    Fresh([], 2, "a", 1);
    assert Added([], 2, "a", 1) == s1;
    var s2: seq<Entry<int>> := [("b", 2), ("a", 1)];
    Fresh(s1, 2, "b", 2);
    assert Added(s1, 2, "b", 2) == s2;
    RemovedAt(s2, 1);
    assert RemoveAt(s2, 1) == [("b", 2)];
    Absent([("b", 2)], "z");
  }

  /** A cache of capacity 0 never evicts: it holds every key added. */
  lemma ZeroCapacityGrows()
    ensures Added(Added(Added([], 0, "a", 1), 0, "b", 2), 0, "c", 3) == [("c", 3), ("b", 2), ("a", 1)]
  {
    Fresh([], 0, "a", 1);
    Fresh([("a", 1)], 0, "b", 2);
    Fresh([("b", 2), ("a", 1)], 0, "c", 3);
  }

  function OrderId(o: Order): string { o.uid }
  function Encode(o: Order): Order { o }
  function Decode(d: Order): Option<Order> { Some(d) }

  /**
   * Shutdown and restart with capacity 3: two orders are evacuated into a store without
   * the table, the rows read back in insertion order are restored into an
   * empty cache with the recency order reversed, the table is truncated,
   * and a second restore adds nothing.
   */
  lemma ShutdownAndRestart()
    ensures var s := [("y", Order("y", 2)), ("x", Order("x", 1))];
      Evacuated(s, OrderId, Encode, Missing) == (Present(s), None)
    ensures var rows := [("y", Order("y", 2)), ("x", Order("x", 1))];
      var back := [("x", Order("x", 1)), ("y", Order("y", 2))];
      Restored([], 3, Present(rows), Decode) == (Present([]), Replayed(back, None))
    ensures var back := [("x", Order("x", 1)), ("y", Order("y", 2))];
      Restored(back, 3, Present([]), Decode) == (Present([]), Replayed(back, None))
  {
    var s := [("y", Order("y", 2)), ("x", Order("x", 1))];
    assert DistinctKeys(s);
    PersistenceProperties.RowKeys(s, OrderId, Encode);
    assert Rows(s, OrderId, Encode) == s;
    PersistenceProperties.EvacuateSavesEveryEntry(s, OrderId, Encode, Missing);
    PersistenceProperties.RestoreInInsertionOrderReverses(s, 3, OrderId, Encode, Decode);
    LruProperties.ReverseFacts(s);
    assert Reverse(s) == [s[1], s[0]];
  }

  // ---------------------------------------------------------------------
  // Steps of the runs above, one operation at a time

  /** Adding a key the entries do not hold. */
  lemma Fresh<V>(s: seq<Entry<V>>, capacity: int, k: string, v: V)
    requires DistinctKeys(s) && forall i :: 0 <= i < |s| ==> s[i].0 != k
    ensures Added(s, capacity, k, v) == [(k, v)] + Evicted(s, capacity)
    ensures DistinctKeys(Added(s, capacity, k, v))
  {
    LruProperties.AddAbsentFacts(s, capacity, k, v);
  }

  /** Reading a key the entries do not hold. */
  lemma Unknown<V>(s: seq<Entry<V>>, k: string)
    requires DistinctKeys(s) && forall i :: 0 <= i < |s| ==> s[i].0 != k
    ensures Lookup(s, k) == None && Touched(s, k) == (None, s)
  {
    LruProperties.GetFacts(s, k);
  }

  /** Reading the key of the entry at `i`: its value, and that entry moved to the front. */
  lemma HitAt<V>(s: seq<Entry<V>>, i: nat)
    requires DistinctKeys(s) && i < |s|
    ensures Touched(s, s[i].0) == (Some(s[i].1), [s[i]] + RemoveAt(s, i))
    ensures DistinctKeys([s[i]] + RemoveAt(s, i))
  {
    LruProperties.KeyIndexOf(s, i);
    LruProperties.AddPresentFacts(s, 0, s[i].0, s[i].1);
    assert Touched(s, s[i].0).1 == Added(s, 0, s[i].0, s[i].1);
  }

  /** Adding a new value under the key of the entry at `i`. */
  lemma UpdateAt<V>(s: seq<Entry<V>>, capacity: int, i: nat, v: V)
    requires DistinctKeys(s) && i < |s|
    ensures Added(s, capacity, s[i].0, v) == [(s[i].0, v)] + RemoveAt(s, i)
    ensures DistinctKeys(Added(s, capacity, s[i].0, v))
  {
    LruProperties.KeyIndexOf(s, i);
    LruProperties.AddPresentFacts(s, capacity, s[i].0, v);
  }

  /** Removing the key of the entry at `i`. */
  lemma RemovedAt<V>(s: seq<Entry<V>>, i: nat)
    requires DistinctKeys(s) && i < |s|
    ensures Without(s, s[i].0) == RemoveAt(s, i)
    ensures DistinctKeys(RemoveAt(s, i))
  {
    LruProperties.KeyIndexOf(s, i);
    LruProperties.WithoutFacts(s, s[i].0);
  }

  /** Removing a key the entries do not hold. */
  lemma Absent<V>(s: seq<Entry<V>>, k: string)
    requires DistinctKeys(s) && forall i :: 0 <= i < |s| ==> s[i].0 != k
    ensures Without(s, k) == s
  {
    LruProperties.WithoutFacts(s, k);
  }
}
