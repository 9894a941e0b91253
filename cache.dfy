/**
 * The fixed-capacity least-recently-used cache. Its state is a recency
 * queue of list elements (front = most recently used) and an index from
 * key to element; the ghost field Contents is the abstract view, the
 * sequence of (key, value) pairs from front to back, on which module
 * LruSpec specifies every operation.
 */
module Cache {
  import opened Wrappers
  import opened LruSpec
  import LruProperties
  import ElementList
  import opened Persistence
  import PersistenceProperties

  /** What a list element carries: the key and the value cached under it. */
  class Item<V> {
    const Key: string
    var Value: V

    constructor (key: string, value: V)
      ensures Key == key && Value == value
    {
      Key := key;
      Value := value;
    }
  }

  class LRUCache<V> {
    const capacity: int
    var queue: seq<Item<V>>
    var items: map<string, Item<V>>
    ghost var Contents: seq<Entry<V>>

    /** The queue's elements carry the pairs of `s`, in order. */
    ghost predicate Carries(q: seq<Item<V>>, s: seq<Entry<V>>)
      reads q
    {
      |q| == |s| && forall i :: 0 <= i < |q| ==> q[i].Key == s[i].0 && q[i].Value == s[i].1
    }

    /**
     * The index and the queue agree: the queue's elements carry the pairs
     * of `s` in order, no key occurs twice, the index holds exactly the
     * queued keys, and each key maps to the element carrying it.
     */
    ghost predicate Agree(q: seq<Item<V>>, index: map<string, Item<V>>, s: seq<Entry<V>>)
      reads q
    {
      Carries(q, s) &&
      DistinctKeys(s) &&
      index.Keys == Keys(s) &&
      (forall x :: x in q ==> x.Key in index && index[x.Key] == x)
    }

    /**
     * The representation invariant: index and queue agree on the entries
     * Contents lists, and a positive capacity bounds their number.
     */
    ghost predicate Valid()
      reads this, queue
    {
      Agree(queue, items, Contents) &&
      (capacity >= 1 ==> |Contents| <= capacity)
    }

    /** The element the index holds for `key` sits in the queue at the key's position. */
    lemma IndexedElement(q: seq<Item<V>>, index: map<string, Item<V>>, s: seq<Entry<V>>, key: string)
      requires Agree(q, index, s) && key in index
      ensures key in Keys(s)
      ensures index[key] in q && ElementList.IndexOf(q, index[key]) == KeyIndex(s, key)
    {
      var i := KeyIndex(s, key);
      assert q[i].Key == key;
      var j := ElementList.IndexOf(q, index[key]);
      LruProperties.KeyIndexOf(s, j);
    }

    /** Moving the element at `i` to the front of the queue moves its pair to the front of the view. */
    lemma MoveToFrontCarries(q: seq<Item<V>>, s: seq<Entry<V>>, i: nat)
      requires Carries(q, s) && i < |q| && ElementList.IndexOf(q, q[i]) == i
      ensures Carries(ElementList.MoveToFront(q, q[i]), [s[i]] + RemoveAt(s, i))
    {
      var r := ElementList.MoveToFront(q, q[i]);
      var t := [s[i]] + RemoveAt(s, i);
      forall m | 0 <= m < |r| ensures r[m].Key == t[m].0 && r[m].Value == t[m].1 {
        if m == 0 {
        } else if m <= i {
          assert r[m] == q[m - 1] && t[m] == s[m - 1];
        } else {
          assert r[m] == q[m] && t[m] == s[m];
        }
      }
    }

    /** MoveToFront on the indexed element of a key is Get's move of its pair to the front. */
    lemma MoveToFrontAgrees(q: seq<Item<V>>, index: map<string, Item<V>>, s: seq<Entry<V>>, elem: Item<V>)
      requires Agree(q, index, s) && elem.Key in index && index[elem.Key] == elem
      ensures elem in q
      ensures var t := Touched(s, elem.Key);
        Agree(ElementList.MoveToFront(q, elem), index, t.1) && |t.1| == |s| && t.0 == Some(elem.Value)
    {
      IndexedElement(q, index, s, elem.Key);
      var i := KeyIndex(s, elem.Key);
      assert q[i] == elem;
      MoveToFrontCarries(q, s, i);
      LruProperties.AddPresentFacts(s, 0, elem.Key, s[i].1);
      assert Touched(s, elem.Key).1 == Added(s, 0, elem.Key, s[i].1);
    }

    /** Only the front element carries the front key. */
    lemma OnlyFrontCarriesItsKey(r: seq<Item<V>>, t: seq<Entry<V>>)
      requires Carries(r, t) && DistinctKeys(t) && |t| > 0
      ensures forall j :: 1 <= j < |r| ==> r[j].Key != t[0].0
    {
      forall j | 1 <= j < |r| ensures r[j].Key != t[0].0 {
        assert r[j].Key == t[j].0;
      }
    }

    /** Pushing a fresh element for an absent key onto the front indexes it and puts its pair first. */
    lemma PushFrontAgrees(q: seq<Item<V>>, index: map<string, Item<V>>, s: seq<Entry<V>>, item: Item<V>)
      requires Agree(q, index, s) && item.Key !in index && item !in q
      ensures Agree(ElementList.PushFront(q, item), index[item.Key := item], [(item.Key, item.Value)] + s)
    {
      LruProperties.ConsDistinct((item.Key, item.Value), s);
    }

    /** Unlinking the element at `i` drops the pair at `i` from the view. */
    lemma RemoveCarries(q: seq<Item<V>>, s: seq<Entry<V>>, i: nat)
      requires Carries(q, s) && i < |q| && ElementList.IndexOf(q, q[i]) == i
      ensures Carries(ElementList.Remove(q, q[i]), RemoveAt(s, i))
    {
      var r := ElementList.Remove(q, q[i]);
      var w := RemoveAt(s, i);
      forall m | 0 <= m < |r| ensures r[m].Key == w[m].0 && r[m].Value == w[m].1 {
        if m < i {
          assert r[m] == q[m];
        } else {
          assert r[m] == q[m + 1];
        }
      }
    }

    /** Unlinking an element and dropping its key deletes exactly its pair. */
    lemma RemoveAgrees(q: seq<Item<V>>, index: map<string, Item<V>>, s: seq<Entry<V>>, elem: Item<V>)
      requires Agree(q, index, s) && elem in q
      ensures elem.Key in Keys(s)
      ensures Agree(ElementList.Remove(q, elem), index - {elem.Key}, Without(s, elem.Key))
    {
      var i := ElementList.IndexOf(q, elem);
      LruProperties.KeyIndexOf(s, i);
      LruProperties.WithoutFacts(s, elem.Key);
      RemoveCarries(q, s, i);
      var r := ElementList.Remove(q, elem);
      forall x | x in r ensures x.Key in index - {elem.Key} && (index - {elem.Key})[x.Key] == x {
        assert x in q && x != elem;
      }
    }

    /** New: an empty cache of the given capacity. */
    constructor New(cap: int)
      ensures Valid() && capacity == cap && Contents == []
    {
      capacity := cap;
      queue := [];
      items := map[];
      Contents := [];
    }

    /**
     * Add inserts or updates `key`: a present key gets the new value and
     * moves to the front; a new key first evicts the back entry when the
     * queue is at capacity, then goes to the front. It always returns true.
     */
    method Add(key: string, value: V) returns (ok: bool)
      requires Valid()
      modifies this, queue
      ensures Valid() && ok
      ensures Contents == Added(old(Contents), capacity, key, value)
      ensures forall x :: x in queue ==> x in old(queue) || fresh(x)
    {
      if key in items {
        var item := items[key];
        IndexedElement(queue, items, Contents, key);
        LruProperties.AddPresentIsTouchThenStore(Contents, capacity, key, value);
        MoveToFront(item);
        SetFrontValue(item, value);
        return true;
      }

      ghost var kept := Evicted(Contents, capacity);
      assert Added(Contents, capacity, key, value) == [(key, value)] + kept;
      if |queue| == capacity {
        Clear();
      }
      assert Contents == kept;
      assert key !in items;
      var item := new Item(key, value);
      PushFrontAgrees(queue, items, Contents, item);
      queue := ElementList.PushFront(queue, item);
      items := items[item.Key := item];
      Contents := [(key, value)] + Contents;
      assert Agree(queue, items, Contents);
      return true;
    }

    /**
     * Store a new value in the front element, as Add does after moving a
     * present key's element to the front: the front pair gets the value,
     * all other pairs stay.
     */
    method SetFrontValue(item: Item<V>, value: V)
      requires Valid() && queue != [] && queue[0] == item
      modifies this, item
      ensures Valid()
      ensures Contents == [(old(Contents)[0].0, value)] + old(Contents)[1..]
      ensures queue == old(queue)
    {
      ghost var t := Contents;
      OnlyFrontCarriesItsKey(queue, t);
      LruProperties.ReplaceFront(t, value);
      label Before:
      item.Value := value;
      Contents := [(t[0].0, value)] + t[1..];
      forall j | 0 <= j < |queue|
        ensures queue[j].Key == Contents[j].0 && queue[j].Value == Contents[j].1
      {
        if j > 0 {
          assert queue[j].Value == old@Before(queue[j].Value) && Contents[j] == t[j];
        }
      }
    }

    /**
     * Get returns the value cached under `key` and moves its entry to the
     * front; on a miss it returns None and changes nothing.
     */
    method Get(key: string) returns (r: Option<V>)
      requires Valid()
      modifies this
      ensures Valid()
      ensures (r, Contents) == Touched(old(Contents), key)
      ensures forall x :: x in queue ==> x in old(queue)
    {
      if key !in items {
        return None;
      }
      var element := items[key];
      MoveToFront(element);
      return Some(element.Value);
    }

    /**
     * The list's MoveToFront on an indexed element: its pair moves to the
     * front of the view, the index is unchanged, and the element's value is
     * the one Get reports.
     */
    method MoveToFront(elem: Item<V>)
      requires Valid() && elem.Key in items && items[elem.Key] == elem
      modifies this
      ensures Valid()
      ensures Contents == Touched(old(Contents), elem.Key).1
      ensures Touched(old(Contents), elem.Key).0 == Some(elem.Value)
      ensures queue != [] && queue[0] == elem
      ensures forall x :: x in queue ==> x in old(queue)
    {
      ghost var s := Contents;
      var q := queue;
      IndexedElement(q, items, s, elem.Key);
      queue := ElementList.MoveToFront(q, elem);
      Contents := Touched(s, elem.Key).1;
      MoveToFrontAgrees(q, items, s, elem);
    }

    /** Remove deletes `key` from the index and the queue when present; it always returns true. */
    method Remove(key: string) returns (ok: bool)
      requires Valid()
      modifies this
      ensures Valid() && ok
      ensures Contents == Without(old(Contents), key)
      ensures forall x :: x in queue ==> x in old(queue)
    {
      if key in items {
        IndexedElement(queue, items, Contents, key);
        DeleteItem(items[key]);
      }
      return true;
    }

    /** Len is the size of the index, which is the number of entries. */
    method Len() returns (n: int)
      requires Valid()
      ensures n == |Contents|
    {
      LruProperties.KeysCardinality(Contents);
      n := |items|;
    }

    /** clear: evict the back (least recently used) entry, if there is one. */
    method Clear()
      requires Valid()
      modifies this
      ensures Valid()
      ensures Contents == if old(Contents) == [] then [] else old(Contents)[..|old(Contents)| - 1]
      ensures forall x :: x in queue ==> x in old(queue)
    {
      var back := ElementList.Back(queue);
      if back.Some? {
        LruProperties.KeyIndexOf(Contents, |Contents| - 1);
        DeleteItem(back.value);
      }
    }

    /** deleteItem: unlink `elem` from the queue and drop its key from the index. */
    method DeleteItem(elem: Item<V>)
      requires Valid() && elem in queue
      modifies this
      ensures Valid()
      ensures Contents == Without(old(Contents), elem.Key)
      ensures forall x :: x in queue ==> x in old(queue)
    {
      RemoveAgrees(queue, items, Contents, elem);
      queue := ElementList.Remove(queue, elem);
      items := items - {elem.Key};
      Contents := Without(Contents, elem.Key);
    }

    /**
     * EvacuateToDB saves the entries front to back as (payload id, encoded
     * payload) rows: an empty cache touches nothing; otherwise the table is
     * created if missing, and the first insert that breaks the primary key
     * stops the loop with DuplicateId, leaving the rows written before it.
     * The cache itself is not changed.
     */
    method EvacuateToDB<D>(idOf: V -> string, encode: V -> D, table: Table<D>)
      returns (after: Table<D>, err: Option<EvacuateError>)
      requires Valid()
      ensures (after, err) == Evacuated(Contents, idOf, encode, table)
    {
      var n := Len();
      if n == 0 {
        return table, None;
      }
      var existing := if table.Present? then table.rows else [];
      ghost var rows := Rows(Contents, idOf, encode);
      var stored := existing;
      var i := 0;
      while i < |queue|
        invariant 0 <= i <= |queue| == |rows|
        invariant SaveAll(existing, rows[..i]) == Saved(stored, None)
      {
        var order := queue[i].Value;
        var row := (idOf(order), encode(order));
        assert rows[i] == row;
        PersistenceProperties.SaveAllStep(existing, rows, i, stored);
        if row.0 in Keys(stored) {
          PersistenceProperties.SaveAllSticky(existing, rows, i + 1);
          return Present(stored), Some(DuplicateId(row.0));
        }
        stored := stored + [row];
        i := i + 1;
      }
      assert rows[..i] == rows;
      return Present(stored), None;
    }

    /**
     * RestoreFromDB replays the table's rows through Add, in the order the
     * table's sequence lists them (taken as the order the store returns
     * them), keyed by each row's id: a missing table changes nothing; a row
     * that does not deserialise stops the replay with Undecodable, keeping
     * the entries added so far and the table; after a complete replay the
     * table is truncated.
     */
    method RestoreFromDB<D>(decode: D -> Option<V>, table: Table<D>)
      returns (after: Table<D>, err: Option<RestoreError>)
      requires Valid()
      modifies this, queue
      ensures Valid()
      ensures forall x :: x in queue ==> x in old(queue) || fresh(x)
      ensures (after, Replayed(Contents, err)) == Restored(old(Contents), capacity, table, decode)
    {
      if table.Missing? {
        return table, None;
      }
      ghost var start := Contents;
      var rows := table.rows;
      var i := 0;
      while i < |rows|
        invariant 0 <= i <= |rows|
        invariant Valid()
        invariant Replay(start, capacity, rows[..i], decode) == Replayed(Contents, None)
        invariant forall x :: x in queue ==> x in old(queue) || fresh(x)
      {
        var id := rows[i].0;
        var order := decode(rows[i].1);
        if order.None? {
          PersistenceProperties.RestoreStopsAt(start, capacity, rows, decode, i, Contents);
          return table, Some(Undecodable(id));
        }
        PersistenceProperties.ReplayStep(start, capacity, rows, decode, i, Contents);
        var ok := Add(id, order.value);
        i := i + 1;
      }
      assert rows[..i] == rows;
      PersistenceProperties.RestoreCompletes(start, capacity, rows, decode, Contents);
      return Present([]), None;
    }
  }
}
