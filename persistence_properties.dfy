/**
 * Properties of the persistence operations: evacuation writes a prefix of
 * the entries and keeps the table's primary key, an empty snapshot table
 * receives every entry once, most recently used first; a restore keeps the
 * entries added before a bad row, an evacuate-restore round trip brings
 * back exactly the evacuated pairs whatever order the store returns the
 * rows in, and a second restore adds nothing.
 */
module PersistenceProperties {
  import opened Wrappers
  import opened LruSpec
  import opened LruProperties
  import opened Persistence

  // ---------------------------------------------------------------------
  // Evacuate

  /** Once an insert has failed, later rows change nothing. */
  lemma {:induction false} SaveAllSticky<D>(existing: seq<(string, D)>, rows: seq<(string, D)>, m: nat)
    requires m <= |rows| && SaveAll(existing, rows[..m]).failed.Some?
    ensures SaveAll(existing, rows) == SaveAll(existing, rows[..m])
  {
    if m < |rows| {
      var p := rows[..|rows| - 1];
      assert p[..m] == rows[..m];
      SaveAllSticky(existing, p, m);
    } else {
      assert rows[..m] == rows;
    }
  }

  /** One more insert after a run of successful ones. */
  lemma SaveAllStep<D>(existing: seq<(string, D)>, rows: seq<(string, D)>, i: nat, stored: seq<(string, D)>)
    requires i < |rows| && SaveAll(existing, rows[..i]) == Saved(stored, None)
    ensures SaveAll(existing, rows[..i + 1]) ==
      if rows[i].0 in Keys(stored) then Saved(stored, Some(DuplicateId(rows[i].0)))
      else Saved(stored + [rows[i]], None)
  {
    assert rows[..i + 1][..i] == rows[..i];
  }

  /**
   * Evacuation writes a prefix of the rows: all of them without error, or
   * those before the first row whose id the table already holds, and the
   * error names that id. There is no rollback of the rows written.
   */
  lemma {:induction false} SaveAllWritesPrefix<D>(existing: seq<(string, D)>, rows: seq<(string, D)>)
    ensures var r := SaveAll(existing, rows);
      exists k :: 0 <= k <= |rows| && r.rows == existing + rows[..k] &&
        (r.failed.None? <==> k == |rows|) &&
        (k < |rows| ==> r.failed == Some(DuplicateId(rows[k].0)) && rows[k].0 in Keys(existing + rows[..k]))
  {
    if rows == [] {
      assert existing + rows[..0] == existing;
    } else {
      var p := rows[..|rows| - 1];
      var row := rows[|rows| - 1];
      SaveAllWritesPrefix(existing, p);
      var before := SaveAll(existing, p);
      var k0 :| 0 <= k0 <= |p| && before.rows == existing + p[..k0] &&
        (before.failed.None? <==> k0 == |p|) &&
        (k0 < |p| ==> before.failed == Some(DuplicateId(p[k0].0)) && p[k0].0 in Keys(existing + p[..k0]));
      assert p[..k0] == rows[..k0];
      if before.failed.Some? {
        assert p[k0] == rows[k0];
      } else if row.0 in Keys(before.rows) {
        assert rows[|rows| - 1] == row;
      } else {
        assert rows[..|rows|] == p + [row];
      }
    }
  }

  /** The primary key holds: a table without repeated ids never gets one. */
  lemma {:induction false} SaveAllKeepsPrimaryKey<D>(existing: seq<(string, D)>, rows: seq<(string, D)>)
    requires DistinctKeys(existing)
    ensures DistinctKeys(SaveAll(existing, rows).rows)
  {
    if rows != [] {
      var p := rows[..|rows| - 1];
      var row := rows[|rows| - 1];
      SaveAllKeepsPrimaryKey(existing, p);
      var before := SaveAll(existing, p);
      if before.failed.None? && row.0 !in Keys(before.rows) {
        ConsDistinct(row, []);
        SnocDistinct(before.rows, row);
      }
    }
  }

  /** A pair whose key is new can go at the back without repeating a key. */
  lemma SnocDistinct<V>(s: seq<Entry<V>>, x: Entry<V>)
    requires DistinctKeys(s) && x.0 !in Keys(s)
    ensures DistinctKeys(s + [x])
  {
    var t := s + [x];
    forall a, b | 0 <= a < b < |t| ensures t[a].0 != t[b].0 {
      assert t[a] == s[a];
      if b == |s| {
        assert s[a].0 in Keys(s);
      } else {
        assert t[b] == s[b];
      }
    }
  }

  /** Rows with new, distinct ids are all written, in order. */
  lemma {:induction false} SaveAllFresh<D>(existing: seq<(string, D)>, rows: seq<(string, D)>)
    requires DistinctKeys(rows) && Keys(rows) !! Keys(existing)
    ensures SaveAll(existing, rows) == Saved(existing + rows, None)
  {
    if rows != [] {
      var p := rows[..|rows| - 1];
      var row := rows[|rows| - 1];
      assert DistinctKeys(p);
      assert Keys(p) <= Keys(rows);
      SaveAllFresh(existing, p);
      KeysOfConcat(existing, p);
      assert row.0 in Keys(rows);
      assert row.0 !in Keys(p);
      assert existing + p + [row] == existing + rows;
    }
  }

  /** When every payload carries its own key as its id, each row's id is its entry's key. */
  lemma RowKeys<V, D>(s: seq<Entry<V>>, idOf: V -> string, encode: V -> D)
    requires forall i :: 0 <= i < |s| ==> idOf(s[i].1) == s[i].0
    ensures |Rows(s, idOf, encode)| == |s|
    ensures forall i :: 0 <= i < |s| ==> Rows(s, idOf, encode)[i] == (s[i].0, encode(s[i].1))
    ensures DistinctKeys(s) ==> DistinctKeys(Rows(s, idOf, encode))
  {
  }

  /**
   * Evacuating a non-empty cache into a store without a leftover snapshot
   * succeeds and writes every entry exactly once, most recently used first.
   * An empty cache leaves the store as it is.
   */
  lemma EvacuateSavesEveryEntry<V, D>(s: seq<Entry<V>>, idOf: V -> string, encode: V -> D, table: Table<D>)
    requires DistinctKeys(s)
    requires forall i :: 0 <= i < |s| ==> idOf(s[i].1) == s[i].0
    requires table == Missing || table == Present([])
    ensures s == [] ==> Evacuated(s, idOf, encode, table) == (table, None)
    ensures s != [] ==> Evacuated(s, idOf, encode, table) == (Present(Rows(s, idOf, encode)), None)
  {
    RowKeys(s, idOf, encode);
    assert Keys<D>([]) == {};
    SaveAllFresh([], Rows(s, idOf, encode));
    assert [] + Rows(s, idOf, encode) == Rows(s, idOf, encode);
  }

  // ---------------------------------------------------------------------
  // Restore

  /** Once a row has failed to deserialise, later rows change nothing. */
  lemma {:induction false} ReplaySticky<V, D>(s: seq<Entry<V>>, capacity: int, rows: seq<(string, D)>,
                                              decode: D -> Option<V>, m: nat)
    requires m <= |rows| && Replay(s, capacity, rows[..m], decode).failed.Some?
    ensures Replay(s, capacity, rows, decode) == Replay(s, capacity, rows[..m], decode)
  {
    if m < |rows| {
      var p := rows[..|rows| - 1];
      assert p[..m] == rows[..m];
      ReplaySticky(s, capacity, p, decode, m);
    } else {
      assert rows[..m] == rows;
    }
  }

  /** One more row after a run of successful ones. */
  lemma ReplayStep<V, D>(s: seq<Entry<V>>, capacity: int, rows: seq<(string, D)>, decode: D -> Option<V>,
                         i: nat, c: seq<Entry<V>>)
    requires i < |rows| && Replay(s, capacity, rows[..i], decode) == Replayed(c, None)
    ensures Replay(s, capacity, rows[..i + 1], decode) ==
      match decode(rows[i].1)
      case None => Replayed(c, Some(Undecodable(rows[i].0)))
      case Some(v) => Replayed(Added(c, capacity, rows[i].0, v), None)
  {
    assert rows[..i + 1][..i] == rows[..i];
  }

  lemma DecodedSnoc<V, D>(rows: seq<(string, D)>, decode: D -> Option<V>)
    requires rows != [] && AllDecode(rows, decode)
    ensures AllDecode(rows[..|rows| - 1], decode)
    ensures Decoded(rows, decode) ==
      Decoded(rows[..|rows| - 1], decode) + [(rows[|rows| - 1].0, decode(rows[|rows| - 1].1).value)]
  {
  }

  /** When every row deserialises, a restore is Add folded over the rows in the order read. */
  lemma {:induction false} ReplayAllDecoded<V, D>(s: seq<Entry<V>>, capacity: int, rows: seq<(string, D)>,
                                                  decode: D -> Option<V>)
    requires AllDecode(rows, decode)
    ensures Replay(s, capacity, rows, decode) == Replayed(Folded(s, capacity, Decoded(rows, decode)), None)
  {
    if rows != [] {
      var p := rows[..|rows| - 1];
      DecodedSnoc(rows, decode);
      ReplayAllDecoded(s, capacity, p, decode);
      var d := Decoded(rows, decode);
      assert d[..|d| - 1] == Decoded(p, decode);
    }
  }

  /**
   * A replay, complete or stopped, keeps the keys distinct and, for a
   * capacity of at least one, the number of entries within the capacity.
   */
  lemma {:induction false} ReplayKeepsInvariant<V, D>(s: seq<Entry<V>>, capacity: int, rows: seq<(string, D)>,
                                                      decode: D -> Option<V>)
    requires DistinctKeys(s) && (1 <= capacity ==> |s| <= capacity)
    ensures var c := Replay(s, capacity, rows, decode).contents;
      DistinctKeys(c) && (1 <= capacity ==> |c| <= capacity)
  {
    if rows != [] {
      var p := rows[..|rows| - 1];
      ReplayKeepsInvariant(s, capacity, p, decode);
      var before := Replay(s, capacity, p, decode);
      var row := rows[|rows| - 1];
      if before.failed.None? && decode(row.1).Some? {
        LruProperties.AddKeepsInvariant(before.contents, capacity, row.0, decode(row.1).value);
      }
    }
  }

  /**
   * A restore adds the rows before the first one that does not deserialise
   * and stops there with an error naming that row; the entries already
   * added stay (no rollback).
   */
  lemma ReplayStopsAtFirstBadRow<V, D>(s: seq<Entry<V>>, capacity: int, rows: seq<(string, D)>,
                                       decode: D -> Option<V>, k: nat)
    requires k < |rows| && AllDecode(rows[..k], decode) && decode(rows[k].1).None?
    ensures Replay(s, capacity, rows, decode) ==
      Replayed(Folded(s, capacity, Decoded(rows[..k], decode)), Some(Undecodable(rows[k].0)))
  {
    ReplayAllDecoded(s, capacity, rows[..k], decode);
    var q := rows[..k + 1];
    assert q[..k] == rows[..k] && q[k] == rows[k];
    ReplaySticky(s, capacity, rows, decode, k + 1);
  }

  /**
   * A restore whose rows before `i` were all added and whose row `i` does
   * not deserialise reports that row and leaves the table as it was.
   */
  lemma RestoreStopsAt<V, D>(s: seq<Entry<V>>, capacity: int, rows: seq<(string, D)>, decode: D -> Option<V>,
                             i: nat, c: seq<Entry<V>>)
    requires i < |rows| && Replay(s, capacity, rows[..i], decode) == Replayed(c, None)
    requires decode(rows[i].1).None?
    ensures Restored(s, capacity, Present(rows), decode) ==
      (Present(rows), Replayed(c, Some(Undecodable(rows[i].0))))
  {
    ReplayStep(s, capacity, rows, decode, i, c);
    ReplaySticky(s, capacity, rows, decode, i + 1);
  }

  /** A restore whose rows were all added truncates the table. */
  lemma RestoreCompletes<V, D>(s: seq<Entry<V>>, capacity: int, rows: seq<(string, D)>, decode: D -> Option<V>,
                               c: seq<Entry<V>>)
    requires Replay(s, capacity, rows, decode) == Replayed(c, None)
    ensures Restored(s, capacity, Present(rows), decode) == (Present([]), Replayed(c, None))
  {
  }

  /**
   * A successful restore truncates the table, so restoring again adds
   * nothing; a store without the table is left without it.
   */
  lemma SecondRestoreIsNoop<V, D>(s: seq<Entry<V>>, capacity: int, table: Table<D>, decode: D -> Option<V>)
    ensures var (after, r) := Restored(s, capacity, table, decode);
      r.failed.None? ==>
        (after == Missing || after == Present([])) &&
        Restored(r.contents, capacity, after, decode) == (after, Replayed(r.contents, None))
  {
  }

  // ---------------------------------------------------------------------
  // Round trip

  /**
   * Rows read back in any order, each entry's row once, deserialise into
   * exactly the evacuated pairs.
   */
  lemma DecodeReadBack<V, D>(s: seq<Entry<V>>, idOf: V -> string, encode: V -> D, decode: D -> Option<V>,
                             rows: seq<(string, D)>)
    requires forall i :: 0 <= i < |s| ==> idOf(s[i].1) == s[i].0
    requires forall i :: 0 <= i < |s| ==> decode(encode(s[i].1)) == Some(s[i].1)
    requires multiset(rows) == multiset(Rows(s, idOf, encode))
    ensures |rows| == |s| && AllDecode(rows, decode)
    ensures forall p :: p in Decoded(rows, decode) <==> p in s
  {
    var saved := Rows(s, idOf, encode);
    RowKeys(s, idOf, encode);
    assert |rows| == |saved| by {
      assert |multiset(rows)| == |rows| && |multiset(saved)| == |saved|;
    }
    // every row read back is the row of some entry
    forall i | 0 <= i < |rows|
      ensures exists j :: 0 <= j < |s| && rows[i] == (s[j].0, encode(s[j].1))
    {
      assert rows[i] in multiset(saved);
      var j :| 0 <= j < |saved| && saved[j] == rows[i];
    }
    assert AllDecode(rows, decode) by {
      forall i | 0 <= i < |rows| ensures decode(rows[i].1).Some? {
        var j :| 0 <= j < |s| && rows[i] == (s[j].0, encode(s[j].1));
      }
    }
    var d := Decoded(rows, decode);
    forall p ensures p in d <==> p in s {
      if p in d {
        var i :| 0 <= i < |d| && d[i] == p;
        var j :| 0 <= j < |s| && rows[i] == (s[j].0, encode(s[j].1));
        assert p == s[j];
      }
      if p in s {
        var j :| 0 <= j < |s| && s[j] == p;
        assert saved[j] in multiset(rows);
        var i :| 0 <= i < |rows| && rows[i] == saved[j];
        assert d[i] == p;
      }
    }
  }

  /**
   * Whatever order the store returns the evacuated rows in, restoring them
   * into an empty cache of the same capacity succeeds and brings back
   * exactly the evacuated (key, value) pairs, each once.
   */
  lemma RestoreBringsBackEntries<V, D>(s: seq<Entry<V>>, capacity: nat, idOf: V -> string,
                                       encode: V -> D, decode: D -> Option<V>, rows: seq<(string, D)>)
    requires 1 <= capacity && |s| <= capacity
    requires forall i :: 0 <= i < |s| ==> idOf(s[i].1) == s[i].0
    requires forall i :: 0 <= i < |s| ==> decode(encode(s[i].1)) == Some(s[i].1)
    requires multiset(rows) == multiset(Rows(s, idOf, encode)) && DistinctKeys(rows)
    ensures Replay([], capacity, rows, decode).failed == None
    ensures var r := Replay([], capacity, rows, decode).contents;
      |r| == |s| && DistinctKeys(r) && forall p :: p in r <==> p in s
  {
    DecodeReadBack(s, idOf, encode, decode, rows);
    ReplayAllDecoded([], capacity, rows, decode);
    var d := Decoded(rows, decode);
    assert DistinctKeys(d) by {
      forall a, b | 0 <= a < b < |d| ensures d[a].0 != d[b].0 {
        assert d[a].0 == rows[a].0 && d[b].0 == rows[b].0;
      }
    }
    KeepsMostRecent(capacity, d);
    ReverseFacts(d);
    ReverseKeys(d);
    var r := Reverse(d);
    assert Take(capacity, r) == r;
    assert DistinctKeys(r) by {
      forall a, b | 0 <= a < b < |r| ensures r[a].0 != r[b].0 {
        assert r[a] == d[|d| - 1 - a] && r[b] == d[|d| - 1 - b];
      }
    }
  }

  /**
   * The round trip of a shutdown and a restart: evacuating a cache into a
   * store without a leftover snapshot succeeds; restoring the rows, read in
   * any order, into a fresh cache of the same capacity brings back the same
   * pairs and truncates the table.
   */
  lemma EvacuateRestoreRoundTrip<V, D>(s: seq<Entry<V>>, capacity: nat, idOf: V -> string,
                                       encode: V -> D, decode: D -> Option<V>, table: Table<D>,
                                       rows: seq<(string, D)>)
    requires 1 <= capacity && |s| <= capacity && DistinctKeys(s) && s != []
    requires forall i :: 0 <= i < |s| ==> idOf(s[i].1) == s[i].0
    requires forall i :: 0 <= i < |s| ==> decode(encode(s[i].1)) == Some(s[i].1)
    requires table == Missing || table == Present([])
    requires multiset(rows) == multiset(Rows(s, idOf, encode)) && DistinctKeys(rows)
    ensures Evacuated(s, idOf, encode, table) == (Present(Rows(s, idOf, encode)), None)
    ensures var (after, r) := Restored([], capacity, Present(rows), decode);
      after == Present([]) && r.failed == None &&
      |r.contents| == |s| && forall p :: p in r.contents <==> p in s
  {
    EvacuateSavesEveryEntry(s, idOf, encode, table);
    RestoreBringsBackEntries(s, capacity, idOf, encode, decode, rows);
  }

  /**
   * If the store returns the rows in the order they were inserted, the
   * restored recency order is the reverse of the evacuated one: the entry
   * that was least recently used before the shutdown is the most recently
   * used after the restart.
   */
  lemma RestoreInInsertionOrderReverses<V, D>(s: seq<Entry<V>>, capacity: nat, idOf: V -> string,
                                              encode: V -> D, decode: D -> Option<V>)
    requires 1 <= capacity && |s| <= capacity && DistinctKeys(s)
    requires forall i :: 0 <= i < |s| ==> idOf(s[i].1) == s[i].0
    requires forall i :: 0 <= i < |s| ==> decode(encode(s[i].1)) == Some(s[i].1)
    ensures Replay([], capacity, Rows(s, idOf, encode), decode) == Replayed(Reverse(s), None)
  {
    var saved := Rows(s, idOf, encode);
    RowKeys(s, idOf, encode);
    assert AllDecode(saved, decode);
    assert Decoded(saved, decode) == s;
    ReplayAllDecoded([], capacity, saved, decode);
    KeepsMostRecent(capacity, s);
    ReverseFacts(s);
  }
}
