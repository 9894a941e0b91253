/**
 * The cache-facing logic of the two persistence operations, on an abstract
 * snapshot table. EvacuateToDB saves the entries front to back as
 * (id, data) rows; RestoreFromDB replays the rows through Add and then
 * truncates the table. The store's SQL round trips are not modelled: the
 * table is a value, its primary key on `id` the only store rule kept, and
 * payload (de)serialisation is a pair of functions given by the caller.
 */
module Persistence {
  import opened Wrappers
  import opened LruSpec
  import opened LruProperties

  /**
   * The `cache` table of the store: absent, or present with its (id, data)
   * rows. The sequence is the order the rows were inserted in, and a restore
   * reads them back in that same order; the store itself does not promise
   * that order, so the round-trip lemmas take the rows read back as any
   * permutation of the rows saved.
   */
  datatype Table<D> = Missing | Present(rows: seq<(string, D)>)

  /** Why an evacuation stopped: an insert broke the primary key on `id`. */
  datatype EvacuateError = DuplicateId(id: string)

  /** Why a restore stopped: the row's data did not deserialise into a payload. */
  datatype RestoreError = Undecodable(id: string)

  /** The row an entry is saved as: the payload's own identifier and its serialised form. */
  function RowOf<V, D>(e: Entry<V>, idOf: V -> string, encode: V -> D): (string, D)
  {
    (idOf(e.1), encode(e.1))
  }

  /** The rows for the entries, in queue order (most recently used first). */
  function Rows<V, D>(s: seq<Entry<V>>, idOf: V -> string, encode: V -> D): seq<(string, D)>
  {
    seq(|s|, i requires 0 <= i < |s| => RowOf(s[i], idOf, encode))
  }

  /** The table's rows after a run of inserts, and the first insert that failed, if one did. */
  datatype Saved<D> = Saved(rows: seq<(string, D)>, failed: Option<EvacuateError>)

  /**
   * Inserting `rows` one after the other into a table holding `existing`:
   * an insert whose id is already there fails, and nothing after it is
   * attempted; rows inserted before the failure stay.
   */
  function SaveAll<D>(existing: seq<(string, D)>, rows: seq<(string, D)>): Saved<D>
  {
    if rows == [] then Saved(existing, None)
    else
      var before := SaveAll(existing, rows[..|rows| - 1]);
      var row := rows[|rows| - 1];
      if before.failed.Some? then before
      else if row.0 in Keys(before.rows) then Saved(before.rows, Some(DuplicateId(row.0)))
      else Saved(before.rows + [row], None)
  }

  /**
   * EvacuateToDB's effect: nothing at all for an empty cache; otherwise the
   * table is created if missing and the entries' rows are inserted front to
   * back.
   */
  function Evacuated<V, D>(s: seq<Entry<V>>, idOf: V -> string, encode: V -> D, table: Table<D>)
    : (Table<D>, Option<EvacuateError>)
  {
    if s == [] then (table, None)
    else
      var r := SaveAll(if table.Present? then table.rows else [], Rows(s, idOf, encode));
      (Present(r.rows), r.failed)
  }

  /** The cache entries after replaying rows, and the row that stopped the replay, if one did. */
  datatype Replayed<V> = Replayed(contents: seq<Entry<V>>, failed: Option<RestoreError>)

  /**
   * Replaying `rows` in order into a cache holding `s`: each row is
   * deserialised and added; the first row that does not deserialise stops
   * the replay, and the entries added before it stay.
   */
  function Replay<V, D>(s: seq<Entry<V>>, capacity: int, rows: seq<(string, D)>, decode: D -> Option<V>)
    : Replayed<V>
  {
    if rows == [] then Replayed(s, None)
    else
      var before := Replay(s, capacity, rows[..|rows| - 1], decode);
      var row := rows[|rows| - 1];
      if before.failed.Some? then before
      else match decode(row.1)
        case None => Replayed(before.contents, Some(Undecodable(row.0)))
        case Some(v) => Replayed(Added(before.contents, capacity, row.0, v), None)
  }

  /**
   * RestoreFromDB's effect: a missing table leaves everything as it is;
   * otherwise the rows are replayed, and the table is truncated when the
   * replay completed.
   */
  function Restored<V, D>(s: seq<Entry<V>>, capacity: int, table: Table<D>, decode: D -> Option<V>)
    : (Table<D>, Replayed<V>)
  {
    match table
    case Missing => (Missing, Replayed(s, None))
    case Present(rows) =>
      var r := Replay(s, capacity, rows, decode);
      (if r.failed.None? then Present([]) else table, r)
  }

  /** All rows deserialise. */
  ghost predicate AllDecode<V, D>(rows: seq<(string, D)>, decode: D -> Option<V>)
  {
    forall i :: 0 <= i < |rows| ==> decode(rows[i].1).Some?
  }

  /** The entries the rows deserialise to. */
  function Decoded<V, D>(rows: seq<(string, D)>, decode: D -> Option<V>): seq<Entry<V>>
    requires AllDecode(rows, decode)
  {
    seq(|rows|, i requires 0 <= i < |rows| && AllDecode(rows, decode) => (rows[i].0, decode(rows[i].1).value))
  }
}
