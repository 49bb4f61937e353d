/**
 * The services table and the meaning of the single SQL statements the
 * repository issues against it. Each statement runs atomically: it either
 * takes effect as a whole or, when the store fails, not at all.
 */
module Store {
  import opened Errors

  /** One row of the services table (created_at is not modelled). */
  datatype Record = Record(id: int, title: string, description: string, version: int)

  /** The table, keyed by the primary key. */
  type Table = map<int, Record>

  /** Every row is stored under its own id. */
  ghost predicate Keyed(t: Table) {
    forall k :: k in t ==> t[k].id == k
  }

  /**
   * The table together with its id sequence: ids are positive and below the
   * next value the sequence hands out, and every version is at least 1.
   */
  ghost predicate WellFormed(t: Table, nextId: int) {
    && 1 <= nextId
    && forall k :: k in t ==> 1 <= k < nextId && t[k].id == k && 1 <= t[k].version
  }

  /** The table, the sequence and the `RETURNING id, version` values after an INSERT. */
  datatype Inserted = Inserted(table: Table, nextId: int, id: int, version: int)

  /**
   * The insert statement: it stores a new row with the given title and
   * description and returns the row's id and version. The store draws the
   * id from its sequence and the version from the column default, 1.
   */
  function InsertRow(t: Table, nextId: int, title: string, description: string): (w: Inserted)
    requires WellFormed(t, nextId)
    ensures WellFormed(w.table, w.nextId)
    ensures 1 <= w.id && w.id !in t && w.version == 1
    ensures w.table == t[w.id := Record(w.id, title, description, 1)]
  {
    Inserted(t[nextId := Record(nextId, title, description, 1)], nextId + 1, nextId, 1)
  }

  /** The table after an UPDATE, and the `RETURNING version` value (None: no row matched). */
  datatype Updated = Updated(table: Table, returned: Option<int>)

  /**
   * The conditional update keyed on id and version: when the row with that
   * id still has that version, it sets title and description, adds 1 to the
   * version and returns the new version; otherwise it matches no row. It is
   * one compare-and-swap on the version column.
   */
  function UpdateRow(t: Table, id: int, version: int, title: string, description: string): (w: Updated)
    requires Keyed(t)
    ensures w.returned.Some? <==> id in t && t[id].version == version
    ensures w.returned.Some? ==>
      && w.returned.value == version + 1
      && w.table == t[id := Record(id, title, description, version + 1)]
    ensures w.returned.None? ==> w.table == t
  {
    if id in t && t[id].version == version then
      Updated(t[id := t[id].(title := title, description := description, version := t[id].version + 1)],
              Some(t[id].version + 1))
    else
      Updated(t, None)
  }

  /** The table after a DELETE, and the number of rows it affected. */
  datatype Deleted = Deleted(table: Table, affected: nat)

  /** The delete statement: removes the row with the given id, if there is one. */
  function DeleteRow(t: Table, id: int): (w: Deleted)
    ensures w.affected <= 1
    ensures w.affected == 1 <==> id in t
    ensures w.table.Keys == t.Keys - {id}
    ensures forall k :: k in w.table ==> w.table[k] == t[k]
  {
    Deleted(t - {id}, if id in t then 1 else 0)
  }

  /** An UPDATE keeps the table and its id sequence well formed. */
  lemma UpdateRowKeepsWellFormed(t: Table, nextId: int, id: int, version: int, title: string, description: string)
    requires WellFormed(t, nextId)
    ensures WellFormed(UpdateRow(t, id, version, title, description).table, nextId)
  {
  }

  /**
   * The version is the concurrency token: of two updates that both carry the
   * version they read, only the first takes effect; the second matches no
   * row, changes nothing, and the first one's values stay in the table.
   */
  lemma {:induction false} NoLostUpdate(t: Table, id: int, title1: string, description1: string,
                                        title2: string, description2: string)
    requires Keyed(t) && id in t
    ensures var first := UpdateRow(t, id, t[id].version, title1, description1);
            var second := UpdateRow(first.table, id, t[id].version, title2, description2);
            && first.returned == Some(t[id].version + 1)
            && second.returned.None?
            && second.table == first.table
            && second.table[id] == Record(id, title1, description1, t[id].version + 1)
  {
    var first := UpdateRow(t, id, t[id].version, title1, description1);
    assert first.table[id].version == t[id].version + 1;
  }
}
