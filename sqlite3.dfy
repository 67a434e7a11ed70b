/**
 * The SQLite access store (dash_access/clients/sqlite3.py): a store whose
 * tables live in one SQLite database, with dictionaries and lists packed by
 * msgpack and every mutation recorded in the admin-events table.
 */
module Sqlite3 {
  import opened Base

  /**
   * `get_table`: each of the four known logical names maps to its configured
   * table name (the default is the logical name itself). The guard tests the
   * requested name, not the lookup, so only an empty name raises; any other
   * unknown name comes back as None.
   */
  function GetTable(table: string): (r: Result<Option<string>>)
    ensures r.Err? <==> table == ""
    ensures r.Err? ==> r.error == ValueError
    ensures r.Ok? && r.value.Some? ==> r.value.value == table
    ensures r.Ok? && r.value.None? <==>
      table != "" && table !in {"users", RelationshipsTable, AdminEventsTable, AccessEventsTable}
  {
    if table == "" then Err(ValueError)
    else if table in {"users", RelationshipsTable, AdminEventsTable, AccessEventsTable} then Ok(Some(table))
    else Ok(None)
  }

  /** The audit rows name the admin-events table itself. */
  lemma AdminLogTableName()
    ensures GetTable(AdminEventsTable) == Ok(Some(AdminEventsTable))
    ensures GetTable(GroupsTable) == Ok(None)
  {
  }

  /** `_encode`: dictionaries and lists are packed, everything else is stored as it is. */
  function Encode(x: Value): Value
  {
    if x.Dict? || x.List? then Dumps(x) else x
  }

  /** `_decode`: byte strings are unpacked, everything else is read as it is. */
  function Decode(x: Value): Value
  {
    if x.Packed? then x.payload else x
  }

  /**
   * A value reads back as it was written exactly when it is not already a
   * byte string: a stored byte string is unpacked on the way out.
   */
  lemma DecodeEncode(x: Value)
    ensures Decode(Encode(x)) == x <==> !x.Packed?
  {
    if x.Packed? {
      assert x.payload < x;
    }
  }

  function EncodeRow(val: Row): Row
  {
    map k | k in val :: Encode(val[k])
  }

  function DecodeRow(row: Row): Row
  {
    map k | k in row :: Decode(row[k])
  }

  /** Records without byte strings survive the write and the read unchanged. */
  lemma DecodeEncodeRow(val: Row)
    requires forall k | k in val :: !val[k].Packed?
    ensures DecodeRow(EncodeRow(val)) == val
  {
    forall k | k in val
      ensures DecodeRow(EncodeRow(val))[k] == val[k]
    {
      DecodeEncode(val[k]);
    }
  }

  /**
   * What `_get` returns for `key`: None when no row has that id, otherwise
   * the first such row, decoded, with every field of the table present.
   */
  function Fetch(db: Db, key: string, table: string): (r: Fetched)
    ensures !r.EmptyList?
    ensures r.NoneValue? <==> !AnyId(Rows(db, table), Str(key))
    ensures r.Found? ==> TableFields(table).Keys <= r.row.Keys
    ensures r.Found? ==> exists i | 0 <= i < |Rows(db, table)| ::
      HasId(Rows(db, table)[i], Str(key)) && r.row == Fill(DecodeRow(Rows(db, table)[i]), table)
  {
    var rows := Rows(db, table);
    match FirstWithId(rows, Str(key))
    case None => NoneValue
    case Some(i) => Found(Fill(DecodeRow(rows[i]), table))
  }

  /** What `_get_all` returns: the selected rows in table order, decoded and filled. */
  function FetchAll(db: Db, table: string, where: Option<Where>): (r: seq<Row>)
    ensures |r| == |Selected(Rows(db, table), where)|
  {
    var sel := Selected(Rows(db, table), where);
    seq(|sel|, i requires 0 <= i < |sel| => Fill(DecodeRow(sel[i]), table))
  }

  /**
   * `_get_all` returns one record for each row that satisfies every
   * condition of the `where` list, and nothing else.
   */
  lemma FetchAllReturnsMatches(db: Db, table: string, where: Where, x: Row)
    ensures x in FetchAll(db, table, Some(where)) <==>
      exists r :: r in Rows(db, table) && MatchesAll(r, where) && x == Fill(DecodeRow(r), table)
  {
    var rows := Rows(db, table);
    if where == [] {
      SelectNoConditions(rows);
    }
    assert Selected(rows, Some(where)) == Select(rows, where);
    FetchAllIndexed(db, table, Some(where), x);
  }

  /** A record is fetched exactly when some selected row reads back as it. */
  lemma FetchAllIndexed(db: Db, table: string, where: Option<Where>, x: Row)
    ensures var sel := Selected(Rows(db, table), where);
      x in FetchAll(db, table, where) <==> exists r | r in sel :: x == Fill(DecodeRow(r), table)
  {
    var sel := Selected(Rows(db, table), where);
    var all := FetchAll(db, table, where);
    if x in all {
      var i :| 0 <= i < |all| && all[i] == x;
      assert sel[i] in sel;
    }
    if exists r | r in sel :: x == Fill(DecodeRow(r), table) {
      var r :| r in sel && x == Fill(DecodeRow(r), table);
      var i :| 0 <= i < |sel| && sel[i] == r;
      assert all[i] == x;
    }
  }

  /** The `where` list `_get_all` reads with: no list and the empty list both mean every row. */
  lemma FetchAllWithoutConditions(db: Db, table: string)
    ensures FetchAll(db, table, None) == FetchAll(db, table, Some([]))
    ensures |FetchAll(db, table, None)| == |Rows(db, table)|
  {
  }

  class Sqlite3AccessStore {
    var tables: Db

    constructor ()
      ensures tables == map[]
    {
      tables := map[];
    }

    /** `_get`: the first row with id `key`, decoded and filled; None when there is none. */
    method Get(key: string, table: string) returns (r: Fetched)
      ensures r == Fetch(tables, key, table)
    {
      var rows := Rows(tables, table);
      var first := FirstWithId(rows, Str(key));
      if first.None? {
        return NoneValue;
      }
      var out := FillDefaults(DecodeRow(rows[first.value]), table);
      return Found(out);
    }

    /** `_get_all`: every row satisfying the `where` list (all rows without one), decoded and filled. */
    method GetAll(table: string, where: Option<Where>) returns (r: seq<Row>)
      ensures r == FetchAll(tables, table, where)
    {
      var rows := Rows(tables, table);
      var val: seq<Row>;
      if where.Some? && where.value != [] {
        val := Select(rows, where.value);
      } else {
        val := rows;
      }
      if val == [] {
        return [];
      }
      r := [];
      var i := 0;
      while i < |val|
        invariant 0 <= i <= |val|
        invariant |r| == i
        invariant forall j | 0 <= j < i :: r[j] == Fill(DecodeRow(val[j]), table)
      {
        var o := FillDefaults(DecodeRow(val[i]), table);
        r := r + [o];
        i := i + 1;
      }
    }

    /** The `admin_log` wrapper: one audit row for the wrapped mutation, whose own result it passes on. */
    method AdminLog(now: string, operation: string, values: Value, where: Value, out: bool)
      returns (result: bool)
      modifies this
      ensures tables == Append(old(tables), AdminEventsTable, AdminRow(now, operation, values, where))
      ensures result == out
    {
      tables := Append(tables, AdminEventsTable, AdminRow(now, operation, values, where));
      result := out;
    }

    /**
     * `_set`: encode the record, then update the rows with its id when a row
     * with id `key` exists, or insert it; log the encoded record. When a row
     * exists but the record has no "id", nothing changes (KeyError).
     */
    method Set(key: string, table: string, val: Row, now: string) returns (r: Result<bool>)
      modifies this
      ensures var after := SetDb(old(tables), key, table, EncodeRow(val), now);
        && (after.None? ==> r == Err(KeyError) && tables == old(tables))
        && (after.Some? ==> r == Ok(true) && tables == after.value)
    {
      var out := EncodeRow(val);
      var rows := Rows(tables, table);
      var found := FirstWithId(rows, Str(key));
      if found.Some? {
        if "id" !in out {
          return Err(KeyError);
        }
        rows := UpdateById(rows, out);
      } else {
        rows := rows + [out];
      }
      tables := tables[table := rows];
      var ok := AdminLog(now, "set", Dict(out), Null, true);
      r := Ok(ok);
    }

    /**
     * `_delete`, as evidently intended: remove the rows satisfying the
     * `where` list, or the rows with id `key` without one; log the key and
     * the list. As written, a non-empty `where` gets one placeholder more
     * than it binds, which `Base.DeleteAsWrittenDb` models.
     */
    method Delete(key: Value, table: string, where: Option<Where>, now: string) returns (ok: bool)
      modifies this
      ensures ok
      ensures tables == DeleteDb(old(tables), key, table, where, now)
    {
      var rows := Reject(Rows(tables, table), DeleteCond(key, where));
      tables := tables[table := rows];
      ok := AdminLog(now, "delete", key, WhereValue(where), true);
    }

    /** `_insert`: append one encoded row to a logging table; no audit row. */
    method Insert(table: string, fields: Row) returns (ok: bool)
      modifies this
      ensures ok
      ensures tables == InsertDb(old(tables), table, EncodeRow(fields))
    {
      tables := tables[table := Rows(tables, table) + [EncodeRow(fields)]];
      ok := true;
    }
  }
}
