/**
 * The PostgreSQL access store (dash_access/clients/postgres.py). It stores
 * the same tables as the SQLite store, but reads rows back as tuples in the
 * column order of its CREATE statements, names them positionally by
 * `table_fields`, and reports a missing key as an empty list.
 */
module Postgres {
  import opened Base
  import Sqlite3

  /** `get_table`: the same four known names and the same guard as the SQLite store. */
  function GetTable(table: string): (r: Result<Option<string>>)
    ensures r.Err? <==> table == ""
    ensures r.Ok? && r.value.Some? <==>
      table in {"users", RelationshipsTable, AdminEventsTable, AccessEventsTable}
    ensures r.Ok? && r.value.Some? ==> r.value.value == table
  {
    if table == "" then Err(ValueError)
    else if table in {"users", RelationshipsTable, AdminEventsTable, AccessEventsTable} then Ok(Some(table))
    else Ok(None)
  }

  /** `_encode`: dictionaries and lists are packed. */
  function Encode(x: Value): Value
  {
    if x.Dict? || x.List? then Dumps(x) else x
  }

  /** `_decode`: a `bytea` cell (a memoryview) is unpacked. */
  function Decode(x: Value): Value
  {
    if x.Packed? then x.payload else x
  }

  /** Both stores write and read cells alike. */
  lemma CodecAgreesWithSqlite(x: Value)
    ensures Encode(x) == Sqlite3.Encode(x) && Decode(x) == Sqlite3.Decode(x)
    ensures Decode(Encode(x)) == x <==> !x.Packed?
  {
    Sqlite3.DecodeEncode(x);
  }

  function EncodeRow(val: Row): Row
  {
    map k | k in val :: Encode(val[k])
  }

  function DecodeRow(row: Row): Row
  {
    map k | k in row :: Decode(row[k])
  }

  /** The column order of the CREATE statements of `tables()`; there is no `users` or `groups` table. */
  function Columns(table: string): seq<string>
  {
    if table == AccessEventsTable then ["user_id", "permission", "ts", "status"]
    else if table == AdminEventsTable then ["ts", "table_name", "operation", "vals", "where_val"]
    else if table == RelationshipsTable then
      ["id", "principal", "principal_type", "granted", "granted_type", "ts"]
    else []
  }

  /** The three CREATE statements list their columns in the order `table_fields` names them. */
  lemma ColumnsMatchTableFields(table: string)
    ensures table in {AccessEventsTable, AdminEventsTable, RelationshipsTable} ==>
      Columns(table) == TableFieldNames(table)
  {
  }

  function Cell(row: Row, col: string): Value
  {
    if col in row then row[col] else Null
  }

  /** A Python dict built from `zip(names, cells)`: it stops at the shorter list, and a later name wins. */
  function Zip(names: seq<string>, cells: seq<Value>): Row
  {
    if names == [] || cells == [] then map[]
    else map[names[0] := cells[0]] + Zip(names[1..], cells[1..])
  }

  lemma {:induction false} ZipLookup(names: seq<string>, cells: seq<Value>)
    requires Distinct(names) && |names| == |cells|
    ensures Zip(names, cells).Keys == set k | k in names
    ensures forall i | 0 <= i < |names| :: Zip(names, cells)[names[i]] == cells[i]
  {
    if names != [] {
      DistinctTail(names);
      ZipLookup(names[1..], cells[1..]);
      var t := Zip(names[1..], cells[1..]);
      assert Zip(names, cells) == map[names[0] := cells[0]] + t;
      forall i | 1 <= i < |names|
        ensures Zip(names, cells)[names[i]] == cells[i]
      {
        assert names[i] == names[1..][i - 1] && names[i] != names[0];
      }
      assert forall k :: k in names <==> k == names[0] || k in names[1..];
    }
  }

  lemma DistinctTail<T>(s: seq<T>)
    requires s != [] && Distinct(s)
    ensures Distinct(s[1..])
  {
    forall i, j | 0 <= i < j < |s[1..]| ensures s[1..][i] != s[1..][j] {
      assert s[1..][i] == s[i + 1] && s[1..][j] == s[j + 1];
    }
  }

  /** One fetched tuple named by `table_fields` and decoded, as `_get_all` builds it. */
  function Positional(row: Row, table: string): Row
  {
    var cols := Columns(table);
    Zip(TableFieldNames(table), seq(|cols|, i requires 0 <= i < |cols| => Decode(Cell(row, cols[i]))))
  }

  /**
   * What `_get` returns for `key`: an empty list when no row has that id,
   * otherwise the first such row, decoded, with every field of the table.
   */
  function Fetch(db: Db, key: string, table: string): (r: Fetched)
    ensures !r.NoneValue?
    ensures r.EmptyList? <==> !AnyId(Rows(db, table), Str(key))
    ensures r.Found? ==> TableFields(table).Keys <= r.row.Keys
    ensures r.Found? ==> exists i | 0 <= i < |Rows(db, table)| ::
      HasId(Rows(db, table)[i], Str(key)) && r.row == Fill(DecodeRow(Rows(db, table)[i]), table)
  {
    var rows := Rows(db, table);
    match FirstWithId(rows, Str(key))
    case None => EmptyList
    case Some(i) => Found(Fill(DecodeRow(rows[i]), table))
  }

  /** What `_get_all` returns: the selected rows in table order, named positionally and decoded. */
  function FetchAll(db: Db, table: string, where: Option<Where>): (r: seq<Row>)
    ensures |r| == |Selected(Rows(db, table), where)|
  {
    var sel := Selected(Rows(db, table), where);
    seq(|sel|, i requires 0 <= i < |sel| => Fill(Positional(sel[i], table), table))
  }

  lemma DecodeRowAgrees(row: Row)
    ensures DecodeRow(row) == Sqlite3.DecodeRow(row)
  {
    assert DecodeRow(row).Keys == Sqlite3.DecodeRow(row).Keys;
  }

  /**
   * Whatever `_get` returns, the SQLite store and this one find the same
   * record for the same key; they differ only in how they report a miss
   * (None there, an empty list here), and both of those are falsy.
   */
  lemma GetAgreesWithSqlite(db: Db, key: string, table: string)
    ensures Fetch(db, key, table).Found? <==> Sqlite3.Fetch(db, key, table).Found?
    ensures Fetch(db, key, table).Found? ==> Fetch(db, key, table) == Sqlite3.Fetch(db, key, table)
    ensures Fetch(db, key, table).EmptyList? <==> Sqlite3.Fetch(db, key, table).NoneValue?
  {
    var rows := Rows(db, table);
    var first := FirstWithId(rows, Str(key));
    if first.Some? {
      DecodeRowAgrees(rows[first.value]);
    }
  }

  lemma FieldNamesDistinct(table: string)
    ensures Distinct(TableFieldNames(table))
  {
  }

  /** Naming the cells of a row positionally by distinct names reads each named column. */
  lemma ZipByName(names: seq<string>, row: Row)
    requires Distinct(names)
    ensures Zip(names, seq(|names|, j requires 0 <= j < |names| => Decode(Cell(row, names[j]))))
         == map k | k in names :: Decode(Cell(row, k))
  {
    var cells := seq(|names|, j requires 0 <= j < |names| => Decode(Cell(row, names[j])));
    ZipLookup(names, cells);
    var p := Zip(names, cells);
    forall k | k in p
      ensures p[k] == Decode(Cell(row, k))
    {
      var j :| 0 <= j < |names| && names[j] == k;
      assert p[k] == cells[j];
    }
  }

  lemma FillByName(names: seq<string>, fields: map<string, Value>, row: Row)
    requires fields.Keys == set k | k in names
    requires forall k | k in fields :: fields[k] == Null
    requires row.Keys <= fields.Keys
    ensures fields + (map k | k in names :: Decode(Cell(row, k))) == fields + Sqlite3.DecodeRow(row)
  {
    var p := fields + (map k | k in names :: Decode(Cell(row, k)));
    var q := fields + Sqlite3.DecodeRow(row);
    assert p.Keys == q.Keys;
    forall k | k in p
      ensures p[k] == q[k]
    {
      if k in row {
        assert q[k] == Sqlite3.Decode(row[k]);
      }
    }
  }

  /** One row of one of the three created tables reads the same by position as by name. */
  lemma PositionalAgrees(row: Row, table: string)
    requires table in {AccessEventsTable, AdminEventsTable, RelationshipsTable}
    requires row.Keys <= TableFields(table).Keys
    ensures Fill(Positional(row, table), table) == Fill(Sqlite3.DecodeRow(row), table)
  {
    var names := TableFieldNames(table);
    FieldNamesDistinct(table);
    ColumnsMatchTableFields(table);
    ZipByName(names, row);
    FillByName(names, TableFields(table), row);
  }

  /**
   * For the three tables it creates, reading rows by position gives the same
   * records as the SQLite store's reading by column name, as long as each
   * row holds only that table's columns.
   */
  lemma GetAllAgreesWithSqlite(db: Db, table: string, where: Option<Where>)
    requires table in {AccessEventsTable, AdminEventsTable, RelationshipsTable}
    requires forall r | r in Rows(db, table) :: r.Keys <= TableFields(table).Keys
    ensures FetchAll(db, table, where) == Sqlite3.FetchAll(db, table, where)
  {
    var sel := Selected(Rows(db, table), where);
    forall i | 0 <= i < |sel|
      ensures Fill(Positional(sel[i], table), table) == Fill(Sqlite3.DecodeRow(sel[i]), table)
    {
      assert sel[i] in Rows(db, table);
      PositionalAgrees(sel[i], table);
    }
  }

  class PostgresAccessStore {
    var tables: Db

    constructor ()
      ensures tables == map[]
    {
      tables := map[];
    }

    /** `_get`: the first row with id `key`, decoded and filled; an empty list when there is none. */
    method Get(key: string, table: string) returns (r: Fetched)
      ensures r == Fetch(tables, key, table)
    {
      var rows := Rows(tables, table);
      var first := FirstWithId(rows, Str(key));
      if first.None? {
        return EmptyList;
      }
      var out := FillDefaults(DecodeRow(rows[first.value]), table);
      return Found(out);
    }

    /** `_get_all`: every row satisfying the `where` list (all rows without one), named by position. */
    method GetAll(table: string, where: Option<Where>) returns (r: seq<Row>)
      ensures r == FetchAll(tables, table, where)
    {
      var rows := Rows(tables, table);
      var val: seq<Row>;
      if where.Some? && where.value != [] {
        val := Select(rows, where.value);
      } else {
        val := rows;
      }
      if val == [] {
        return [];
      }
      r := [];
      var i := 0;
      while i < |val|
        invariant 0 <= i <= |val|
        invariant |r| == i
        invariant forall j | 0 <= j < i :: r[j] == Fill(Positional(val[j], table), table)
      {
        var o := FillDefaults(Positional(val[i], table), table);
        r := r + [o];
        i := i + 1;
      }
    }

    /** The `admin_log` wrapper: one audit row for the wrapped mutation, whose own result it passes on. */
    method AdminLog(now: string, operation: string, values: Value, where: Value, out: bool)
      returns (result: bool)
      modifies this
      ensures tables == Append(old(tables), AdminEventsTable, AdminRow(now, operation, values, where))
      ensures result == out
    {
      tables := Append(tables, AdminEventsTable, AdminRow(now, operation, values, where));
      result := out;
    }

    /** `_set`: update the rows with the record's id when `key` exists, else insert; log the record. */
    method Set(key: string, table: string, val: Row, now: string) returns (r: Result<bool>)
      modifies this
      ensures var after := SetDb(old(tables), key, table, EncodeRow(val), now);
        && (after.None? ==> r == Err(KeyError) && tables == old(tables))
        && (after.Some? ==> r == Ok(true) && tables == after.value)
    {
      var out := EncodeRow(val);
      var rows := Rows(tables, table);
      var found := FirstWithId(rows, Str(key));
      if found.Some? {
        if "id" !in out {
          return Err(KeyError);
        }
        rows := UpdateById(rows, out);
      } else {
        rows := rows + [out];
      }
      tables := tables[table := rows];
      var ok := AdminLog(now, "set", Dict(out), Null, true);
      r := Ok(ok);
    }

    /**
     * `_delete`, as evidently intended: remove the rows the `where` list (or
     * `id = key`) selects; log it. As written, a non-empty `where` gets one
     * placeholder more than it binds, which `Base.DeleteAsWrittenDb` models.
     */
    method Delete(key: Value, table: string, where: Option<Where>, now: string) returns (ok: bool)
      modifies this
      ensures ok
      ensures tables == DeleteDb(old(tables), key, table, where, now)
    {
      var rows := Reject(Rows(tables, table), DeleteCond(key, where));
      tables := tables[table := rows];
      ok := AdminLog(now, "delete", key, WhereValue(where), true);
    }

    /** `_insert`: append one encoded row to a logging table; no audit row. */
    method Insert(table: string, fields: Row) returns (ok: bool)
      modifies this
      ensures ok
      ensures tables == InsertDb(old(tables), table, EncodeRow(fields))
    {
      tables := tables[table := Rows(tables, table) + [EncodeRow(fields)]];
      ok := true;
    }
  }
}
