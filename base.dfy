/**
 * The store contract of dash_access/clients/base.py and the table semantics
 * that both SQL adapters (sqlite3.py, postgres.py) implement behind it.
 *
 * A table is a sequence of rows; a row maps column names to values, and a
 * column that a row does not hold reads as NULL. Every table of a store is
 * addressed by its logical name ("relationships", "groups", ...).
 */
module Base {

  datatype Option<T> = None | Some(value: T)

  /**
   * The exceptions the modelled code raises. `BindingError` is the database
   * driver refusing a statement whose placeholders outnumber its bound values
   * (`sqlite3.ProgrammingError`, and psycopg2's error for a short tuple).
   */
  datatype Error = ValueError | TypeError | KeyError | AttributeError | BindingError

  datatype Result<T> = Ok(value: T) | Err(error: Error)

  /**
   * A column value. `Packed(v)` stands for the byte string that msgpack
   * produces for `v`: being a constructor it is injective, which is all the
   * model needs to know about the encoder.
   */
  datatype Value =
    | Null
    | Str(s: string)
    | Bool(b: bool)
    | Int(i: int)
    | List(items: seq<Value>)
    | Dict(entries: map<string, Value>)
    | Packed(payload: Value)

  type Row = map<string, Value>

  /** Every table of a store, by logical table name. */
  type Db = map<string, seq<Row>>

  /** One `{"col": ..., "val": ...}` entry of a `where` list. */
  datatype Cond = Cond(col: string, val: Value)

  /** A `where` list: the conjunction of its equalities. */
  type Where = seq<Cond>

  /** What a `get` hands back: Python's None, an empty list, or a record. */
  datatype Fetched = NoneValue | EmptyList | Found(row: Row)

  const RelationshipsTable := "relationships"
  const AccessEventsTable := "access_events"
  const AdminEventsTable := "admin_events"
  const GroupsTable := "groups"

  function Rows(db: Db, table: string): seq<Row>
  {
    if table in db then db[table] else []
  }

  /** No element of the sequence occurs twice. */
  predicate Distinct<T(==)>(s: seq<T>)
  {
    forall i, j | 0 <= i < j < |s| :: s[i] != s[j]
  }

  /** The field names of `table_fields`, in the order its dictionaries list them. */
  function TableFieldNames(table: string): seq<string>
  {
    if table == RelationshipsTable then
      ["id", "principal", "principal_type", "granted", "granted_type", "ts"]
    else if table == AccessEventsTable then
      ["user_id", "permission", "ts", "status"]
    else if table == AdminEventsTable then
      ["ts", "table_name", "operation", "vals", "where_val"]
    else
      []
  }

  /** `BaseAccessStore.table_fields`: the fixed field set of a table, each defaulting to None. */
  function TableFields(table: string): (fields: map<string, Value>)
    ensures forall k | k in fields :: fields[k] == Null
    ensures fields.Keys == set k | k in TableFieldNames(table)
  {
    map k | k in TableFieldNames(table) :: Null
  }

  /** The field sets `table_fields` lists for the three logged tables, and none for any other. */
  lemma TableFieldsKeys(table: string)
    ensures table == RelationshipsTable ==>
      TableFields(table).Keys == {"id", "principal", "principal_type", "granted", "granted_type", "ts"}
    ensures table == AccessEventsTable ==>
      TableFields(table).Keys == {"user_id", "permission", "ts", "status"}
    ensures table == AdminEventsTable ==>
      TableFields(table).Keys == {"ts", "table_name", "operation", "vals", "where_val"}
    ensures table !in {RelationshipsTable, AccessEventsTable, AdminEventsTable} ==> TableFields(table) == map[]
  {
  }

  /** The default `encode` and `decode` of `BaseAccessStore`: values pass through. */
  function Encode(v: Value): Value
  {
    v
  }

  function Decode(v: Value): Value
  {
    v
  }

  lemma DecodeEncode(v: Value)
    ensures Decode(Encode(v)) == v
  {
  }

  /** `msgpack.dumps`. */
  function Dumps(v: Value): Value
  {
    Packed(v)
  }

  // ---------------------------------------------------------------------
  // AND-only equality filters
  // ---------------------------------------------------------------------

  /** SQL's `col = ?`: a NULL on either side never compares equal. */
  predicate Holds(row: Row, c: Cond)
  {
    c.val != Null && c.col in row && row[c.col] == c.val
  }

  predicate MatchesAll(row: Row, where: Where)
  {
    forall c | c in where :: Holds(row, c)
  }

  /** The rows a `select ... where c1 and c2 ...` returns, in table order. */
  function Select(rows: seq<Row>, where: Where): (r: seq<Row>)
    ensures |r| <= |rows|
    ensures forall x :: x in r <==> x in rows && MatchesAll(x, where)
  {
    if rows == [] then []
    else (if MatchesAll(rows[0], where) then [rows[0]] else []) + Select(rows[1..], where)
  }

  /** The rows a `delete ... where c1 and c2 ...` leaves behind. */
  function Reject(rows: seq<Row>, where: Where): (r: seq<Row>)
    ensures |r| <= |rows|
    ensures forall x :: x in r <==> x in rows && !MatchesAll(x, where)
  {
    if rows == [] then []
    else (if MatchesAll(rows[0], where) then [] else [rows[0]]) + Reject(rows[1..], where)
  }

  /** A delete removes exactly the rows the same select returns. */
  lemma {:induction false} SelectRejectPartition(rows: seq<Row>, where: Where)
    ensures multiset(Select(rows, where)) + multiset(Reject(rows, where)) == multiset(rows)
  {
    if rows != [] {
      var s, t := Select(rows[1..], where), Reject(rows[1..], where);
      SelectRejectPartition(rows[1..], where);
      assert rows == [rows[0]] + rows[1..];
      if MatchesAll(rows[0], where) {
        assert Select(rows, where) == [rows[0]] + s;
        assert Reject(rows, where) == t;
      } else {
        assert Select(rows, where) == s;
        assert Reject(rows, where) == [rows[0]] + t;
      }
    }
  }

  /** An empty `where` list constrains nothing. */
  lemma {:induction false} SelectNoConditions(rows: seq<Row>)
    ensures Select(rows, []) == rows
  {
    if rows != [] {
      SelectNoConditions(rows[1..]);
    }
  }

  /** The rows `_get_all` reads: filtered when `where` is a non-empty list, all of them otherwise. */
  function Selected(rows: seq<Row>, where: Option<Where>): seq<Row>
  {
    if where.Some? && where.value != [] then Select(rows, where.value) else rows
  }

  /**
   * The conditions of the statement `_delete` builds for a non-empty `where`
   * list as written: the first entry, then every entry again. It carries one
   * more placeholder than the values it binds.
   */
  function DeleteCondAsWritten(where: Where): Where
    requires where != []
  {
    [where[0]] + where
  }

  /** The parameters `_delete` binds for a `where` list: one value per entry. */
  function DeleteInputs(where: Where): seq<Value>
  {
    seq(|where|, i requires 0 <= i < |where| => where[i].val)
  }

  /**
   * `_delete` as written: the statement's conditions and its bound values go
   * to the driver, which executes it only when each placeholder has a value.
   * On a refusal the exception leaves `_delete` before the commit and before
   * `admin_log` writes its row, so the store is left as it was.
   */
  function DeleteAsWrittenDb(db: Db, key: Value, table: string, where: Option<Where>, now: string): Result<Db>
  {
    var whereGiven := where.Some? && where.value != [];
    var conds := if whereGiven then DeleteCondAsWritten(where.value) else IdCond(key);
    var inputs := if whereGiven then DeleteInputs(where.value) else [key];
    if |conds| != |inputs| then Err(BindingError)
    else Ok(Append(db[table := Reject(Rows(db, table), conds)],
                   AdminEventsTable, AdminRow(now, "delete", key, WhereValue(where))))
  }

  /**
   * Every `where` delete binds one value too few, so the driver rejects the
   * statement and no row is touched; only the delete by key goes through, and
   * it has the effect of the intended delete.
   */
  lemma DeleteWhereBindingMismatch(db: Db, key: Value, table: string, where: Option<Where>, now: string)
    ensures where.Some? && where.value != [] ==>
      |DeleteCondAsWritten(where.value)| == |DeleteInputs(where.value)| + 1
    ensures DeleteAsWrittenDb(db, key, table, where, now) == Err(BindingError) <==> where.Some? && where.value != []
    ensures DeleteAsWrittenDb(db, key, table, where, now).Ok? ==>
      DeleteAsWrittenDb(db, key, table, where, now).value == DeleteDb(db, key, table, where, now)
  {
  }

  /**
   * The conditions of the delete as evidently intended: the `where` list when
   * it is non-empty (as `_get_all` builds it), else `id = key`. It binds one
   * value per condition.
   */
  function DeleteCond(key: Value, where: Option<Where>): (c: Where)
    ensures where.Some? && where.value != [] ==> |c| == |DeleteInputs(where.value)|
  {
    if where.Some? && where.value != [] then where.value else IdCond(key)
  }

  /**
   * The intended delete removes exactly the rows that `_get_all` selects for
   * the same `where` list and keeps every other row.
   */
  lemma DeleteRemovesSelected(rows: seq<Row>, key: Value, where: Where)
    requires where != []
    ensures multiset(Select(rows, where)) + multiset(Reject(rows, DeleteCond(key, Some(where)))) == multiset(rows)
    ensures forall x :: x in Reject(rows, DeleteCond(key, Some(where))) <==> x in rows && x !in Selected(rows, Some(where))
  {
    SelectRejectPartition(rows, where);
  }

  // ---------------------------------------------------------------------
  // Keys, upserts and record defaults
  // ---------------------------------------------------------------------

  function IdCond(key: Value): Where
  {
    [Cond("id", key)]
  }

  predicate HasId(row: Row, key: Value)
  {
    Holds(row, Cond("id", key))
  }

  predicate AnyId(rows: seq<Row>, key: Value)
  {
    exists i | 0 <= i < |rows| :: HasId(rows[i], key)
  }

  /** The row `fetchone` returns for `select * ... where id = key`. */
  function FirstWithId(rows: seq<Row>, key: Value): (r: Option<nat>)
    ensures r.None? <==> !AnyId(rows, key)
    ensures r.Some? ==> r.value < |rows| && HasId(rows[r.value], key)
    ensures r.Some? ==> forall j | 0 <= j < r.value :: !HasId(rows[j], key)
  {
    if rows == [] then None
    else if HasId(rows[0], key) then Some(0)
    else
      match FirstWithId(rows[1..], key)
      case None =>
        assert forall i | 1 <= i < |rows| :: rows[i] == rows[1..][i - 1];
        None
      case Some(i) => Some(i + 1)
  }

  /** How many rows carry the id `key`. */
  function CountId(rows: seq<Row>, key: Value): nat
  {
    if rows == [] then 0 else (if HasId(rows[0], key) then 1 else 0) + CountId(rows[1..], key)
  }

  lemma {:induction false} CountIdZero(rows: seq<Row>, key: Value)
    ensures CountId(rows, key) == 0 <==> !AnyId(rows, key)
  {
    if rows != [] {
      CountIdZero(rows[1..], key);
      if AnyId(rows[1..], key) {
        var i :| 0 <= i < |rows[1..]| && HasId(rows[1..][i], key);
        assert HasId(rows[i + 1], key);
      }
      if AnyId(rows, key) && !HasId(rows[0], key) {
        var i :| 0 <= i < |rows| && HasId(rows[i], key);
        assert HasId(rows[1..][i - 1], key);
      }
    }
  }

  /** `update <table> set <every column of rec> where id = rec["id"]`, row by row. */
  function UpdateById(rows: seq<Row>, rec: Row): (r: seq<Row>)
    requires "id" in rec
    ensures |r| == |rows|
  {
    if rows == [] then []
    else [if HasId(rows[0], rec["id"]) then rows[0] + rec else rows[0]] + UpdateById(rows[1..], rec)
  }

  /**
   * The table effect of `_set`: when some row has id `key` the rows whose id
   * equals the record's own "id" are overwritten column by column (None: the
   * record has no "id", the KeyError of `out["id"]`); otherwise the record is
   * inserted as one new row.
   */
  function Upsert(rows: seq<Row>, key: Value, rec: Row): Option<seq<Row>>
  {
    if !AnyId(rows, key) then Some(rows + [rec])
    else if "id" in rec then Some(UpdateById(rows, rec))
    else None
  }

  /** An update by id overwrites exactly the rows holding that id, column by column. */
  lemma {:induction false} UpdateByIdAt(rows: seq<Row>, key: Value, rec: Row)
    requires HasId(rec, key)
    ensures forall i | 0 <= i < |rows| && HasId(rows[i], key) ::
      UpdateById(rows, rec)[i] == rows[i] + rec
    ensures forall i | 0 <= i < |rows| && !HasId(rows[i], key) ::
      UpdateById(rows, rec)[i] == rows[i]
  {
    if rows != [] {
      UpdateByIdAt(rows[1..], key, rec);
      var r := UpdateById(rows, rec);
      assert r == [r[0]] + UpdateById(rows[1..], rec);
      forall i | 1 <= i < |rows|
        ensures r[i] == UpdateById(rows[1..], rec)[i - 1] && rows[i] == rows[1..][i - 1]
      {
      }
    }
  }

  /** An update by id keeps the number of rows holding that id. */
  lemma {:induction false} UpdateByIdKeepsCount(rows: seq<Row>, key: Value, rec: Row)
    requires HasId(rec, key)
    ensures CountId(UpdateById(rows, rec), key) == CountId(rows, key)
  {
    if rows != [] {
      UpdateByIdKeepsCount(rows[1..], key, rec);
      var r := UpdateById(rows, rec);
      assert r[1..] == UpdateById(rows[1..], rec);
      assert HasId(r[0], key) <==> HasId(rows[0], key);
    }
  }

  lemma UpdateByIdCount(rows: seq<Row>, key: Value, rec: Row)
    requires HasId(rec, key)
    ensures CountId(UpdateById(rows, rec), key) == CountId(rows, key)
    ensures forall i | 0 <= i < |rows| && HasId(rows[i], key) ::
      UpdateById(rows, rec)[i] == rows[i] + rec
    ensures forall i | 0 <= i < |rows| && !HasId(rows[i], key) ::
      UpdateById(rows, rec)[i] == rows[i]
  {
    UpdateByIdAt(rows, key, rec);
    UpdateByIdKeepsCount(rows, key, rec);
  }

  lemma {:induction false} CountIdAppend(rows: seq<Row>, row: Row, key: Value)
    ensures CountId(rows + [row], key) == CountId(rows, key) + (if HasId(row, key) then 1 else 0)
  {
    if rows == [] {
      assert [row][1..] == [];
    } else {
      assert (rows + [row])[1..] == rows[1..] + [row];
      CountIdAppend(rows[1..], row, key);
    }
  }

  /**
   * Upserting a record whose "id" is its key leaves exactly one row with that
   * key when there was none, and otherwise as many as before; every such row
   * then carries the record's fields, and the table grows by at most one row.
   */
  lemma UpsertKeepsOneRecord(rows: seq<Row>, key: Value, rec: Row)
    requires HasId(rec, key)
    ensures Upsert(rows, key, rec).Some?
    ensures var r := Upsert(rows, key, rec).value;
      && |r| <= |rows| + 1
      && CountId(r, key) == (if CountId(rows, key) == 0 then 1 else CountId(rows, key))
      && (forall i | 0 <= i < |r| && HasId(r[i], key) :: forall k | k in rec :: k in r[i] && r[i][k] == rec[k])
  {
    CountIdZero(rows, key);
    var r := Upsert(rows, key, rec).value;
    if !AnyId(rows, key) {
      CountIdAppend(rows, rec, key);
    } else {
      UpdateByIdCount(rows, key, rec);
    }
  }

  lemma {:induction false} UpdateByIdTwice(rows: seq<Row>, rec: Row)
    requires "id" in rec && rec["id"] != Null
    ensures UpdateById(UpdateById(rows, rec), rec) == UpdateById(rows, rec)
  {
    if rows != [] {
      UpdateByIdTwice(rows[1..], rec);
      var once := UpdateById(rows, rec);
      assert once[1..] == UpdateById(rows[1..], rec);
      if HasId(rows[0], rec["id"]) {
        assert rows[0] + rec + rec == rows[0] + rec;
      }
    }
  }

  lemma {:induction false} UpdateByIdNoMatch(rows: seq<Row>, rec: Row)
    requires "id" in rec && !AnyId(rows, rec["id"])
    ensures UpdateById(rows, rec) == rows
  {
    if rows != [] {
      assert !HasId(rows[0], rec["id"]);
      assert !AnyId(rows[1..], rec["id"]) by {
        forall i | 0 <= i < |rows[1..]| ensures !HasId(rows[1..][i], rec["id"]) {
          assert rows[1..][i] == rows[i + 1];
        }
      }
      UpdateByIdNoMatch(rows[1..], rec);
    }
  }

  /** Upserting the same record twice under its own key is the same as upserting it once. */
  lemma UpsertIdempotent(rows: seq<Row>, key: Value, rec: Row)
    requires HasId(rec, key)
    ensures Upsert(rows, key, rec).Some?
    ensures Upsert(Upsert(rows, key, rec).value, key, rec) == Upsert(rows, key, rec)
  {
    var once := Upsert(rows, key, rec).value;
    if AnyId(rows, key) {
      var i :| 0 <= i < |rows| && HasId(rows[i], key);
      UpdateByIdCount(rows, key, rec);
      assert AnyId(once, key) by { assert HasId(once[i], key); }
      UpdateByIdTwice(rows, rec);
    } else {
      assert once == rows + [rec];
      assert AnyId(once, key) by { assert HasId(once[|rows|], key); }
      UpdateByIdNoMatch(rows, rec);
      UpdateByIdSplit(rows, [rec], rec);
      assert rec + rec == rec;
      assert UpdateById([rec], rec) == [rec + rec];
    }
  }

  lemma {:induction false} UpdateByIdSplit(a: seq<Row>, b: seq<Row>, rec: Row)
    requires "id" in rec
    ensures UpdateById(a + b, rec) == UpdateById(a, rec) + UpdateById(b, rec)
  {
    if a != [] {
      assert (a + b)[1..] == a[1..] + b;
      UpdateByIdSplit(a[1..], b, rec);
    } else {
      assert a + b == b;
    }
  }

  /** An upsert never takes away a row's id: every key present before is present after. */
  lemma UpsertKeepsIds(rows: seq<Row>, key: Value, rec: Row, other: Value)
    requires HasId(rec, key) && AnyId(rows, other)
    ensures Upsert(rows, key, rec).Some? && AnyId(Upsert(rows, key, rec).value, other)
  {
    var i :| 0 <= i < |rows| && HasId(rows[i], other);
    var r := Upsert(rows, key, rec).value;
    if AnyId(rows, key) {
      UpdateByIdCount(rows, key, rec);
      if HasId(rows[i], key) {
        assert HasId(r[i], other);
      } else {
        assert r[i] == rows[i];
      }
    } else {
      assert r[i] == rows[i];
    }
  }

  /** An upsert gives no row a new id except the record's own. */
  lemma UpsertIdsFrom(rows: seq<Row>, key: Value, rec: Row, other: Value)
    requires HasId(rec, key) && !HasId(rec, other)
    ensures Upsert(rows, key, rec).Some?
    ensures AnyId(Upsert(rows, key, rec).value, other) ==> AnyId(rows, other)
  {
    var r := Upsert(rows, key, rec).value;
    if AnyId(r, other) {
      var i :| 0 <= i < |r| && HasId(r[i], other);
      if AnyId(rows, key) {
        UpdateByIdCount(rows, key, rec);
        assert HasId(rows[i], other);
      } else {
        assert i < |rows| && r[i] == rows[i];
      }
    }
  }

  /** `table_fields` defaults filled into a record: every listed field is present, NULL when missing. */
  function Fill(row: Row, table: string): (out: Row)
    ensures out.Keys == row.Keys + TableFields(table).Keys
    ensures forall k | k in row :: out[k] == row[k]
    ensures forall k | k in out && k !in row :: out[k] == Null
  {
    TableFields(table) + row
  }

  /** The loop of `_get` and `_get_all` that adds each missing `table_fields` key with its default. */
  method FillDefaults(row: Row, table: string) returns (out: Row)
    ensures out == Fill(row, table)
  {
    var fields := TableFieldNames(table);
    out := row;
    var i := 0;
    while i < |fields|
      invariant 0 <= i <= |fields|
      invariant forall k :: k in out <==> k in row || k in fields[..i]
      invariant forall k | k in out :: out[k] == if k in row then row[k] else Null
    {
      if fields[i] !in out {
        out := out[fields[i] := Null];
      }
      assert fields[..i + 1] == fields[..i] + [fields[i]];
      i := i + 1;
    }
    assert fields[..i] == fields;
    var want := Fill(row, table);
    assert out.Keys == want.Keys;
    assert forall k | k in out :: out[k] == want[k];
  }

  // ---------------------------------------------------------------------
  // Audit rows and whole-store effects
  // ---------------------------------------------------------------------

  /** The `where` list as msgpack sees it: None, or a list of `{"col", "val"}` dictionaries. */
  function WhereValue(where: Option<Where>): Value
  {
    match where
    case None => Null
    case Some(w) =>
      List(seq(|w|, i requires 0 <= i < |w| => Dict(map["col" := Str(w[i].col), "val" := w[i].val])))
  }

  /**
   * The row `admin_log` writes after a mutation. Its `table_name` is the
   * admin-events table itself, because the wrapper reassigns `table` before
   * writing it.
   */
  function AdminRow(now: string, operation: string, values: Value, where: Value): Row
  {
    map[
      "ts" := Str(now),
      "table_name" := Str(AdminEventsTable),
      "operation" := Str(operation),
      "vals" := Dumps(values),
      "where_val" := Dumps(where)
    ]
  }

  function Append(db: Db, table: string, row: Row): (r: Db)
    ensures Rows(r, table) == Rows(db, table) + [row]
    ensures forall t | t != table :: Rows(r, t) == Rows(db, t)
  {
    db[table := Rows(db, table) + [row]]
  }

  /**
   * The store after `set(key, table, out)` (with `out` already encoded) and
   * its audit row; None when the upsert raises.
   */
  function SetDb(db: Db, key: string, table: string, out: Row, now: string): Option<Db>
  {
    match Upsert(Rows(db, table), Str(key), out)
    case None => None
    case Some(rows) => Some(Append(db[table := rows], AdminEventsTable, AdminRow(now, "set", Dict(out), Null)))
  }

  /** The store after `delete(key, table, where)` and its audit row. */
  function DeleteDb(db: Db, key: Value, table: string, where: Option<Where>, now: string): Db
  {
    Append(db[table := Reject(Rows(db, table), DeleteCond(key, where))],
           AdminEventsTable, AdminRow(now, "delete", key, WhereValue(where)))
  }

  /** The store after `insert(table, **out)`: one more row, no audit row. */
  function InsertDb(db: Db, table: string, out: Row): Db
  {
    db[table := Rows(db, table) + [out]]
  }
}
