/**
 * The relationship ledger (dash_access/access/relationship.py): every grant
 * is one row of the relationships table, an edge from a principal (a user or
 * a group) to a granted entity (a group or a permission), keyed by its four
 * fields joined with "-".
 *
 * The ledger is written against the SQLite store; the PostgreSQL store reads
 * the same rows back (Postgres.GetAgreesWithSqlite, GetAllAgreesWithSqlite).
 */
module Relationship {
  import opened Base
  import opened Sqlite3

  /** The `Args` dataclass: every field may be None. */
  datatype Args = Args(
    principal: Option<string>,
    principalType: Option<string>,
    granted: Option<string>,
    grantedType: Option<string>)

  /** An edge with all four fields given. */
  datatype Edge = Edge(principal: string, principalType: string, granted: string, grantedType: string)

  function ArgsOf(e: Edge): Args
  {
    Args(Some(e.principal), Some(e.principalType), Some(e.granted), Some(e.grantedType))
  }

  /** `"-".join` of the four fields succeeds only when none of them is None. */
  function EdgeOf(a: Args): Option<Edge>
  {
    if a.principal.Some? && a.principalType.Some? && a.granted.Some? && a.grantedType.Some? then
      Some(Edge(a.principal.value, a.principalType.value, a.granted.value, a.grantedType.value))
    else
      None
  }

  /** Python truthiness of an optional string: neither None nor "". */
  predicate Truthy(o: Option<string>)
  {
    o.Some? && o.value != ""
  }

  /** The key of an edge: its four fields joined with "-". */
  function Id(e: Edge): string
  {
    e.principal + "-" + e.principalType + "-" + e.granted + "-" + e.grantedType
  }

  /** In `a + "-" + b` with no "-" in `a`, the first "-" stands right after `a`. */
  lemma FirstDash(a: string, b: string)
    requires '-' !in a
    ensures (a + "-" + b)[|a|] == '-'
    ensures forall i | 0 <= i < |a| :: (a + "-" + b)[i] != '-'
  {
    forall i | 0 <= i < |a|
      ensures (a + "-" + b)[i] != '-'
    {
      assert (a + "-" + b)[i] == a[i];
    }
  }

  lemma JoinSplits(a: string, b: string, c: string, d: string)
    requires '-' !in a && '-' !in c
    requires a + "-" + b == c + "-" + d
    ensures a == c && b == d
  {
    var x, y := a + "-" + b, c + "-" + d;
    FirstDash(a, b);
    FirstDash(c, d);
    assert |a| == |c|;
    assert a == x[..|a|] && c == y[..|c|];
    assert b == x[|a| + 1..] && d == y[|c| + 1..];
  }

  /**
   * Two edges whose fields hold no "-" share a key only when they are the
   * same edge; with a "-" inside a field, distinct edges can collide
   * (KeyCollision).
   */
  lemma IdInjective(e: Edge, f: Edge)
    requires '-' !in e.principal && '-' !in e.principalType && '-' !in e.granted
    requires '-' !in f.principal && '-' !in f.principalType && '-' !in f.granted
    ensures Id(e) == Id(f) <==> e == f
  {
    if Id(e) == Id(f) {
      var et := e.principalType + "-" + e.granted + "-" + e.grantedType;
      var ft := f.principalType + "-" + f.granted + "-" + f.grantedType;
      assert Id(e) == e.principal + "-" + et;
      assert Id(f) == f.principal + "-" + ft;
      JoinSplits(e.principal, et, f.principal, ft);
      var eg := e.granted + "-" + e.grantedType;
      var fg := f.granted + "-" + f.grantedType;
      assert et == e.principalType + "-" + eg;
      assert ft == f.principalType + "-" + fg;
      JoinSplits(e.principalType, eg, f.principalType, fg);
      JoinSplits(e.granted, e.grantedType, f.granted, f.grantedType);
    }
  }

  lemma KeyCollision()
    ensures Id(Edge("a-b", "user", "x", "group")) == Id(Edge("a", "b-user", "x", "group"))
  {
  }

  /** The row `create` writes for an edge. */
  function Record(e: Edge, now: string): Row
  {
    map[
      "id" := Str(Id(e)),
      "principal" := Str(e.principal),
      "principal_type" := Str(e.principalType),
      "granted" := Str(e.granted),
      "granted_type" := Str(e.grantedType),
      "ts" := Str(now)
    ]
  }

  /** The store after `create` of an edge: its record upserted under its key, plus the audit row. */
  function CreateDb(db: Db, e: Edge, now: string): Db
  {
    match SetDb(db, Id(e), RelationshipsTable, EncodeRow(Record(e, now)), now)
    case Some(after) => after
    case None => db
  }

  /** The relationships rows holding an edge's key. */
  predicate HasEdge(db: Db, e: Edge)
  {
    AnyId(Rows(db, RelationshipsTable), Str(Id(e)))
  }

  lemma EncodeRecord(e: Edge, now: string)
    ensures EncodeRow(Record(e, now)) == Record(e, now)
  {
  }

  /**
   * After `create`, the edge exists, exactly one row carries its key (when at
   * most one did before), that row holds the edge's fields and time stamp,
   * and one audit row is added.
   */
  lemma CreateMakesEdge(db: Db, e: Edge, now: string)
    ensures HasEdge(CreateDb(db, e, now), e)
    ensures var before := CountId(Rows(db, RelationshipsTable), Str(Id(e)));
      CountId(Rows(CreateDb(db, e, now), RelationshipsTable), Str(Id(e))) == if before == 0 then 1 else before
    ensures forall r | r in Rows(CreateDb(db, e, now), RelationshipsTable) && HasId(r, Str(Id(e))) ::
      forall k | k in Record(e, now) :: k in r && r[k] == Record(e, now)[k]
    ensures |Rows(CreateDb(db, e, now), AdminEventsTable)| == |Rows(db, AdminEventsTable)| + 1
  {
    var rows := Rows(db, RelationshipsTable);
    var rec := Record(e, now);
    EncodeRecord(e, now);
    UpsertKeepsOneRecord(rows, Str(Id(e)), rec);
    var after := Upsert(rows, Str(Id(e)), rec).value;
    CountIdZero(after, Str(Id(e)));
    assert Rows(CreateDb(db, e, now), RelationshipsTable) == after;
  }

  /** Creating an edge keeps every key that was present, and adds its own. */
  lemma CreateKeepsEdges(db: Db, e: Edge, now: string, key: Value)
    requires AnyId(Rows(db, RelationshipsTable), key)
    ensures AnyId(Rows(CreateDb(db, e, now), RelationshipsTable), key)
  {
    EncodeRecord(e, now);
    UpsertKeepsIds(Rows(db, RelationshipsTable), Str(Id(e)), Record(e, now), key);
  }

  /** `create`: write the edge's record under its key; TypeError when a field is None. */
  method Create(store: Sqlite3AccessStore, args: Args, now: string) returns (r: Result<bool>)
    modifies store
    ensures EdgeOf(args).None? ==> r == Err(TypeError) && store.tables == old(store.tables)
    ensures EdgeOf(args).Some? ==> r == Ok(true) && store.tables == CreateDb(old(store.tables), EdgeOf(args).value, now)
  {
    var e := EdgeOf(args);
    if e.None? {
      return Err(TypeError);
    }
    var rec := Record(e.value, now);
    EncodeRecord(e.value, now);
    UpsertKeepsOneRecord(Rows(store.tables, RelationshipsTable), Str(Id(e.value)), rec);
    r := store.Set(Id(e.value), RelationshipsTable, rec, now);
  }

  /** `exists`: whether a row holds the edge's key; TypeError when a field is None. */
  method Exists(store: Sqlite3AccessStore, args: Args) returns (r: Result<bool>)
    ensures EdgeOf(args).None? ==> r == Err(TypeError)
    ensures EdgeOf(args).Some? ==> r == Ok(HasEdge(store.tables, EdgeOf(args).value))
  {
    var e := EdgeOf(args);
    if e.None? {
      return Err(TypeError);
    }
    var got := store.Get(Id(e.value), RelationshipsTable);
    r := Ok(got !in {NoneValue, EmptyList});
  }

  /** The `where` list `get_all` builds: one equality per truthy field, in field order. */
  function WhereOf(a: Args): Where
  {
    (if Truthy(a.principal) then [Cond("principal", Str(a.principal.value))] else [])
    + (if Truthy(a.principalType) then [Cond("principal_type", Str(a.principalType.value))] else [])
    + (if Truthy(a.granted) then [Cond("granted", Str(a.granted.value))] else [])
    + (if Truthy(a.grantedType) then [Cond("granted_type", Str(a.grantedType.value))] else [])
  }

  /** A row agrees with a field of `Args` when the field is falsy or the row holds that text. */
  predicate FieldIs(row: Row, col: string, o: Option<string>)
  {
    !Truthy(o) || (col in row && row[col] == Str(o.value))
  }

  predicate Matches(row: Row, a: Args)
  {
    && FieldIs(row, "principal", a.principal)
    && FieldIs(row, "principal_type", a.principalType)
    && FieldIs(row, "granted", a.granted)
    && FieldIs(row, "granted_type", a.grantedType)
  }

  /** The `where` list of `get_all` selects exactly the rows that agree with every truthy field. */
  lemma WhereOfMatches(row: Row, a: Args)
    ensures MatchesAll(row, WhereOf(a)) <==> Matches(row, a)
  {
    var w := WhereOf(a);
    if MatchesAll(row, w) {
      if Truthy(a.principal) { assert Cond("principal", Str(a.principal.value)) in w; }
      if Truthy(a.principalType) { assert Cond("principal_type", Str(a.principalType.value)) in w; }
      if Truthy(a.granted) { assert Cond("granted", Str(a.granted.value)) in w; }
      if Truthy(a.grantedType) { assert Cond("granted_type", Str(a.grantedType.value)) in w; }
    }
  }

  /** A cell read as a name: the text of a text cell; the empty name otherwise. */
  function Text(v: Value): string
  {
    if v.Str? then v.s else ""
  }

  /** The granted name of a stored row, as `get_all` reads it back. */
  function Granted(row: Row): string
  {
    Text(Sqlite3.Decode(if "granted" in row then row["granted"] else Null))
  }

  function GrantedColumn(rows: seq<Row>): (r: seq<string>)
    ensures |r| == |rows|
  {
    seq(|rows|, i requires 0 <= i < |rows| => Granted(rows[i]))
  }

  /** The granted names of the rows `get_all` selects, in table order. */
  function GrantedOf(db: Db, a: Args): seq<string>
  {
    GrantedColumn(Select(Rows(db, RelationshipsTable), WhereOf(a)))
  }

  /**
   * `get_all` yields a name exactly when some relationship agreeing with
   * every truthy field grants it, once per such relationship.
   */
  lemma GrantedOfMembers(db: Db, a: Args, g: string)
    ensures g in GrantedOf(db, a) <==>
      exists r | r in Rows(db, RelationshipsTable) :: Matches(r, a) && Granted(r) == g
    ensures |GrantedOf(db, a)| == |Select(Rows(db, RelationshipsTable), WhereOf(a))|
  {
    var sel := Select(Rows(db, RelationshipsTable), WhereOf(a));
    var out := GrantedOf(db, a);
    if g in out {
      var i :| 0 <= i < |out| && out[i] == g;
      assert sel[i] in sel;
      WhereOfMatches(sel[i], a);
    }
    if exists r | r in Rows(db, RelationshipsTable) :: Matches(r, a) && Granted(r) == g {
      var r :| r in Rows(db, RelationshipsTable) && Matches(r, a) && Granted(r) == g;
      WhereOfMatches(r, a);
      var i :| 0 <= i < |sel| && sel[i] == r;
      assert out[i] == g;
    }
  }

  /** A record read back by `get_all` holds the granted name of the row it came from. */
  lemma ReadGranted(row: Row)
    ensures "granted" in Fill(DecodeRow(row), RelationshipsTable)
    ensures Text(Fill(DecodeRow(row), RelationshipsTable)["granted"]) == Granted(row)
  {
    TableFieldsKeys(RelationshipsTable);
  }

  /** The `where` list built field by field, as `get_all` does. */
  method BuildWhere(args: Args) returns (where: Where)
    ensures where == WhereOf(args)
  {
    where := [];
    if Truthy(args.principal) {
      where := where + [Cond("principal", Str(args.principal.value))];
    }
    if Truthy(args.principalType) {
      where := where + [Cond("principal_type", Str(args.principalType.value))];
    }
    if Truthy(args.granted) {
      where := where + [Cond("granted", Str(args.granted.value))];
    }
    if Truthy(args.grantedType) {
      where := where + [Cond("granted_type", Str(args.grantedType.value))];
    }
  }

  /** The records `_get_all` returns for a `where` list hold, in order, the granted names of the selected rows. */
  lemma FetchedGranted(db: Db, where: Where)
    ensures var val := FetchAll(db, RelationshipsTable, Some(where));
      var sel := Select(Rows(db, RelationshipsTable), where);
      && |val| == |sel|
      && forall i | 0 <= i < |val| :: "granted" in val[i] && Text(val[i]["granted"]) == Granted(sel[i])
  {
    var rows := Rows(db, RelationshipsTable);
    if where == [] {
      SelectNoConditions(rows);
    }
    assert Selected(rows, Some(where)) == Select(rows, where);
    var sel := Select(rows, where);
    forall i | 0 <= i < |sel|
      ensures "granted" in Fill(DecodeRow(sel[i]), RelationshipsTable)
      ensures Text(Fill(DecodeRow(sel[i]), RelationshipsTable)["granted"]) == Granted(sel[i])
    {
      ReadGranted(sel[i]);
    }
  }

  /** `get_all`: the granted names of every relationship agreeing with the truthy fields. */
  method GetAll(store: Sqlite3AccessStore, args: Args) returns (r: seq<string>)
    ensures r == GrantedOf(store.tables, args)
  {
    var where := BuildWhere(args);
    var val := store.GetAll(RelationshipsTable, Some(where));
    FetchedGranted(store.tables, where);
    r := seq(|val|, i requires 0 <= i < |val| && "granted" in val[i] => Text(val[i]["granted"]));
  }

  // ---------------------------------------------------------------------
  // delete
  // ---------------------------------------------------------------------

  /**
   * `delete` as written: it reads `args.granteded`, an attribute `Args` does
   * not have, so it raises before it touches the store, whatever the edge.
   */
  function DeleteAsWritten(args: Args): Result<bool>
  {
    Err(AttributeError)
  }

  /** The store after deleting the row(s) holding a key, plus the audit row. */
  function DeleteKeyDb(db: Db, key: Value, now: string): Db
  {
    DeleteDb(db, key, RelationshipsTable, None, now)
  }

  /** After the intended `delete`, no row holds the edge's key, and every other row is kept. */
  lemma DeleteRemovesEdge(db: Db, e: Edge, now: string)
    ensures !HasEdge(DeleteKeyDb(db, Str(Id(e)), now), e)
    ensures forall r :: r in Rows(DeleteKeyDb(db, Str(Id(e)), now), RelationshipsTable) <==>
      r in Rows(db, RelationshipsTable) && !HasId(r, Str(Id(e)))
  {
    var after := Rows(DeleteKeyDb(db, Str(Id(e)), now), RelationshipsTable);
    forall i | 0 <= i < |after|
      ensures !HasId(after[i], Str(Id(e)))
    {
      assert after[i] in after;
      assert MatchesAll(after[i], IdCond(Str(Id(e)))) <==> HasId(after[i], Str(Id(e)));
    }
    forall r
      ensures r in after <==> r in Rows(db, RelationshipsTable) && !HasId(r, Str(Id(e)))
    {
      assert MatchesAll(r, IdCond(Str(Id(e)))) <==> HasId(r, Str(Id(e)));
    }
  }

  /** `delete`, as evidently intended: remove the edge's row by its key; TypeError when a field is None. */
  method Delete(store: Sqlite3AccessStore, args: Args, now: string) returns (r: Result<bool>)
    modifies store
    ensures EdgeOf(args).None? ==> r == Err(TypeError) && store.tables == old(store.tables)
    ensures EdgeOf(args).Some? ==>
      r == Ok(true) && store.tables == DeleteKeyDb(old(store.tables), Str(Id(EdgeOf(args).value)), now)
  {
    var e := EdgeOf(args);
    if e.None? {
      return Err(TypeError);
    }
    var ok := store.Delete(Str(Id(e.value)), RelationshipsTable, None, now);
    r := Ok(ok);
  }

  // ---------------------------------------------------------------------
  // delete_all
  // ---------------------------------------------------------------------

  predicate Principals(a: Args)
  {
    Truthy(a.principal) && Truthy(a.principalType)
  }

  predicate Granteds(a: Args)
  {
    Truthy(a.granted) && Truthy(a.grantedType)
  }

  /**
   * The checks of `delete_all` as written and the `where` list they leave:
   * both pairs, or neither a granted name nor a principal pair, is a
   * ValueError; a granted type other than group or permission, or a
   * principal type other than group or user, is a TypeError. A granted name
   * without its type passes the checks and leaves no `where` list at all.
   */
  function DeleteAllWhereAsWritten(a: Args): Result<Option<Where>>
  {
    if Principals(a) && Granteds(a) then Err(ValueError)
    else if !Truthy(a.granted) && !Principals(a) then Err(ValueError)
    else if Granteds(a) then
      if a.grantedType.value in ["group", "permission"] then
        Ok(Some([Cond("granted", Str(a.granted.value)), Cond("granted_type", Str(a.grantedType.value))]))
      else Err(TypeError)
    else if Principals(a) then
      if a.principalType.value in ["group", "user"] then
        Ok(Some([Cond("principal", Str(a.principal.value)), Cond("principal_type", Str(a.principalType.value))]))
      else Err(TypeError)
    else Ok(None)
  }

  /** The checks of `delete_all` as evidently intended: exactly one complete pair is required. */
  function DeleteAllWhere(a: Args): (r: Result<Option<Where>>)
    ensures r.Ok? ==> r.value.Some? && |r.value.value| == 2
    ensures r == Err(ValueError) <==> Principals(a) == Granteds(a)
    ensures r == Err(TypeError) <==>
      (Granteds(a) && !Principals(a) && a.grantedType.value !in ["group", "permission"]) ||
      (Principals(a) && !Granteds(a) && a.principalType.value !in ["group", "user"])
  {
    if Principals(a) && Granteds(a) then Err(ValueError)
    else if !Granteds(a) && !Principals(a) then Err(ValueError)
    else DeleteAllWhereAsWritten(a)
  }

  /**
   * Given only a granted name, `delete_all` as written passes its checks with
   * no `where` list, so it selects every relationship; the intended checks
   * refuse the call.
   */
  lemma GrantedOnlySelectsEverything(db: Db, a: Args)
    requires Truthy(a.granted) && !Truthy(a.grantedType) && !Principals(a)
    ensures DeleteAllWhereAsWritten(a) == Ok(None)
    ensures FetchAll(db, RelationshipsTable, None) == FetchAll(db, RelationshipsTable, Some([]))
    ensures |FetchAll(db, RelationshipsTable, None)| == |Rows(db, RelationshipsTable)|
    ensures DeleteAllWhere(a) == Err(ValueError)
  {
  }

  /** The id cell of a record read back by `get_all`. */
  function IdCell(row: Row): Value
  {
    if "id" in row then row["id"] else Null
  }

  function IdColumn(rows: seq<Row>): (r: seq<Value>)
    ensures |r| == |rows|
  {
    seq(|rows|, i requires 0 <= i < |rows| => IdCell(rows[i]))
  }

  /** The store after deleting, one by one, the rows holding each key, each with its audit row. */
  function DeleteEach(db: Db, keys: seq<Value>, now: string): Db
    decreases |keys|
  {
    if keys == [] then db
    else DeleteKeyDb(DeleteEach(db, keys[..|keys| - 1], now), keys[|keys| - 1], now)
  }

  /** Deleting key by key keeps exactly the rows that hold none of the keys, and logs one row per key. */
  lemma {:induction false} DeleteEachKeeps(db: Db, keys: seq<Value>, now: string)
    ensures forall r :: r in Rows(DeleteEach(db, keys, now), RelationshipsTable) <==>
      r in Rows(db, RelationshipsTable) && forall k | k in keys :: !HasId(r, k)
    ensures |Rows(DeleteEach(db, keys, now), AdminEventsTable)| == |Rows(db, AdminEventsTable)| + |keys|
  {
    if keys != [] {
      var init := keys[..|keys| - 1];
      var last := keys[|keys| - 1];
      DeleteEachKeeps(db, init, now);
      assert forall k :: k in keys <==> k in init || k == last;
      forall r
        ensures MatchesAll(r, IdCond(last)) <==> HasId(r, last)
      {
      }
    }
  }

  /** Deleting one more key extends the key-by-key deletion by one step. */
  lemma DeleteEachStep(db: Db, keys: seq<Value>, i: nat, now: string)
    requires i < |keys|
    ensures DeleteEach(db, keys[..i + 1], now) == DeleteKeyDb(DeleteEach(db, keys[..i], now), keys[i], now)
  {
    assert keys[..i + 1][..i] == keys[..i];
  }

  /**
   * `delete_all` once its checks have passed: fetch the selected rows and
   * delete each by its id. It reports how many rows it fetched.
   */
  method DeleteSelected(store: Sqlite3AccessStore, where: Option<Where>, now: string) returns (n: nat)
    modifies store
    ensures var ships := FetchAll(old(store.tables), RelationshipsTable, where);
      n == |ships| && store.tables == DeleteEach(old(store.tables), IdColumn(ships), now)
  {
    var ships := store.GetAll(RelationshipsTable, where);
    ghost var start := store.tables;
    ghost var ids := IdColumn(ships);
    var i := 0;
    while i < |ships|
      invariant 0 <= i <= |ships|
      invariant store.tables == DeleteEach(start, ids[..i], now)
    {
      var key := if "id" in ships[i] then ships[i]["id"] else Null;
      var _ := store.Delete(key, RelationshipsTable, None, now);
      DeleteEachStep(start, ids, i, now);
      i := i + 1;
    }
    assert ids[..i] == ids;
    n := |ships|;
  }

  /** A record read back by `get_all` holds the decoded id of the row it came from. */
  lemma ReadId(row: Row)
    ensures IdCell(Fill(DecodeRow(row), RelationshipsTable)) == Sqlite3.Decode(IdCell(row))
  {
    TableFieldsKeys(RelationshipsTable);
  }

  /**
   * After `delete_all` with a `where` list, a relationship is kept exactly
   * when it holds none of the ids read back from the selected rows; so no
   * selected row with a text id survives. One audit row is written per
   * selected row.
   */
  lemma DeleteAllRemovesMatches(db: Db, where: Option<Where>, now: string)
    ensures var sel := Selected(Rows(db, RelationshipsTable), where);
      var after := DeleteEach(db, IdColumn(FetchAll(db, RelationshipsTable, where)), now);
      && (forall r :: r in Rows(after, RelationshipsTable) <==>
            r in Rows(db, RelationshipsTable) && forall s | s in sel :: !HasId(r, Sqlite3.Decode(IdCell(s))))
      && (forall r | r in sel && IdCell(r).Str? :: r !in Rows(after, RelationshipsTable))
      && |Rows(after, AdminEventsTable)| == |Rows(db, AdminEventsTable)| + |sel|
  {
    var sel := Selected(Rows(db, RelationshipsTable), where);
    var keys := IdColumn(FetchAll(db, RelationshipsTable, where));
    DeleteEachKeeps(db, keys, now);
    forall i | 0 <= i < |sel|
      ensures keys[i] == Sqlite3.Decode(IdCell(sel[i]))
    {
      ReadId(sel[i]);
    }
    assert forall k :: k in keys <==> exists s | s in sel :: k == Sqlite3.Decode(IdCell(s)) by {
      forall k | k in keys
        ensures exists s | s in sel :: k == Sqlite3.Decode(IdCell(s))
      {
        var i :| 0 <= i < |keys| && keys[i] == k;
        assert sel[i] in sel;
      }
      forall s | s in sel
        ensures Sqlite3.Decode(IdCell(s)) in keys
      {
        var i :| 0 <= i < |sel| && sel[i] == s;
        assert keys[i] in keys;
      }
    }
    forall r | r in sel && IdCell(r).Str?
      ensures exists s | s in sel :: HasId(r, Sqlite3.Decode(IdCell(s)))
    {
      assert HasId(r, Sqlite3.Decode(IdCell(r)));
    }
  }

  /** `delete_all`, with the intended checks: delete the relationships of one pair, report how many. */
  method DeleteAll(store: Sqlite3AccessStore, args: Args, now: string) returns (r: Result<nat>)
    modifies store
    ensures DeleteAllWhere(args).Err? ==> r == Err(DeleteAllWhere(args).error) && store.tables == old(store.tables)
    ensures DeleteAllWhere(args).Ok? ==>
      var ships := FetchAll(old(store.tables), RelationshipsTable, DeleteAllWhere(args).value);
      r == Ok(|ships|) && store.tables == DeleteEach(old(store.tables), IdColumn(ships), now)
  {
    var checked := DeleteAllWhere(args);
    if checked.Err? {
      return Err(checked.error);
    }
    var n := DeleteSelected(store, checked.value, now);
    r := Ok(n);
  }

  /** `delete_all` as written: the same deletion behind the checks as written. */
  method DeleteAllAsWritten(store: Sqlite3AccessStore, args: Args, now: string) returns (r: Result<nat>)
    modifies store
    ensures DeleteAllWhereAsWritten(args).Err? ==>
      r == Err(DeleteAllWhereAsWritten(args).error) && store.tables == old(store.tables)
    ensures DeleteAllWhereAsWritten(args).Ok? ==>
      var ships := FetchAll(old(store.tables), RelationshipsTable, DeleteAllWhereAsWritten(args).value);
      r == Ok(|ships|) && store.tables == DeleteEach(old(store.tables), IdColumn(ships), now)
  {
    var checked := DeleteAllWhereAsWritten(args);
    if checked.Err? {
      return Err(checked.error);
    }
    var n := DeleteSelected(store, checked.value, now);
    r := Ok(n);
  }

  // ---------------------------------------------------------------------
  // copy
  // ---------------------------------------------------------------------

  /** The principal pair `copy` reads from: both equalities, even for an empty name. */
  function PrincipalWhere(principal: string, principalType: string): Where
  {
    [Cond("principal", Str(principal)), Cond("principal_type", Str(principalType))]
  }

  /** The edges `copy` writes: one per source relationship, same granted name and type, new principal. */
  function CopiedEdges(ships: seq<Row>, to: string, toType: string): (r: seq<Edge>)
    ensures |r| == |ships|
  {
    seq(|ships|, i requires 0 <= i < |ships| =>
      Edge(to, toType, Text(if "granted" in ships[i] then ships[i]["granted"] else Null),
           Text(if "granted_type" in ships[i] then ships[i]["granted_type"] else Null)))
  }

  /** The store after creating each edge in turn. */
  function CreateEach(db: Db, edges: seq<Edge>, now: string): Db
    decreases |edges|
  {
    if edges == [] then db
    else CreateDb(CreateEach(db, edges[..|edges| - 1], now), edges[|edges| - 1], now)
  }

  /** Creating edges in turn leaves every one of them in place, and every key that was there before. */
  lemma {:induction false} CreateEachMakesEdges(db: Db, edges: seq<Edge>, now: string)
    ensures forall e | e in edges :: HasEdge(CreateEach(db, edges, now), e)
    ensures forall key | AnyId(Rows(db, RelationshipsTable), key) ::
      AnyId(Rows(CreateEach(db, edges, now), RelationshipsTable), key)
  {
    if edges != [] {
      var init := edges[..|edges| - 1];
      var last := edges[|edges| - 1];
      var mid := CreateEach(db, init, now);
      CreateEachMakesEdges(db, init, now);
      CreateMakesEdge(mid, last, now);
      forall key | AnyId(Rows(mid, RelationshipsTable), key)
        ensures AnyId(Rows(CreateDb(mid, last, now), RelationshipsTable), key)
      {
        CreateKeepsEdges(mid, last, now, key);
      }
      forall e | e in edges
        ensures HasEdge(CreateEach(db, edges, now), e)
      {
        if e != last {
          assert e in init;
          assert HasEdge(mid, e);
        }
      }
    }
  }

  lemma CreateEachStep(db: Db, edges: seq<Edge>, i: nat, now: string)
    requires i < |edges|
    ensures CreateEach(db, edges[..i + 1], now) == CreateDb(CreateEach(db, edges[..i], now), edges[i], now)
  {
    assert edges[..i + 1][..i] == edges[..i];
  }

  /**
   * `copy`, as evidently intended: give the new principal an edge to every
   * entity the old principal is granted, with the same granted type.
   */
  method Copy(store: Sqlite3AccessStore, from: string, fromType: string, to: string, toType: string, now: string)
    returns (ok: bool)
    modifies store
    ensures ok
    ensures store.tables == CreateEach(old(store.tables),
      CopiedEdges(FetchAll(old(store.tables), RelationshipsTable, Some(PrincipalWhere(from, fromType))), to, toType),
      now)
  {
    var ships := store.GetAll(RelationshipsTable, Some(PrincipalWhere(from, fromType)));
    var edges := CopiedEdges(ships, to, toType);
    ghost var start := store.tables;
    var i := 0;
    while i < |edges|
      invariant 0 <= i <= |edges|
      invariant store.tables == CreateEach(start, edges[..i], now)
    {
      CreateEachStep(start, edges, i, now);
      var _ := Create(store, ArgsOf(edges[i]), now);
      i := i + 1;
    }
    assert edges[..i] == edges;
    ok := true;
  }

  /**
   * After the intended `copy`, the new principal holds an edge for every
   * relationship the old principal had, and no key is lost.
   */
  lemma CopyGrantsSame(db: Db, from: string, fromType: string, to: string, toType: string, now: string)
    ensures var ships := FetchAll(db, RelationshipsTable, Some(PrincipalWhere(from, fromType)));
      var after := CreateEach(db, CopiedEdges(ships, to, toType), now);
      && (forall i | 0 <= i < |ships| :: HasEdge(after, CopiedEdges(ships, to, toType)[i]))
      && (forall key | AnyId(Rows(db, RelationshipsTable), key) :: AnyId(Rows(after, RelationshipsTable), key))
  {
    var ships := FetchAll(db, RelationshipsTable, Some(PrincipalWhere(from, fromType)));
    var edges := CopiedEdges(ships, to, toType);
    CreateEachMakesEdges(db, edges, now);
    assert forall i | 0 <= i < |ships| :: edges[i] in edges;
  }
}
