/**
 * Groups (dash_access/access/group.py): a group is a record of the groups
 * table keyed by its name; what it inherits, grants and contains lives in the
 * relationships ledger as edges whose principal is the group:
 *
 *   group -> group        the group inherits the granted group
 *   group -> permission   the group grants the permission
 *   user  -> group        the user belongs to the group
 *
 * The `relationship.group_*` and `relationship.user_group_*` helpers group.py
 * calls are modelled as the ledger operations with those fixed types.
 */
module Group {
  import opened Base
  import opened Sqlite3
  import opened Relationship
  import opened Inheritance

  // ---------------------------------------------------------------------
  // The group record
  // ---------------------------------------------------------------------

  /** A group exists when some row of the groups table carries its name as id. */
  predicate HasRecord(db: Db, name: string)
  {
    AnyId(Rows(db, GroupsTable), Str(name))
  }

  /** `get`: the group's record, or None when there is none. */
  method Get(store: Sqlite3AccessStore, name: string) returns (r: Option<Row>)
    ensures r.None? <==> !HasRecord(store.tables, name)
    ensures r.Some? ==> Fetch(store.tables, name, GroupsTable) == Found(r.value)
  {
    var got := store.Get(name, GroupsTable);
    if got.NoneValue? || got.EmptyList? {
      return None;
    }
    r := Some(got.row);
  }

  /** `get_all`: every group record. */
  method GetAll(store: Sqlite3AccessStore) returns (r: seq<Row>)
    ensures |r| == |Rows(store.tables, GroupsTable)|
    ensures forall x :: x in r <==> exists row | row in Rows(store.tables, GroupsTable) :: x == Fill(DecodeRow(row), GroupsTable)
  {
    r := store.GetAll(GroupsTable, None);
    FetchAllWithoutConditions(store.tables, GroupsTable);
    FetchAllReturnsMatches(store.tables, GroupsTable, [], Fill(DecodeRow(map[]), GroupsTable));
    forall x
      ensures x in r <==> exists row | row in Rows(store.tables, GroupsTable) :: x == Fill(DecodeRow(row), GroupsTable)
    {
      FetchAllReturnsMatches(store.tables, GroupsTable, [], x);
    }
  }

  /** `exists`. */
  method Exists(store: Sqlite3AccessStore, name: string) returns (b: bool)
    ensures b == HasRecord(store.tables, name)
  {
    var record := Get(store, name);
    b := record.Some?;
  }

  /** The store after `put(name, record)`. */
  function PutDb(db: Db, name: string, record: Row, now: string): Db
  {
    match SetDb(db, name, GroupsTable, EncodeRow(record), now)
    case Some(after) => after
    case None => db
  }

  /** `put`: `set` on the groups table. */
  method Put(store: Sqlite3AccessStore, name: string, record: Row, now: string) returns (r: Result<bool>)
    modifies store
    ensures SetDb(old(store.tables), name, GroupsTable, EncodeRow(record), now).None? ==>
      r == Err(KeyError) && store.tables == old(store.tables)
    ensures SetDb(old(store.tables), name, GroupsTable, EncodeRow(record), now).Some? ==>
      r == Ok(true) && store.tables == PutDb(old(store.tables), name, record, now)
  {
    r := store.Set(name, GroupsTable, record, now);
  }

  /** The record `add` writes for a new group. */
  function GroupRecord(name: string, now: string): Row
  {
    map["id" := Str(name), "update_ts" := Str(now)]
  }

  /** The record of a new group carries the group's name as its id and only plain text cells. */
  lemma GroupRecordPlain(name: string, now: string)
    ensures var record := GroupRecord(name, now);
      HasId(record, Str(name)) && forall k | k in record :: !record[k].Packed? && !record[k].Dict? && !record[k].List?
  {
    var record := GroupRecord(name, now);
    assert record.Keys == {"id", "update_ts"};
  }

  /**
   * Writing a record whose id is the group's name makes the group exist and
   * leaves every other table as it was.
   */
  lemma PutMakesRecord(db: Db, name: string, record: Row, now: string)
    requires HasId(record, Str(name)) && forall k | k in record :: !record[k].Packed? && !record[k].Dict? && !record[k].List?
    ensures SetDb(db, name, GroupsTable, EncodeRow(record), now).Some?
    ensures HasRecord(PutDb(db, name, record, now), name)
    ensures Rows(PutDb(db, name, record, now), RelationshipsTable) == Rows(db, RelationshipsTable)
  {
    assert EncodeRow(record) == record;
    UpsertKeepsOneRecord(Rows(db, GroupsTable), Str(name), record);
    var rows := Upsert(Rows(db, GroupsTable), Str(name), record).value;
    CountIdZero(rows, Str(name));
  }

  // ---------------------------------------------------------------------
  // Edges written and removed in bulk
  // ---------------------------------------------------------------------

  /** The edges from one principal to each of a list of granted names. */
  function Grants(principal: string, principalType: string, granted: seq<string>, grantedType: string): (r: seq<Edge>)
    ensures |r| == |granted|
  {
    seq(|granted|, i requires 0 <= i < |granted| => Edge(principal, principalType, granted[i], grantedType))
  }

  /** The membership edges of each user of a list in one group. */
  function Members(users: seq<string>, group: string): (r: seq<Edge>)
    ensures |r| == |users|
  {
    seq(|users|, i requires 0 <= i < |users| => Edge(users[i], "user", group, "group"))
  }

  /** The store after creating, in turn, each edge that does not exist yet. */
  function CreateMissing(db: Db, edges: seq<Edge>, now: string): Db
    decreases |edges|
  {
    if edges == [] then db
    else
      var mid := CreateMissing(db, edges[..|edges| - 1], now);
      var e := edges[|edges| - 1];
      if HasEdge(mid, e) then mid else CreateDb(mid, e, now)
  }

  lemma CreateMissingStep(db: Db, edges: seq<Edge>, i: nat, now: string)
    requires i < |edges|
    ensures var mid := CreateMissing(db, edges[..i], now);
      CreateMissing(db, edges[..i + 1], now) == if HasEdge(mid, edges[i]) then mid else CreateDb(mid, edges[i], now)
  {
    assert edges[..i + 1][..i] == edges[..i];
  }

  /** The `if not exists: create` loop over a list of edges. */
  method AddMissing(store: Sqlite3AccessStore, edges: seq<Edge>, now: string)
    modifies store
    ensures store.tables == CreateMissing(old(store.tables), edges, now)
  {
    ghost var start := store.tables;
    var i := 0;
    while i < |edges|
      invariant 0 <= i <= |edges|
      invariant store.tables == CreateMissing(start, edges[..i], now)
    {
      CreateMissingStep(start, edges, i, now);
      var present := Relationship.Exists(store, ArgsOf(edges[i]));
      if present != Ok(true) {
        var _ := Create(store, ArgsOf(edges[i]), now);
      }
      i := i + 1;
    }
    assert edges[..i] == edges;
  }

  /** Creating an edge touches only the relationships and admin-events tables. */
  lemma CreateKeepsGroups(db: Db, e: Edge, now: string)
    ensures Rows(CreateDb(db, e, now), GroupsTable) == Rows(db, GroupsTable)
  {
    EncodeRecord(e, now);
    UpsertKeepsOneRecord(Rows(db, RelationshipsTable), Str(Id(e)), Record(e, now));
  }

  /**
   * After creating the missing edges, every edge of the list exists, every
   * key present before is still present, and the groups table is untouched.
   */
  lemma {:induction false} CreateMissingMakesEdges(db: Db, edges: seq<Edge>, now: string)
    ensures forall e | e in edges :: HasEdge(CreateMissing(db, edges, now), e)
    ensures forall key | AnyId(Rows(db, RelationshipsTable), key) ::
      AnyId(Rows(CreateMissing(db, edges, now), RelationshipsTable), key)
    ensures Rows(CreateMissing(db, edges, now), GroupsTable) == Rows(db, GroupsTable)
  {
    if edges != [] {
      var init := edges[..|edges| - 1];
      var last := edges[|edges| - 1];
      var mid := CreateMissing(db, init, now);
      CreateMissingMakesEdges(db, init, now);
      if !HasEdge(mid, last) {
        CreateMakesEdge(mid, last, now);
        CreateKeepsGroups(mid, last, now);
        forall key | AnyId(Rows(mid, RelationshipsTable), key)
          ensures AnyId(Rows(CreateDb(mid, last, now), RelationshipsTable), key)
        {
          CreateKeepsEdges(mid, last, now, key);
        }
      }
      forall e | e in edges
        ensures HasEdge(CreateMissing(db, edges, now), e)
      {
        if e != last {
          assert e in init;
          if !HasEdge(mid, last) {
            CreateKeepsEdges(mid, last, now, Str(Id(e)));
          }
        }
      }
    }
  }

  /** When every edge of the list exists already, creating the missing ones writes nothing at all. */
  lemma {:induction false} CreateMissingNothingMissing(db: Db, edges: seq<Edge>, now: string)
    requires forall e | e in edges :: HasEdge(db, e)
    ensures CreateMissing(db, edges, now) == db
  {
    if edges != [] {
      CreateMissingNothingMissing(db, edges[..|edges| - 1], now);
      assert edges[|edges| - 1] in edges;
    }
  }

  /** Adding the same edges twice: the second time writes nothing, not even an audit row. */
  lemma CreateMissingIdempotent(db: Db, edges: seq<Edge>, now: string, later: string)
    ensures CreateMissing(CreateMissing(db, edges, now), edges, later) == CreateMissing(db, edges, now)
  {
    CreateMissingMakesEdges(db, edges, now);
    CreateMissingNothingMissing(CreateMissing(db, edges, now), edges, later);
  }

  /** The keys of a list of edges. */
  function EdgeKeys(edges: seq<Edge>): (r: seq<Value>)
    ensures |r| == |edges|
  {
    seq(|edges|, i requires 0 <= i < |edges| => Str(Id(edges[i])))
  }

  /** The `delete` loop over a list of edges. */
  method RemoveEdges(store: Sqlite3AccessStore, edges: seq<Edge>, now: string)
    modifies store
    ensures store.tables == DeleteEach(old(store.tables), EdgeKeys(edges), now)
  {
    ghost var start := store.tables;
    ghost var keys := EdgeKeys(edges);
    var i := 0;
    while i < |edges|
      invariant 0 <= i <= |edges|
      invariant store.tables == DeleteEach(start, keys[..i], now)
    {
      assert keys[..i + 1][..i] == keys[..i];
      var _ := Relationship.Delete(store, ArgsOf(edges[i]), now);
      i := i + 1;
    }
    assert keys[..i] == keys;
  }

  /** Deleting by key touches only the relationships and admin-events tables. */
  lemma {:induction false} DeleteEachKeepsGroups(db: Db, keys: seq<Value>, now: string)
    ensures Rows(DeleteEach(db, keys, now), GroupsTable) == Rows(db, GroupsTable)
  {
    if keys != [] {
      DeleteEachKeepsGroups(db, keys[..|keys| - 1], now);
    }
  }

  /**
   * After removing a list of edges none of them exists, a relationship
   * survives exactly when it holds none of their keys, and the groups table
   * is untouched.
   */
  lemma RemoveEdgesRemoves(db: Db, edges: seq<Edge>, now: string)
    ensures forall e | e in edges :: !HasEdge(DeleteEach(db, EdgeKeys(edges), now), e)
    ensures forall r :: r in Rows(DeleteEach(db, EdgeKeys(edges), now), RelationshipsTable) <==>
      r in Rows(db, RelationshipsTable) && forall e | e in edges :: !HasId(r, Str(Id(e)))
    ensures Rows(DeleteEach(db, EdgeKeys(edges), now), GroupsTable) == Rows(db, GroupsTable)
  {
    var keys := EdgeKeys(edges);
    var after := Rows(DeleteEach(db, keys, now), RelationshipsTable);
    DeleteEachKeeps(db, keys, now);
    DeleteEachKeepsGroups(db, keys, now);
    assert forall e | e in edges :: Str(Id(e)) in keys by {
      forall e | e in edges ensures Str(Id(e)) in keys {
        var i :| 0 <= i < |edges| && edges[i] == e;
        assert keys[i] == Str(Id(e));
      }
    }
    assert forall k | k in keys :: exists e | e in edges :: k == Str(Id(e)) by {
      forall k | k in keys ensures exists e | e in edges :: k == Str(Id(e)) {
        var i :| 0 <= i < |keys| && keys[i] == k;
        assert edges[i] in edges;
      }
    }
    forall e | e in edges
      ensures !HasEdge(DeleteEach(db, keys, now), e)
    {
      forall i | 0 <= i < |after|
        ensures !HasId(after[i], Str(Id(e)))
      {
        assert after[i] in after;
      }
    }
  }

  // ---------------------------------------------------------------------
  // add_* / remove_* on an existing group
  // ---------------------------------------------------------------------

  /** `add_inherits`: None for an unknown group; otherwise create each missing inheritance edge. */
  method AddInherits(store: Sqlite3AccessStore, name: string, inherits: seq<string>, now: string)
    returns (r: Option<bool>)
    modifies store
    ensures !HasRecord(old(store.tables), name) ==> r.None? && store.tables == old(store.tables)
    ensures HasRecord(old(store.tables), name) ==>
      r == Some(true) && store.tables == CreateMissing(old(store.tables), Grants(name, "group", inherits, "group"), now)
  {
    var present := Exists(store, name);
    if !present {
      return None;
    }
    AddMissing(store, Grants(name, "group", inherits, "group"), now);
    r := Some(true);
  }

  /** `remove_inherits`: None for an unknown group; otherwise delete each inheritance edge. */
  method RemoveInherits(store: Sqlite3AccessStore, name: string, remove: seq<string>, now: string)
    returns (r: Option<bool>)
    modifies store
    ensures !HasRecord(old(store.tables), name) ==> r.None? && store.tables == old(store.tables)
    ensures HasRecord(old(store.tables), name) ==>
      r == Some(true) && store.tables == DeleteEach(old(store.tables), EdgeKeys(Grants(name, "group", remove, "group")), now)
  {
    var present := Exists(store, name);
    if !present {
      return None;
    }
    RemoveEdges(store, Grants(name, "group", remove, "group"), now);
    r := Some(true);
  }

  /** `add_permissions`: None for an unknown group; otherwise create each missing permission edge. */
  method AddPermissions(store: Sqlite3AccessStore, name: string, permissions: seq<string>, now: string)
    returns (r: Option<bool>)
    modifies store
    ensures !HasRecord(old(store.tables), name) ==> r.None? && store.tables == old(store.tables)
    ensures HasRecord(old(store.tables), name) ==>
      r == Some(true) && store.tables == CreateMissing(old(store.tables), Grants(name, "group", permissions, "permission"), now)
  {
    var present := Exists(store, name);
    if !present {
      return None;
    }
    AddMissing(store, Grants(name, "group", permissions, "permission"), now);
    r := Some(true);
  }

  /** `remove_permissions`: None for an unknown group; otherwise delete each permission edge. */
  method RemovePermissions(store: Sqlite3AccessStore, name: string, permissions: seq<string>, now: string)
    returns (r: Option<bool>)
    modifies store
    ensures !HasRecord(old(store.tables), name) ==> r.None? && store.tables == old(store.tables)
    ensures HasRecord(old(store.tables), name) ==>
      r == Some(true) && store.tables == DeleteEach(old(store.tables), EdgeKeys(Grants(name, "group", permissions, "permission")), now)
  {
    var present := Exists(store, name);
    if !present {
      return None;
    }
    RemoveEdges(store, Grants(name, "group", permissions, "permission"), now);
    r := Some(true);
  }

  /** `add_users`: None for an unknown group; otherwise create each missing membership edge. */
  method AddUsers(store: Sqlite3AccessStore, name: string, users: seq<string>, now: string)
    returns (r: Option<bool>)
    modifies store
    ensures !HasRecord(old(store.tables), name) ==> r.None? && store.tables == old(store.tables)
    ensures HasRecord(old(store.tables), name) ==>
      r == Some(true) && store.tables == CreateMissing(old(store.tables), Members(users, name), now)
  {
    var present := Exists(store, name);
    if !present {
      return None;
    }
    AddMissing(store, Members(users, name), now);
    r := Some(true);
  }

  /** `remove_users`: None for an unknown group; otherwise delete each membership edge. */
  method RemoveUsers(store: Sqlite3AccessStore, name: string, users: seq<string>, now: string)
    returns (r: Option<bool>)
    modifies store
    ensures !HasRecord(old(store.tables), name) ==> r.None? && store.tables == old(store.tables)
    ensures HasRecord(old(store.tables), name) ==>
      r == Some(true) && store.tables == DeleteEach(old(store.tables), EdgeKeys(Members(users, name)), now)
  {
    var present := Exists(store, name);
    if !present {
      return None;
    }
    RemoveEdges(store, Members(users, name), now);
    r := Some(true);
  }

  // ---------------------------------------------------------------------
  // add / delete / change_name / duplicate
  // ---------------------------------------------------------------------

  /** The store after `add` of a group that does not exist yet. */
  function AddDb(db: Db, name: string, permissions: seq<string>, inherits: seq<string>, users: seq<string>, now: string): Db
  {
    var put := PutDb(db, name, GroupRecord(name, now), now);
    var granted := CreateMissing(put, Grants(name, "group", permissions, "permission"), now);
    var joined := CreateMissing(granted, Members(users, name), now);
    CreateMissing(joined, Grants(name, "group", inherits, "group"), now)
  }

  /** `add`: false for an existing group; otherwise write its record, then its missing edges. */
  method Add(store: Sqlite3AccessStore, name: string, permissions: seq<string>, inherits: seq<string>,
             users: seq<string>, now: string)
    returns (r: bool)
    modifies store
    ensures HasRecord(old(store.tables), name) ==> !r && store.tables == old(store.tables)
    ensures !HasRecord(old(store.tables), name) ==>
      r && store.tables == AddDb(old(store.tables), name, permissions, inherits, users, now)
  {
    var present := Exists(store, name);
    if present {
      return false;
    }
    ghost var start := store.tables;
    GroupRecordPlain(name, now);
    PutMakesRecord(store.tables, name, GroupRecord(name, now), now);
    var res := Put(store, name, GroupRecord(name, now), now);
    ghost var put := store.tables;
    var _ := AddPermissions(store, name, permissions, now);
    CreateMissingMakesEdges(put, Grants(name, "group", permissions, "permission"), now);
    AddMissing(store, Members(users, name), now);
    ghost var joined := store.tables;
    CreateMissingMakesEdges(CreateMissing(put, Grants(name, "group", permissions, "permission"), now), Members(users, name), now);
    assert HasRecord(joined, name);
    var _ := AddInherits(store, name, inherits, now);
    r := res == Ok(true);
  }

  /**
   * After `add` of a new group, the group exists, holds every listed
   * permission and inherited group, contains every listed user, and every
   * relationship key present before is still present.
   */
  lemma AddMakesGroup(db: Db, name: string, permissions: seq<string>, inherits: seq<string>, users: seq<string>, now: string)
    requires !HasRecord(db, name)
    ensures var after := AddDb(db, name, permissions, inherits, users, now);
      && HasRecord(after, name)
      && (forall p | p in permissions :: HasEdge(after, Edge(name, "group", p, "permission")))
      && (forall u | u in users :: HasEdge(after, Edge(u, "user", name, "group")))
      && (forall g | g in inherits :: HasEdge(after, Edge(name, "group", g, "group")))
      && (forall key | AnyId(Rows(db, RelationshipsTable), key) :: AnyId(Rows(after, RelationshipsTable), key))
  {
    var put := PutDb(db, name, GroupRecord(name, now), now);
    var pe, ue, ge := Grants(name, "group", permissions, "permission"), Members(users, name), Grants(name, "group", inherits, "group");
    GroupRecordPlain(name, now);
    PutMakesRecord(db, name, GroupRecord(name, now), now);
    AddStagesKeep(put, pe, ue, ge, now);
    forall p | p in permissions
      ensures Edge(name, "group", p, "permission") in pe
    {
      var i :| 0 <= i < |permissions| && permissions[i] == p;
      assert pe[i] in pe;
    }
    forall u | u in users
      ensures Edge(u, "user", name, "group") in ue
    {
      var i :| 0 <= i < |users| && users[i] == u;
      assert ue[i] in ue;
    }
    forall g | g in inherits
      ensures Edge(name, "group", g, "group") in ge
    {
      var i :| 0 <= i < |inherits| && inherits[i] == g;
      assert ge[i] in ge;
    }
  }

  /**
   * Creating three lists of missing edges in turn leaves every edge of each
   * list present, keeps every key present before, and keeps the groups table.
   */
  lemma AddStagesKeep(db: Db, pe: seq<Edge>, ue: seq<Edge>, ge: seq<Edge>, now: string)
    ensures var after := CreateMissing(CreateMissing(CreateMissing(db, pe, now), ue, now), ge, now);
      && Rows(after, GroupsTable) == Rows(db, GroupsTable)
      && (forall e | e in pe || e in ue || e in ge :: HasEdge(after, e))
      && (forall key | AnyId(Rows(db, RelationshipsTable), key) :: AnyId(Rows(after, RelationshipsTable), key))
  {
    var granted := CreateMissing(db, pe, now);
    var joined := CreateMissing(granted, ue, now);
    var after := CreateMissing(joined, ge, now);
    forall e | e in pe || e in ue || e in ge
      ensures HasEdge(after, e)
    {
      if e in pe {
        CreateMissingMakesEdges(db, pe, now);
        CreateMissingKeepsEdge(granted, ue, now, e);
        CreateMissingKeepsEdge(joined, ge, now, e);
      } else if e in ue {
        CreateMissingMakesEdges(granted, ue, now);
        CreateMissingKeepsEdge(joined, ge, now, e);
      } else {
        CreateMissingMakesEdges(joined, ge, now);
      }
    }
    forall key | AnyId(Rows(db, RelationshipsTable), key)
      ensures AnyId(Rows(after, RelationshipsTable), key)
    {
      CreateMissingKeepsKey(db, pe, now, key);
      CreateMissingKeepsKey(granted, ue, now, key);
      CreateMissingKeepsKey(joined, ge, now, key);
    }
    assert Rows(after, GroupsTable) == Rows(db, GroupsTable) by {
      CreateMissingMakesEdges(db, pe, now);
      CreateMissingMakesEdges(granted, ue, now);
      CreateMissingMakesEdges(joined, ge, now);
    }
  }

  /** Creating missing edges keeps every relationship key already present. */
  lemma CreateMissingKeepsKey(db: Db, edges: seq<Edge>, now: string, key: Value)
    requires AnyId(Rows(db, RelationshipsTable), key)
    ensures AnyId(Rows(CreateMissing(db, edges, now), RelationshipsTable), key)
  {
    CreateMissingMakesEdges(db, edges, now);
  }

  /** Creating missing edges keeps every edge already present. */
  lemma CreateMissingKeepsEdge(db: Db, edges: seq<Edge>, now: string, e: Edge)
    requires HasEdge(db, e)
    ensures HasEdge(CreateMissing(db, edges, now), e)
  {
    CreateMissingKeepsKey(db, edges, now, Str(Id(e)));
  }

  /** The relationships of one principal, as the intended `delete_all(Args(name, "group"))` selects them. */
  lemma DeleteGroupWhere(name: string)
    ensures DeleteAllWhere(Args(Some(name), Some("group"), None, None)) ==
      if name == "" then Err(ValueError) else Ok(Some(PrincipalWhere(name, "group")))
  {
  }

  /** The store after `delete` of an existing group: its record, then its own relationships. */
  function DeleteGroupDb(db: Db, name: string, now: string): Db
  {
    var mid := DeleteDb(db, Str(name), GroupsTable, None, now);
    if name == "" then mid
    else DeleteEach(mid, IdColumn(FetchAll(mid, RelationshipsTable, Some(PrincipalWhere(name, "group")))), now)
  }

  /**
   * `delete`: true for an unknown group; otherwise remove the record and every
   * relationship whose principal is the group. The empty name fails the
   * checks of `delete_all` after the record is gone.
   */
  method Delete(store: Sqlite3AccessStore, name: string, now: string) returns (r: Result<bool>)
    modifies store
    ensures !HasRecord(old(store.tables), name) ==> r == Ok(true) && store.tables == old(store.tables)
    ensures HasRecord(old(store.tables), name) ==>
      r == (if name == "" then Err(ValueError) else Ok(true)) && store.tables == DeleteGroupDb(old(store.tables), name, now)
  {
    var present := Exists(store, name);
    if !present {
      return Ok(true);
    }
    var res := store.Delete(Str(name), GroupsTable, None, now);
    DeleteGroupWhere(name);
    var n := DeleteAll(store, Args(Some(name), Some("group"), None, None), now);
    if n.Err? {
      return Err(n.error);
    }
    r := Ok(res);
  }

  /**
   * After `delete`, the group no longer exists and no relationship with a
   * text id whose principal is the group survives.
   */
  lemma DeleteRemovesGroup(db: Db, name: string, now: string)
    requires name != ""
    ensures !HasRecord(DeleteGroupDb(db, name, now), name)
    ensures forall r | r in Rows(DeleteGroupDb(db, name, now), RelationshipsTable) && IdCell(r).Str? ::
      !MatchesAll(r, PrincipalWhere(name, "group"))
  {
    var mid := DeleteDb(db, Str(name), GroupsTable, None, now);
    var w := PrincipalWhere(name, "group");
    var keys := IdColumn(FetchAll(mid, RelationshipsTable, Some(w)));
    var after := DeleteEach(mid, keys, now);
    DeleteEachKeepsGroups(mid, keys, now);
    var groups := Rows(after, GroupsTable);
    forall i | 0 <= i < |groups|
      ensures !HasId(groups[i], Str(name))
    {
      assert groups[i] in groups;
      assert MatchesAll(groups[i], IdCond(Str(name))) <==> HasId(groups[i], Str(name));
    }
    DeleteAllRemovesMatches(mid, Some(w), now);
    var sel := Selected(Rows(mid, RelationshipsTable), Some(w));
    assert forall r :: r in sel <==> r in Rows(mid, RelationshipsTable) && MatchesAll(r, w);
    forall r | r in Rows(after, RelationshipsTable) && IdCell(r).Str?
      ensures !MatchesAll(r, w)
    {
      assert HasId(r, Sqlite3.Decode(IdCell(r)));
    }
  }

  /** The record `change_name` writes back: the stored record with its "name" set. */
  function Renamed(db: Db, name: string, newName: string): Row
  {
    match Fetch(db, name, GroupsTable)
    case Found(record) => record["name" := Str(newName)]
    case _ => map[]
  }

  /**
   * `change_name`: false for an unknown group or a taken new name; otherwise
   * store the new name in the record, which stays under its old key.
   */
  method ChangeName(store: Sqlite3AccessStore, name: string, newName: string, now: string) returns (r: bool)
    modifies store
    ensures !HasRecord(old(store.tables), name) || HasRecord(old(store.tables), newName) ==>
      !r && store.tables == old(store.tables)
    ensures HasRecord(old(store.tables), name) && !HasRecord(old(store.tables), newName) ==>
      r && store.tables == PutDb(old(store.tables), name, Renamed(old(store.tables), name, newName), now)
  {
    var record := Get(store, name);
    if record.None? {
      return false;
    }
    var taken := Exists(store, newName);
    if taken {
      return false;
    }
    RenamedKeepsId(store.tables, name, newName);
    var _ := Put(store, name, record.value["name" := Str(newName)], now);
    r := true;
  }

  lemma RenamedKeepsId(db: Db, name: string, newName: string)
    requires HasRecord(db, name)
    ensures HasId(EncodeRow(Renamed(db, name, newName)), Str(name))
    ensures "name" in EncodeRow(Renamed(db, name, newName))
    ensures EncodeRow(Renamed(db, name, newName))["name"] == Str(newName)
  {
    var rows := Rows(db, GroupsTable);
    var i := FirstWithId(rows, Str(name)).value;
    assert rows[i]["id"] == Str(name);
  }

  /**
   * `change_name` does not move the group: afterwards the group is still
   * found under its old name, not under the new one, and its record holds the
   * new name as a field.
   */
  lemma ChangeNameKeepsKey(db: Db, name: string, newName: string, now: string)
    requires HasRecord(db, name) && !HasRecord(db, newName)
    ensures var after := PutDb(db, name, Renamed(db, name, newName), now);
      && HasRecord(after, name)
      && !HasRecord(after, newName)
      && forall row | row in Rows(after, GroupsTable) && HasId(row, Str(name)) :: "name" in row && row["name"] == Str(newName)
  {
    var rows := Rows(db, GroupsTable);
    var rec := EncodeRow(Renamed(db, name, newName));
    RenamedKeepsId(db, name, newName);
    assert name != newName;
    UpsertKeepsOneRecord(rows, Str(name), rec);
    UpsertIdsFrom(rows, Str(name), rec, Str(newName));
    var out := Upsert(rows, Str(name), rec).value;
    CountIdZero(out, Str(name));
    forall row | row in out && HasId(row, Str(name))
      ensures "name" in row && row["name"] == Str(newName)
    {
      var j :| 0 <= j < |out| && out[j] == row;
    }
  }

  /** The store after `duplicate(name, new_name)` of an existing group into a free name. */
  function DuplicateDb(db: Db, name: string, newName: string, now: string): Db
  {
    var added := AddDb(db, newName, [], [], [], now);
    CreateEach(added, CopiedEdges(FetchAll(added, RelationshipsTable, Some(PrincipalWhere(name, "group"))), newName, "group"), now)
  }

  /**
   * `duplicate`: false when the new name is taken, None when the group does
   * not exist; otherwise add the new group and copy the old group's
   * relationships to it.
   */
  method Duplicate(store: Sqlite3AccessStore, name: string, newName: string, now: string) returns (r: Option<bool>)
    modifies store
    ensures HasRecord(old(store.tables), newName) ==> r == Some(false) && store.tables == old(store.tables)
    ensures !HasRecord(old(store.tables), newName) && !HasRecord(old(store.tables), name) ==>
      r.None? && store.tables == old(store.tables)
    ensures !HasRecord(old(store.tables), newName) && HasRecord(old(store.tables), name) ==>
      r == Some(true) && store.tables == DuplicateDb(old(store.tables), name, newName, now)
  {
    var taken := Exists(store, newName);
    if taken {
      return Some(false);
    }
    var present := Exists(store, name);
    if !present {
      return None;
    }
    var _ := Add(store, newName, [], [], [], now);
    var _ := Copy(store, name, "group", newName, "group", now);
    r := Some(true);
  }

  /** The granted type of a stored row, as it is read back. */
  function GrantedType(row: Row): string
  {
    Text(Sqlite3.Decode(if "granted_type" in row then row["granted_type"] else Null))
  }

  lemma ReadGrantedType(row: Row)
    ensures "granted_type" in Fill(DecodeRow(row), RelationshipsTable)
    ensures Text(Fill(DecodeRow(row), RelationshipsTable)["granted_type"]) == GrantedType(row)
  {
    TableFieldsKeys(RelationshipsTable);
  }

  /**
   * After `duplicate`, the new group exists and holds an edge to everything
   * the old group was granted, with the same granted type.
   */
  lemma DuplicateCopiesGrants(db: Db, name: string, newName: string, now: string)
    requires HasRecord(db, name) && !HasRecord(db, newName)
    ensures var after := DuplicateDb(db, name, newName, now);
      && HasRecord(after, newName)
      && forall row | row in Rows(db, RelationshipsTable) && MatchesAll(row, PrincipalWhere(name, "group")) ::
           HasEdge(after, Edge(newName, "group", Granted(row), GrantedType(row)))
  {
    var added := AddDb(db, newName, [], [], [], now);
    assert added == PutDb(db, newName, GroupRecord(newName, now), now);
    GroupRecordPlain(newName, now);
    PutMakesRecord(db, newName, GroupRecord(newName, now), now);
    var w := PrincipalWhere(name, "group");
    var ships := FetchAll(added, RelationshipsTable, Some(w));
    var edges := CopiedEdges(ships, newName, "group");
    CreateEachMakesEdges(added, edges, now);
    CreateEachKeepsGroups(added, edges, now);
    forall row | row in Rows(db, RelationshipsTable) && MatchesAll(row, w)
      ensures HasEdge(CreateEach(added, edges, now), Edge(newName, "group", Granted(row), GrantedType(row)))
    {
      FetchAllReturnsMatches(added, RelationshipsTable, w, Fill(DecodeRow(row), RelationshipsTable));
      var i :| 0 <= i < |ships| && ships[i] == Fill(DecodeRow(row), RelationshipsTable);
      ReadGranted(row);
      ReadGrantedType(row);
      assert edges[i] in edges;
    }
  }

  /** Creating edges touches only the relationships and admin-events tables. */
  lemma {:induction false} CreateEachKeepsGroups(db: Db, edges: seq<Edge>, now: string)
    ensures Rows(CreateEach(db, edges, now), GroupsTable) == Rows(db, GroupsTable)
  {
    if edges != [] {
      CreateEachKeepsGroups(db, edges[..|edges| - 1], now);
      CreateKeepsGroups(CreateEach(db, edges[..|edges| - 1], now), edges[|edges| - 1], now);
    }
  }

  // ---------------------------------------------------------------------
  // inherits / permissions
  // ---------------------------------------------------------------------

  /** What `group_group_all(name)` asks `get_all` for: the groups the group inherits. */
  function InheritsArgs(name: string): Args
  {
    Args(Some(name), Some("group"), None, Some("group"))
  }

  /** What `group_permission_all(name)` asks `get_all` for: the group's permissions. */
  function PermissionsArgs(name: string): Args
  {
    Args(Some(name), Some("group"), None, Some("permission"))
  }

  /** The groups a group inherits directly, in table order. */
  function ChildSeq(db: Db, name: string): seq<string>
  {
    GrantedOf(db, InheritsArgs(name))
  }

  /** Every name some relationship grants: inheritance never leaves this set. */
  function GrantedNames(db: Db): set<string>
  {
    set r | r in Rows(db, RelationshipsTable) :: Granted(r)
  }

  /** The inheritance graph of a store. */
  ghost function GroupKids(db: Db): string -> seq<string>
  {
    x => ChildSeq(db, x)
  }

  ghost function Recorded(db: Db): string -> bool
  {
    x => HasRecord(db, x)
  }

  /** Every group a group inherits directly is granted by some relationship. */
  lemma ChildrenGranted(db: Db)
    ensures Closed(GroupKids(db), GrantedNames(db))
  {
    forall x, g | g in GroupKids(db)(x)
      ensures g in GrantedNames(db)
    {
      GrantedOfMembers(db, InheritsArgs(x), g);
    }
  }

  /** The value of `inherits(name, already)` on a store. */
  ghost function GroupInherits(db: Db, name: string, already: set<string>): set<string>
  {
    ChildrenGranted(db);
    InheritsFrom(GroupKids(db), Recorded(db), GrantedNames(db), name, already)
  }

  /** What the loop of `inherits` collects over a list of direct groups. */
  ghost function GroupExpand(db: Db, already: set<string>, children: seq<string>): set<string>
    requires forall g | g in children :: g in GrantedNames(db)
  {
    ChildrenGranted(db);
    Expand(GroupKids(db), Recorded(db), GrantedNames(db), already, children)
  }

  /**
   * `inherits`: `already` for a group without a record; otherwise every
   * group reached from its direct groups, never re-entering `already`.
   */
  method Inherits(store: Sqlite3AccessStore, name: string, already: set<string>) returns (out: set<string>)
    ensures out == GroupInherits(store.tables, name, already)
    decreases |GrantedNames(store.tables) - already|, 1
  {
    ChildrenGranted(store.tables);
    var record := Get(store, name);
    if record.None? {
      return already;
    }
    var children := Relationship.GetAll(store, InheritsArgs(name));
    assert children == GroupKids(store.tables)(name);
    var found := InheritsLoop(store, already, children);
    out := found + already;
  }

  /** The loop of `inherits` over the direct groups `children`. */
  method InheritsLoop(store: Sqlite3AccessStore, already: set<string>, children: seq<string>) returns (found: set<string>)
    requires forall g | g in children :: g in GrantedNames(store.tables)
    ensures found == GroupExpand(store.tables, already, children)
    decreases |GrantedNames(store.tables) - already|, 0
  {
    ghost var kids, recorded, names := GroupKids(store.tables), Recorded(store.tables), GrantedNames(store.tables);
    ChildrenGranted(store.tables);
    found := {};
    var i := 0;
    while i < |children|
      invariant 0 <= i <= |children|
      invariant found == Expand(kids, recorded, names, already, children[..i])
    {
      var g := children[i];
      ExpandStep(kids, recorded, names, already, children, i);
      if g !in already {
        LessUnseen(names, already, g);
        var sub := Inherits(store, g, already + {g});
        found := found + ({g} + sub);
      }
      i := i + 1;
    }
    assert children[..i] == children;
  }

  /**
   * `inherits(name)` is exactly the set of groups reachable from `name`
   * along inheritance edges that leave groups with a record; `name` itself
   * is in it only when such a chain leads back to it.
   */
  lemma GroupInheritsReach(db: Db, name: string)
    ensures GroupInherits(db, name, {}) == Reach(GroupKids(db), Recorded(db), GrantedNames(db), name)
    ensures name in GroupInherits(db, name, {}) <==> exists p :: ChainFromTo(GroupKids(db), Recorded(db), p, name, name)
    ensures !HasRecord(db, name) ==> GroupInherits(db, name, {}) == {}
  {
    ChildrenGranted(db);
    InheritsReach(GroupKids(db), Recorded(db), GrantedNames(db), name);
  }

  /** The permissions `group_permission_all` lists for a group. */
  function PermSeq(db: Db, name: string): seq<string>
  {
    GrantedOf(db, PermissionsArgs(name))
  }

  /** The permissions granted to any group of a set. */
  ghost function PermsOf(db: Db, groups: set<string>): set<string>
  {
    set g, p | g in groups && p in PermSeq(db, g) :: p
  }

  lemma PermsOfAdd(db: Db, groups: set<string>, g: string)
    ensures PermsOf(db, groups + {g}) == PermsOf(db, groups) + set p | p in PermSeq(db, g)
  {
  }

  /** The loop that gathers `group_permission_all` of each group of a set. */
  method PermissionsOfGroups(store: Sqlite3AccessStore, groups: set<string>) returns (perms: set<string>)
    ensures perms == PermsOf(store.tables, groups)
  {
    perms := {};
    var todo := groups;
    while todo != {}
      invariant todo <= groups
      invariant perms == PermsOf(store.tables, groups - todo)
      decreases |todo|
    {
      var g :| g in todo;
      var gperms := Relationship.GetAll(store, PermissionsArgs(g));
      PermsOfAdd(store.tables, groups - todo, g);
      assert groups - (todo - {g}) == (groups - todo) + {g};
      perms := perms + set p | p in gperms;
      todo := todo - {g};
    }
    assert groups - todo == groups;
  }

  /**
   * `permissions`: the empty list for a group without a record; otherwise its
   * own permissions and those of every group it inherits.
   */
  method Permissions(store: Sqlite3AccessStore, name: string) returns (r: set<string>)
    ensures !HasRecord(store.tables, name) ==> r == {}
    ensures HasRecord(store.tables, name) ==> r == PermsOf(store.tables, {name} + GroupInherits(store.tables, name, {}))
  {
    var record := Get(store, name);
    if record.None? {
      return {};
    }
    var own := Relationship.GetAll(store, PermissionsArgs(name));
    var groups := Inherits(store, name, {});
    var perms := PermissionsOfGroups(store, groups);
    PermsOfAdd(store.tables, groups, name);
    assert {name} + groups == groups + {name};
    r := perms + set p | p in own;
  }

  /**
   * A group's permissions are exactly those granted to it or to a group
   * reachable from it along inheritance edges leaving groups with a record.
   */
  lemma PermissionsReach(db: Db, name: string, perm: string)
    ensures perm in PermsOf(db, {name} + GroupInherits(db, name, {})) <==>
      exists g | g == name || g in Reach(GroupKids(db), Recorded(db), GrantedNames(db), name) ::
        exists row | row in Rows(db, RelationshipsTable) :: Matches(row, PermissionsArgs(g)) && Granted(row) == perm
  {
    GroupInheritsReach(db, name);
    var reach := Reach(GroupKids(db), Recorded(db), GrantedNames(db), name);
    forall g
      ensures perm in PermSeq(db, g) <==>
        exists row | row in Rows(db, RelationshipsTable) :: Matches(row, PermissionsArgs(g)) && Granted(row) == perm
    {
      GrantedOfMembers(db, PermissionsArgs(g), perm);
    }
  }
}
