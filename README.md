# dash-access authorization ledger, modelled in Dafny

dash-access records who may do what as a ledger of relationships. A
relationship is an edge from a principal (a user or a group) to a granted
entity (a group or a permission). Every edge is one row of the
`relationships` table, keyed by its four fields joined with `-`. Groups
inherit from groups, so a user's permissions are the user's own plus those
of every group reachable from the user's groups. Every mutation of a store
writes an audit row to `admin_events`, and every access decision writes a
row to `access_events`.

The model has one module per source file:

- `Base` (`base.dfy`): the store contract of `BaseAccessStore` and the table
  semantics behind it. A table is a sequence of rows, and a row maps column
  names to values. `where` lists are conjunctions of SQL equalities, where
  NULL never compares equal. The module also models upserts by id, the
  `table_fields` defaults and the audit row.
- `Sqlite3` and `Postgres`: the two SQL stores. Each is a class whose
  `tables` field the methods update. Each method is proved against a
  function of the old state. The PostgreSQL store is proved to read back
  the same records as the SQLite one.
- `Relationship`: the ledger (`create`, `exists`, `get_all`, `delete`,
  `delete_all`, `copy`) over the SQLite store.
- `Inheritance`: the group graph in the abstract. It proves that the
  recursive `inherits` computes exactly reachability, and it proves facts
  about chains and cycles.
- `Group` and `User`: the group and user operations, with the `inherits`
  recursion, the breadth-first walk in `permissions`, and `has_access`.
- `RelationshipObjects`: the fluent builder layer (`Principal`, `Grant`,
  `GrantTo`, `GrantPrincipal`, the get, delete and copy passthroughs) and
  its type checks.
- `DevUtils`: the admin-page helpers. These are `field_change_factory`,
  `id_factory` and `toast`, plus the two transactional helpers
  `execute_change_operations` and `execute_update_operations`. The helpers
  work in place on an `array` of operations, and return the change and
  rollback calls they make.

Clocks are parameters (`now`, `ts`). Callables that the code receives
(validators, change, rollback, get and put functions) are function
parameters. Environment-variable table names are their documented
defaults.

## Model

| member | source | states |
|---|---|---|
| Base.TableFields | dash_access/clients/base.py:66-90 | every listed field defaults to None, and the keys are exactly the table's field names |
| Base.TableFieldsKeys | dash_access/clients/base.py:72-90 | the field sets of relationships, access_events and admin_events, and no fields for any other table |
| Base.DecodeEncode | dash_access/clients/base.py:48-58 | the base encode and decode round-trip every value |
| Base.Select | dash_access/clients/sqlite3.py:226-243 | a filtered read keeps exactly the rows that satisfy every condition, and never grows the table |
| Base.Reject | dash_access/clients/sqlite3.py:318-334 | a filtered delete keeps exactly the rows that fail some condition |
| Base.SelectRejectPartition | dash_access/clients/sqlite3.py:318-334 | the rows a delete removes and the rows it keeps make up the table, as a multiset |
| Base.SelectNoConditions | dash_access/clients/sqlite3.py:226-243 | an empty where list selects the whole table, in order |
| Base.Holds | dash_access/clients/sqlite3.py:226-243 | one `col = ?` condition of a select: the column holds the value, and a NULL never compares equal |
| Base.MatchesAll | dash_access/clients/sqlite3.py:226-243 | the `and` of every condition of a where list; `Base.Select` keeps exactly the rows satisfying it |
| Base.DeleteWhereBindingMismatch | dash_access/clients/sqlite3.py:318-334 | with a non-empty where list the statement as written has one placeholder more than it binds values, so the driver refuses it and the store is left as it was, in both stores; the delete by key goes through with the effect of the intended delete |
| Base.DeleteAsWrittenDb | dash_access/clients/postgres.py:311-331 | `_delete` as written: the statement and its bound values go to the driver, which refuses a count mismatch before the commit and the audit row |
| Base.DeleteCond | dash_access/clients/sqlite3.py:321-330 | the intended delete binds one value per condition |
| Base.DeleteRemovesSelected | dash_access/clients/sqlite3.py:302-334 | the intended delete removes exactly the rows `_get_all` selects with the same list, and keeps every other row |
| Base.FirstWithId | dash_access/clients/sqlite3.py:196-199 | `fetchone` finds the first row with the key, and None exactly when no row has it |
| Base.CountIdZero | dash_access/clients/sqlite3.py:284-294 | no row carries the key exactly when the count of such rows is zero |
| Base.UpdateById | dash_access/clients/sqlite3.py:284-291 | an update by id keeps the table's length |
| Base.UpdateByIdCount | dash_access/clients/sqlite3.py:284-291 | an update by id overwrites exactly the rows with that id, column by column, and keeps their number |
| Base.UpdateByIdAt | dash_access/clients/sqlite3.py:284-291 | an update by id overwrites each row holding that id with the record, column by column, and leaves every other row as it was |
| Base.UpdateByIdKeepsCount | dash_access/clients/sqlite3.py:284-291 | an update by id keeps the number of rows holding that id |
| Base.CountIdAppend | dash_access/clients/sqlite3.py:292-294 | an insert adds one to the key's count exactly when the new row carries the key |
| Base.UpsertKeepsOneRecord | dash_access/clients/sqlite3.py:254-299 | after `_set`, one row holds the key when none did, and otherwise as many as before; every such row carries the record, and the table grows by at most one row |
| Base.UpdateByIdTwice | dash_access/clients/sqlite3.py:284-291 | updating by id twice is the same as once |
| Base.UpdateByIdNoMatch | dash_access/clients/sqlite3.py:284-291 | an update whose id matches no row changes nothing |
| Base.UpsertIdempotent | dash_access/clients/sqlite3.py:254-299 | `_set` of the same record twice equals `_set` once |
| Base.UpdateByIdSplit | dash_access/clients/sqlite3.py:284-291 | an update by id acts on each part of a table independently |
| Base.UpsertKeepsIds | dash_access/clients/sqlite3.py:254-299 | `_set` never removes a key that was present |
| Base.UpsertIdsFrom | dash_access/clients/sqlite3.py:254-299 | `_set` adds no key other than the record's own |
| Base.Upsert | dash_access/clients/sqlite3.py:284-294 | the table effect of `_set`: an update by id when the key is present (KeyError when the record has no "id"), otherwise one appended row; its properties are `Base.UpsertKeepsOneRecord`, `Base.UpsertIdempotent`, `Base.UpsertKeepsIds` and `Base.UpsertIdsFrom` |
| Base.Fill | dash_access/clients/sqlite3.py:200-208 | a filled record keeps every stored field and adds each missing table field as None |
| Base.FillDefaults | dash_access/clients/sqlite3.py:205-208 | the default-filling loop yields the filled record |
| Base.Append | dash_access/clients/sqlite3.py:336-364 | an append adds one row at the end of one table and changes no other table |
| Base.AdminRow | dash_access/clients/sqlite3.py:63-97 | the audit row `admin_log` writes: time, the admin-events table name, the operation, and the values and where list serialized |
| Base.SetDb | dash_access/clients/sqlite3.py:254-299 | the store after `set`: the upsert plus one audit row, or None on KeyError; `Sqlite3.Sqlite3AccessStore.Set` is proved against it |
| Base.DeleteDb | dash_access/clients/sqlite3.py:302-334 | the store after the intended `delete`: the selected rows removed plus one audit row; `Sqlite3.Sqlite3AccessStore.Delete` is proved against it and `Base.DeleteRemovesSelected` states what it removes |
| Base.InsertDb | dash_access/clients/sqlite3.py:336-364 | the store after `insert`: one more row in the logging table and no audit row |
| Base.Encode | dash_access/clients/base.py:48-52 | the base store's encoder, the identity; `Base.DecodeEncode` is its round trip |
| Base.Decode | dash_access/clients/base.py:54-58 | the base store's decoder, the identity |
| Sqlite3.GetTable | dash_access/clients/sqlite3.py:150-164 | only the empty name raises ValueError; the four known names map to themselves; any other name gives None |
| Sqlite3.AdminLogTableName | dash_access/clients/sqlite3.py:63-97 | audit rows name the admin_events table, and "groups" is not a known table |
| Sqlite3.DecodeEncode | dash_access/clients/sqlite3.py:166-174 | a value reads back as written exactly when it is not already a byte string |
| Sqlite3.DecodeEncodeRow | dash_access/clients/sqlite3.py:166-174 | a record without byte strings survives a write and a read |
| Sqlite3.Encode | dash_access/clients/sqlite3.py:171-174 | dicts and lists are packed with msgpack, every other value is stored as it is; `Sqlite3.DecodeEncode` is its round trip |
| Sqlite3.Decode | dash_access/clients/sqlite3.py:166-169 | byte strings are unpacked, every other value is read as it is |
| Sqlite3.Fetch | dash_access/clients/sqlite3.py:176-210 | `_get` gives None exactly when no row has the key; otherwise it gives a decoded stored row with that key, holding every table field |
| Sqlite3.FetchAll | dash_access/clients/sqlite3.py:212-251 | `_get_all` returns one record per selected row |
| Sqlite3.FetchAllReturnsMatches | dash_access/clients/sqlite3.py:226-251 | `_get_all` with a where list returns a record exactly for each row that satisfies every condition |
| Sqlite3.FetchAllWithoutConditions | dash_access/clients/sqlite3.py:226-243 | no where list and an empty one both read the whole table |
| Sqlite3.Sqlite3AccessStore.constructor | dash_access/clients/sqlite3.py:125-148 | a new store starts with no tables |
| Sqlite3.Sqlite3AccessStore.Get | dash_access/clients/sqlite3.py:176-210 | the method returns `Fetch` of the current tables |
| Sqlite3.Sqlite3AccessStore.GetAll | dash_access/clients/sqlite3.py:212-251 | the loop returns `FetchAll` of the current tables |
| Sqlite3.Sqlite3AccessStore.AdminLog | dash_access/clients/sqlite3.py:63-97 | one audit row is appended, and the wrapped result is passed on |
| Sqlite3.Sqlite3AccessStore.Set | dash_access/clients/sqlite3.py:254-299 | the new tables are the encoded upsert plus its audit row; a KeyError when a key exists but the record has no id changes nothing |
| Sqlite3.Sqlite3AccessStore.Delete | dash_access/clients/sqlite3.py:302-334 | the intended delete removes the selected rows (or the rows with the key) and logs once |
| Sqlite3.Sqlite3AccessStore.Insert | dash_access/clients/sqlite3.py:336-364 | one encoded row is appended, with no audit row |
| Postgres.GetTable | dash_access/clients/postgres.py:118-132 | only the empty name raises; exactly the four known names map to themselves |
| Postgres.CodecAgreesWithSqlite | dash_access/clients/postgres.py:134-142 | cells are encoded and decoded as in the SQLite store, and round-trip exactly when they are not byte strings |
| Postgres.ColumnsMatchTableFields | dash_access/clients/postgres.py:12-41 | the CREATE statements list their columns in `table_fields` order |
| Postgres.ZipLookup | dash_access/clients/postgres.py:224-228 | `dict(zip(names, cells))` maps each distinct name to its own cell |
| Postgres.Fetch | dash_access/clients/postgres.py:144-186 | `_get` gives an empty list exactly when no row has the key; otherwise it gives a filled, decoded row with that key |
| Postgres.FetchAll | dash_access/clients/postgres.py:188-235 | `_get_all` returns one record per selected row |
| Postgres.DecodeRowAgrees | dash_access/clients/postgres.py:134-137 | rows decode as in the SQLite store |
| Postgres.GetAgreesWithSqlite | dash_access/clients/postgres.py:144-186 | both stores find the same record for a key; a miss is an empty list here and None there |
| Postgres.FieldNamesDistinct | dash_access/clients/base.py:72-90 | no table lists a field twice |
| Postgres.ZipByName | dash_access/clients/postgres.py:224-228 | naming a row's cells by position reads each named column |
| Postgres.FillByName | dash_access/clients/postgres.py:224-235 | positional naming plus defaults equals decoding by name plus defaults |
| Postgres.PositionalAgrees | dash_access/clients/postgres.py:224-228 | a row of a created table reads the same by position as by name |
| Postgres.GetAllAgreesWithSqlite | dash_access/clients/postgres.py:188-235 | for the three created tables, both stores' `_get_all` return the same records |
| Postgres.PostgresAccessStore.constructor | dash_access/clients/postgres.py:107-116 | a new store starts with no tables |
| Postgres.PostgresAccessStore.Get | dash_access/clients/postgres.py:144-186 | the method returns `Fetch` of the current tables |
| Postgres.PostgresAccessStore.GetAll | dash_access/clients/postgres.py:188-235 | the loop returns `FetchAll` of the current tables |
| Postgres.PostgresAccessStore.AdminLog | dash_access/clients/postgres.py:64-97 | one audit row is appended, and the wrapped result is passed on |
| Postgres.PostgresAccessStore.Set | dash_access/clients/postgres.py:238-289 | the new tables are the encoded upsert plus its audit row, or unchanged on KeyError |
| Postgres.PostgresAccessStore.Delete | dash_access/clients/postgres.py:292-331 | the intended delete removes the selected rows and logs once |
| Postgres.PostgresAccessStore.Insert | dash_access/clients/postgres.py:333-358 | one encoded row is appended, with no audit row |
| Relationship.JoinSplits | dash_access/access/relationship.py:53-67 | joining two dash-free names with "-" can be undone |
| Relationship.EdgeOf | dash_access/access/relationship.py:17-25 | the edge an `Args` names, or None when a field is still None (then `"-".join` raises TypeError) |
| Relationship.Id | dash_access/access/relationship.py:53-56 | the key of an edge, its four fields joined with "-"; `Relationship.IdInjective` and `Relationship.KeyCollision` say when keys are unique |
| Relationship.IdInjective | dash_access/access/relationship.py:53-67 | edges whose fields hold no "-" share a key exactly when they are equal |
| Relationship.KeyCollision | dash_access/access/relationship.py:53-67 | two different edges with a "-" inside a field share one key |
| Relationship.EncodeRecord | dash_access/access/relationship.py:53-67 | a relationship record is stored unchanged by the encoder |
| Relationship.CreateDb | dash_access/access/relationship.py:44-67 | the store after `create`: the edge's record set under its key; `Relationship.CreateMakesEdge` and `Relationship.CreateKeepsEdges` state its effect |
| Relationship.CreateMakesEdge | dash_access/access/relationship.py:44-67 | after `create` the edge exists, one row holds its key (when at most one did), that row holds the edge's fields and time stamp, and one audit row is added |
| Relationship.CreateKeepsEdges | dash_access/access/relationship.py:44-67 | `create` keeps every key that was present |
| Relationship.Create | dash_access/access/relationship.py:44-67 | TypeError and no change when a field is None; otherwise the edge's record is upserted and logged |
| Relationship.Exists | dash_access/access/relationship.py:71-87 | TypeError when a field is None; otherwise whether a row holds the edge's key |
| Relationship.WhereOfMatches | dash_access/access/relationship.py:95-109 | the built where list selects exactly the rows that agree with every truthy field |
| Relationship.WhereOf | dash_access/access/relationship.py:95-109 | one equality per truthy field, in field order; `Relationship.WhereOfMatches` states what it selects |
| Relationship.GrantedOf | dash_access/access/relationship.py:90-114 | the granted names of the rows the where list selects, in table order; `Relationship.GrantedOfMembers` states its members |
| Relationship.GrantedColumn | dash_access/access/relationship.py:110-114 | one granted name per row |
| Relationship.GrantedOfMembers | dash_access/access/relationship.py:90-114 | `get_all` yields a name exactly when an agreeing relationship grants it, once per such relationship |
| Relationship.ReadGranted | dash_access/access/relationship.py:110-114 | a record read back holds the granted name of its row |
| Relationship.BuildWhere | dash_access/access/relationship.py:95-109 | the field-by-field loop builds the where list of the truthy fields |
| Relationship.GetAll | dash_access/access/relationship.py:90-114 | `get_all` returns the granted names of the agreeing relationships, in table order |
| Relationship.DeleteRemovesEdge | dash_access/access/relationship.py:117-129 | after the intended delete no row holds the edge's key, and every other row is kept |
| Relationship.DeleteAsWritten | dash_access/access/relationship.py:117-129 | `delete` as written fails with AttributeError on every call, since `Args` has no `granteded` |
| Relationship.Delete | dash_access/access/relationship.py:117-129 | TypeError and no change when a field is None; otherwise the rows with the edge's key are deleted and logged |
| Relationship.DeleteAllWhere | dash_access/access/relationship.py:140-156 | ValueError exactly when both or neither pair is complete; TypeError exactly for a type out of range; otherwise a two-condition where list |
| Relationship.GrantedOnlySelectsEverything | dash_access/access/relationship.py:140-172 | with only a granted name, the checks as written pass with no where list, which selects every relationship |
| Relationship.DeleteAllWhereAsWritten | dash_access/access/relationship.py:140-172 | the checks of `delete_all` as written and the where list they leave; `Relationship.GrantedOnlySelectsEverything` shows the case they let through |
| Relationship.DeleteEach | dash_access/access/relationship.py:178-179 | the store after deleting, one key after the other, each fetched id; `Relationship.DeleteEachKeeps` states its effect |
| Relationship.IdColumn | dash_access/access/relationship.py:174-181 | one id per fetched row |
| Relationship.DeleteEachKeeps | dash_access/access/relationship.py:174-181 | deleting key by key keeps exactly the rows with none of the keys, and logs one row per key |
| Relationship.DeleteSelected | dash_access/access/relationship.py:158-181 | fetch the selected rows, delete each by id, and report how many |
| Relationship.ReadId | dash_access/access/relationship.py:174-181 | a record read back holds its row's decoded id |
| Relationship.DeleteAllRemovesMatches | dash_access/access/relationship.py:158-181 | a relationship survives exactly when it holds none of the selected ids, and one audit row is written per selected row |
| Relationship.DeleteAll | dash_access/access/relationship.py:132-181 | with the intended checks: an error and no change, or the relationships of the one pair deleted and counted |
| Relationship.DeleteAllAsWritten | dash_access/access/relationship.py:132-181 | the same deletion behind the checks as written |
| Relationship.CopiedEdges | dash_access/access/relationship.py:204-216 | one new edge per source relationship |
| Relationship.CreateEach | dash_access/access/relationship.py:204-216 | the store after creating the edges in turn; `Relationship.CreateEachMakesEdges` states its effect |
| Relationship.CreateEachMakesEdges | dash_access/access/relationship.py:204-216 | creating edges in turn leaves each one in place and keeps every prior key |
| Relationship.Copy | dash_access/access/relationship.py:184-216 | the new tables are the old ones with an edge created for each source relationship, with the same granted name and type |
| Relationship.CopyGrantsSame | dash_access/access/relationship.py:184-216 | after copy the new principal holds an edge for every relationship of the old one, and no key is lost |
| Inheritance.LessUnseen | dash_access/access/group.py:173-194 | marking a new group as seen shrinks the unseen set, so the recursion ends |
| Inheritance.InheritsFrom | dash_access/access/group.py:173-194 | the recursion of `inherits`: nothing new for a group without a record, otherwise what the loop over its children collects; `Inheritance.InheritsFromChains` characterises it |
| Inheritance.Expand | dash_access/access/group.py:185-193 | the loop of `inherits` over the children: each child not yet seen, plus what it inherits; `Inheritance.ExpandMembers` characterises it |
| Inheritance.Reach | dash_access/access/group.py:173-194 | the groups reachable from a group by a chain of inheritance edges out of recorded groups, the reference definition `Inheritance.InheritsReach` equates with `inherits` |
| Inheritance.ExpandStep | dash_access/access/group.py:185-193 | one more child processed by the loop of `inherits` |
| Inheritance.ChainEnd | dash_access/access/group.py:173-194 | every chain ends inside the set of granted names |
| Inheritance.ExpandMembers | dash_access/access/group.py:185-193 | the loop collects a group exactly when it is a fresh child or is inherited by one |
| Inheritance.StepIn | dash_access/access/group.py:185-193 | an edge followed by a fresh chain is a fresh chain |
| Inheritance.StepOut | dash_access/access/group.py:185-193 | a fresh chain starts with an edge out of a recorded group |
| Inheritance.NotRecordedNothingReached | dash_access/access/group.py:180-182 | a group without a record reaches nothing |
| Inheritance.InheritsFromChains | dash_access/access/group.py:173-194 | `inherits(x, already)` is `already` plus every group reached by a chain that avoids it |
| Inheritance.Shorten | dash_access/access/group.py:173-194 | a chain that revisits a group can be cut to one that does not |
| Inheritance.InheritsReach | dash_access/access/group.py:173-194 | `inherits(x)` is exactly the set of groups reachable from x, and x is in it only on a cycle |
| Inheritance.ChainWithin | dash_access/access/user.py:71-84 | a chain from a closed set stays in it |
| Inheritance.ReachWithin | dash_access/access/user.py:71-84 | a set closed under the edges holds everything reachable from its members |
| Inheritance.ReachTransitive | dash_access/access/user.py:71-84 | reachability composes |
| Inheritance.ReachEdge | dash_access/access/user.py:71-84 | a direct edge out of a recorded group is reachable |
| Inheritance.ReachMonotone | dash_access/access/user.py:71-84 | requiring fewer records can only reach more |
| Group.Get | dash_access/access/group.py:10-25 | None exactly when the group has no record; otherwise its fetched record |
| Group.GetAll | dash_access/access/group.py:28-29 | every group record, decoded and filled, one per row |
| Group.Exists | dash_access/access/group.py:39-41 | whether the group has a record |
| Group.Put | dash_access/access/group.py:32-36 | the groups table is upserted under the name and logged, or unchanged on KeyError |
| Group.PutMakesRecord | dash_access/access/group.py:32-36 | writing a record whose id is the name makes the group exist, and leaves the relationships alone |
| Group.Grants | dash_access/access/group.py:139-145 | one edge per granted name |
| Group.Members | dash_access/access/group.py:156-162 | one membership edge per user |
| Group.CreateMissingStep | dash_access/access/group.py:123-129 | one more edge of the create-if-missing loop |
| Group.CreateMissing | dash_access/access/group.py:123-129 | the store after creating, in turn, each listed edge that does not exist yet; `Group.CreateMissingMakesEdges` and `Group.CreateMissingIdempotent` state its effect |
| Group.AddMissing | dash_access/access/group.py:123-129 | the loop creates exactly the edges that do not exist yet |
| Group.CreateKeepsGroups | dash_access/access/relationship.py:44-67 | creating an edge leaves the groups table alone |
| Group.CreateMissingMakesEdges | dash_access/access/group.py:123-129 | afterwards every listed edge exists, every prior key remains, and the groups table is untouched |
| Group.CreateMissingNothingMissing | dash_access/access/group.py:123-129 | when every edge exists nothing is written, not even an audit row |
| Group.CreateMissingIdempotent | dash_access/access/group.py:123-129 | adding the same edges twice writes nothing the second time |
| Group.EdgeKeys | dash_access/access/group.py:132-137 | one key per edge |
| Group.RemoveEdges | dash_access/access/group.py:132-137 | the loop deletes each edge by its key |
| Group.DeleteEachKeepsGroups | dash_access/access/group.py:132-137 | deleting edges leaves the groups table alone |
| Group.RemoveEdgesRemoves | dash_access/access/group.py:132-137 | afterwards no listed edge exists, and every other relationship is kept |
| Group.AddInherits | dash_access/access/group.py:123-129 | None and no change for an unknown group; otherwise the missing inheritance edges are created |
| Group.RemoveInherits | dash_access/access/group.py:132-137 | None and no change for an unknown group; otherwise each inheritance edge is deleted |
| Group.AddPermissions | dash_access/access/group.py:139-145 | None and no change for an unknown group; otherwise the missing permission edges are created |
| Group.RemovePermissions | dash_access/access/group.py:148-153 | None and no change for an unknown group; otherwise each permission edge is deleted |
| Group.AddUsers | dash_access/access/group.py:156-162 | None and no change for an unknown group; otherwise the missing membership edges are created |
| Group.RemoveUsers | dash_access/access/group.py:165-170 | None and no change for an unknown group; otherwise each membership edge is deleted |
| Group.Add | dash_access/access/group.py:44-80 | false and no change for an existing group; otherwise the record and then the missing edges are written |
| Group.AddDb | dash_access/access/group.py:44-80 | the store after `add` of a new group: the record, then the missing permission, membership and inheritance edges; `Group.AddMakesGroup` states its effect |
| Group.AddMakesGroup | dash_access/access/group.py:44-80 | after add, the group exists with every listed permission, inherited group and user, and no key is lost |
| Group.DeleteGroupWhere | dash_access/access/group.py:83-89 | deleting a group's relationships selects by its principal pair |
| Group.DeleteGroupDb | dash_access/access/group.py:83-89 | the store after `delete` of a group: the record, then every relationship with the group as principal; `Group.DeleteRemovesGroup` states its effect |
| Group.Delete | dash_access/access/group.py:83-89 | true and no change for an unknown group; otherwise the record and the group's relationships are removed |
| Group.DeleteRemovesGroup | dash_access/access/group.py:83-89 | afterwards the group does not exist, and no relationship with the group as principal survives |
| Group.ChangeName | dash_access/access/group.py:92-102 | false and no change for an unknown group or a taken name; otherwise the record is rewritten with the new name |
| Group.Renamed | dash_access/access/group.py:92-102 | the record `change_name` writes: the old record with its name field replaced; `Group.RenamedKeepsId` states what it keeps |
| Group.RenamedKeepsId | dash_access/access/group.py:92-102 | the rewritten record keeps the old id and holds the new name |
| Group.ChangeNameKeepsKey | dash_access/access/group.py:92-102 | after a rename the group is still found under its old name, not the new one |
| Group.Duplicate | dash_access/access/group.py:105-120 | false for a taken name, None for an unknown group; otherwise a new group plus copies of the old group's relationships |
| Group.DuplicateDb | dash_access/access/group.py:105-120 | the store after `duplicate`: the new group, then a copy of each relationship of the old one; `Group.DuplicateCopiesGrants` states its effect |
| Group.ReadGrantedType | dash_access/access/relationship.py:110-114 | a record read back holds its row's granted type |
| Group.DuplicateCopiesGrants | dash_access/access/group.py:105-120 | the new group exists and holds an edge to everything the old group was granted, with the same type |
| Group.CreateEachKeepsGroups | dash_access/access/relationship.py:204-216 | creating edges leaves the groups table alone |
| Group.ChildrenGranted | dash_access/access/group.py:173-194 | every directly inherited group is a granted name |
| Group.GroupInherits | dash_access/access/group.py:173-194 | `inherits` over the store's inheritance edges; `Group.GroupInheritsReach` equates it with reachability |
| Group.Inherits | dash_access/access/group.py:173-194 | `inherits` returns the specified set |
| Group.InheritsLoop | dash_access/access/group.py:185-193 | the loop collects the specified set |
| Group.GroupInheritsReach | dash_access/access/group.py:173-194 | `inherits(name)` is exactly what the group reaches, holds the group only on a cycle, and is empty without a record |
| Group.PermsOfAdd | dash_access/access/group.py:207-214 | adding a group adds exactly its own permissions |
| Group.PermsOf | dash_access/access/group.py:207-214 | the permissions granted to any group of a set; `Group.PermsOfAdd` shows it grows group by group |
| Group.PermissionsOfGroups | dash_access/access/group.py:207-214 | the loop gathers the permissions of every group of the set |
| Group.Permissions | dash_access/access/group.py:197-215 | empty for an unknown group; otherwise the permissions of the group and everything it inherits |
| Group.PermissionsReach | dash_access/access/group.py:197-215 | a group holds a permission exactly when it, or a group it reaches, is granted it |
| User.AddGroups | dash_access/access/user.py:11-17 | the missing membership edges are created |
| User.RemoveGroups | dash_access/access/user.py:20-25 | each membership edge is deleted |
| User.AddPermissions | dash_access/access/user.py:28-33 | each permission edge is created, whether or not it exists |
| User.RemovePermissions | dash_access/access/user.py:36-41 | each permission edge is deleted |
| User.AddGroupsMakesMemberships | dash_access/access/user.py:11-17 | the user belongs to every listed group, and a repeat writes nothing |
| User.AddPermissionsMakesGrants | dash_access/access/user.py:28-33 | the user holds every listed permission |
| User.CreateTwice | dash_access/access/relationship.py:44-67 | creating an existing edge rewrites the same rows and logs once more |
| User.RemoveTakesOnlyListed | dash_access/access/user.py:20-41 | no listed edge survives, and every relationship with another key is kept |
| User.WithInheritedStep | dash_access/access/user.py:44-56 | one more direct group of the loop of `groups` |
| User.Groups | dash_access/access/user.py:44-56 | the direct groups, each with what `inherits` reports for it |
| User.GroupsClosed | dash_access/access/user.py:44-56 | the result holds every direct group and everything `inherits` reports for its members |
| User.ChildInClosure | dash_access/access/user.py:71-84 | a group of the closure reaches only groups of the closure |
| User.Closure | dash_access/access/user.py:59-84 | the direct groups with every group reachable from them, what the walk of `permissions` must find; `User.WalkDone` proves the walk finds it |
| User.WalkStep | dash_access/access/user.py:71-84 | expanding one unvisited group keeps the invariant of the walk |
| User.WalkDone | dash_access/access/user.py:71-84 | when nothing is left to fetch, the walk has found exactly the closure |
| User.InheritedGroups | dash_access/access/user.py:59-84 | the walk returns every group reachable from the direct groups, and ends on cycles |
| User.Permissions | dash_access/access/user.py:59-94 | the user's own permissions plus those of every group the walk finds |
| User.UserPermissions | dash_access/access/user.py:59-94 | the user's own permissions plus those of every group of the closure; `User.UserPermissionsMembers` characterises it |
| User.UserPermissionsMembers | dash_access/access/user.py:59-94 | a user holds a permission exactly when it is granted to the user or to a group reachable from the user's groups |
| User.UserCoversGroupPermissions | dash_access/access/user.py:59-94 | a user holds at least each of its groups' permissions as `group.permissions` reports them |
| User.PermissionAccess | dash_access/access/user.py:97-111 | one access-event row is inserted |
| User.HasAccess | dash_access/access/user.py:114-152 | None and no log without a user or permission; otherwise the decision, logged once |
| User.AccessLoggedOnce | dash_access/access/user.py:145-152 | a decision appends exactly one access event, whose status is the decision, and changes no other table |
| User.Wildcard | dash_access/access/user.py:139-142 | a user holding "*" is allowed everything; otherwise exactly what they hold |
| User.Allowed | dash_access/access/user.py:139-142 | the decision of `has_access`: the permission or "*" is held; `User.Wildcard` states it |
| RelationshipObjects.ValueCheck | dash_access/access/relationship_objects.py:19-24 | a TypeError exactly when the value is not among the allowed ones |
| RelationshipObjects.Checks | dash_access/access/relationship_objects.py:27-42 | a TypeError exactly when a truthy type is out of range; otherwise the arguments unchanged |
| RelationshipObjects.ChecksIgnoreFalsy | dash_access/access/relationship_objects.py:35-42 | falsy types are never checked and names never decide the outcome |
| RelationshipObjects.ChecksAgreeWithDeleteAll | dash_access/access/relationship_objects.py:27-42 | every type refused by `delete_all` is refused by `_checks` too |
| RelationshipObjects.NewPrincipalPair | dash_access/access/relationship_objects.py:50-53 | the pair is built exactly when its checks pass, holding the given fields |
| RelationshipObjects.NewPrincipal | dash_access/access/relationship_objects.py:176-178 | only a principal type, checked |
| RelationshipObjects.PrincipalGroup | dash_access/access/relationship_objects.py:180-182 | always a pair of type "group" |
| RelationshipObjects.PrincipalUser | dash_access/access/relationship_objects.py:184-186 | always a pair of type "user" |
| RelationshipObjects.PassthroughKeepsPair | dash_access/access/relationship_objects.py:161-167 | a pair built once rebuilds unchanged in its passthroughs |
| RelationshipObjects.Passthrough | dash_access/access/relationship_objects.py:161-167 | the `delete` and `get` passthroughs rebuild the pair through its checks; `RelationshipObjects.PassthroughKeepsPair` shows they pass |
| RelationshipObjects.GrantedOfLists | dash_access/access/relationship.py:90-114 | the names `get_all` returns are those of the agreeing relationships |
| RelationshipObjects.PrincipalGetAll | dash_access/access/relationship_objects.py:55-61 | everything the principal is granted |
| RelationshipObjects.PrincipalGetGroups | dash_access/access/relationship_objects.py:63-70 | the groups the principal is granted |
| RelationshipObjects.PrincipalGetPermissions | dash_access/access/relationship_objects.py:72-79 | the permissions the principal is granted |
| RelationshipObjects.PrincipalGetNarrows | dash_access/access/relationship_objects.py:55-79 | the groups and the permissions are among everything granted, each through a relationship of the principal |
| RelationshipObjects.TypeFilterDropped | dash_access/access/relationship_objects.py:100-116 | `delete_all` as written drops the other side's type, so `.groups` selects like `.all` |
| RelationshipObjects.DeleteGroupsTakesPermission | dash_access/access/relationship_objects.py:100-107 | `.groups` as written selects a permission relationship of the principal |
| RelationshipObjects.ScopedDeleteWhere | dash_access/access/relationship_objects.py:100-116 | the intended where list: `delete_all`'s checks, then one equality per truthy field |
| RelationshipObjects.ScopedDeleteSelects | dash_access/access/relationship_objects.py:100-116 | the intended scoped delete selects exactly the relationships agreeing with the pair and the type |
| RelationshipObjects.ScopedDelete | dash_access/access/relationship_objects.py:100-116 | an error and no change, or exactly the scoped relationships deleted and counted |
| RelationshipObjects.PrincipalDeleteAll | dash_access/access/relationship_objects.py:92-98 | `delete_all` on the principal pair |
| RelationshipObjects.PrincipalDeleteGroups | dash_access/access/relationship_objects.py:100-107 | only the principal's group relationships are deleted |
| RelationshipObjects.PrincipalDeletePermissions | dash_access/access/relationship_objects.py:109-116 | only the principal's permission relationships are deleted |
| RelationshipObjects.CopyTo | dash_access/access/relationship_objects.py:129-147 | nothing changes when the name or type is missing; otherwise the ledger's copy |
| RelationshipObjects.CopyToGroup | dash_access/access/relationship_objects.py:129-137 | copy to a group |
| RelationshipObjects.CopyToUser | dash_access/access/relationship_objects.py:139-147 | copy to a user |
| RelationshipObjects.CopiedEdgesTarget | dash_access/access/relationship.py:204-216 | every copied edge has the target principal and type, and the source's granted name and type |
| RelationshipObjects.NewGrantedPair | dash_access/access/relationship_objects.py:208-211 | the pair is built exactly when its type check passes |
| RelationshipObjects.GrantGroup | dash_access/access/relationship_objects.py:194-196 | always a granted pair of type "group" |
| RelationshipObjects.GrantPermission | dash_access/access/relationship_objects.py:198-200 | always a granted pair of type "permission" |
| RelationshipObjects.To | dash_access/access/relationship_objects.py:292-294 | `Granted.to` rebuilds the granted pair through its checks |
| RelationshipObjects.ToGroup | dash_access/access/relationship_objects.py:370-376 | `GrantTo.group`: the held granted pair with a group principal, checked; `RelationshipObjects.GrantChainBuildsEdge` shows the chain passes |
| RelationshipObjects.ToUser | dash_access/access/relationship_objects.py:378-384 | `GrantTo.user`: the held granted pair with a user principal, checked |
| RelationshipObjects.NewGrantPrincipal | dash_access/access/relationship_objects.py:309-321 | all four fields, built exactly when both types pass |
| RelationshipObjects.GrantChainBuildsEdge | dash_access/access/relationship_objects.py:360-384 | `Grant.<kind>(g).to.<type>(p)` always passes and carries exactly (p, type, g, kind) |
| RelationshipObjects.GrantExists | dash_access/access/relationship_objects.py:323-330 | the ledger's `exists` on the held edge |
| RelationshipObjects.GrantCreate | dash_access/access/relationship_objects.py:341-357 | the ledger's `create` on the held edge, after which it exists |
| RelationshipObjects.GrantDelete | dash_access/access/relationship_objects.py:332-339 | the intended `delete` on the held edge |
| RelationshipObjects.GrantedGetAll | dash_access/access/relationship_objects.py:213-219 | the granted name once per relationship that grants it |
| RelationshipObjects.GrantedGetUsers | dash_access/access/relationship_objects.py:221-228 | the same, for grants to users |
| RelationshipObjects.GrantedGetGroups | dash_access/access/relationship_objects.py:230-237 | the same, for grants to groups |
| RelationshipObjects.GrantedGetEchoes | dash_access/access/relationship_objects.py:213-237 | every returned name is the granted name itself |
| RelationshipObjects.GrantedDeleteAll | dash_access/access/relationship_objects.py:250-256 | `delete_all` on the granted pair |
| RelationshipObjects.GrantedDeleteUsers | dash_access/access/relationship_objects.py:258-265 | only the grants to users are deleted |
| RelationshipObjects.GrantedDeleteGroups | dash_access/access/relationship_objects.py:267-274 | only the grants to groups are deleted |
| RelationshipObjects.DeleteUsersTakesGroup | dash_access/access/relationship_objects.py:258-265 | `GrantedDelete.users` as written selects a grant held by a group |
| RelationshipObjects.ScopedGrantedDeleteSelects | dash_access/access/relationship_objects.py:258-274 | the intended granted-side scoped delete selects exactly the grants agreeing with the pair and the principal type |
| RelationshipObjects.GrantedPassthroughFails | dash_access/access/relationship_objects.py:295-301 | for every valid `Granted`, the passthroughs as written fail with AttributeError and the intended ones succeed unchanged |
| RelationshipObjects.GrantedPassthroughAsWritten | dash_access/access/relationship_objects.py:295-301 | `Granted.delete` and `Granted.get` as written fail with AttributeError |
| RelationshipObjects.GrantedPassthrough | dash_access/access/relationship_objects.py:295-301 | the intended passthrough: the granted pair rebuilt through its checks |
| DevUtils.FieldChangeFactory | dash_access/utils/dev_utils.py:8-56 | ValueError exactly when put or get is missing; otherwise a change function for the field |
| DevUtils.ChangeField | dash_access/utils/dev_utils.py:38-44 | False without a put for a falsy record; otherwise put's result for the record with only the field changed |
| DevUtils.ChangeToSameValue | dash_access/utils/dev_utils.py:38-44 | setting a field to its value hands put the record as fetched |
| DevUtils.IdFactoryIds | dash_access/utils/dev_utils.py:59-93 | ids start with the page and "-", the rest is the id asked for, and distinct ids stay distinct |
| DevUtils.IdFactory | dash_access/utils/dev_utils.py:59-93 | the id function of a page: the page, "-", then the id; `DevUtils.IdFactoryIds` states it keeps ids apart |
| DevUtils.Toast | dash_access/utils/dev_utils.py:97-128 | the header and icon for each status, with a text header throughout |
| DevUtils.ToastFallback | dash_access/utils/dev_utils.py:106-120 | the toast as written agrees with the intended one except for the header's shape on an unknown status |
| DevUtils.ToastAsWritten | dash_access/utils/dev_utils.py:97-128 | `toast` as written, whose fallback header is a one-element tuple |
| DevUtils.FirstWhere | dash_access/utils/dev_utils.py:196-209 | the first index that satisfies the test, and None exactly when none does |
| DevUtils.StripLeft | dash_access/utils/dev_utils.py:182-186 | a suffix of the input that starts without whitespace |
| DevUtils.StripRight | dash_access/utils/dev_utils.py:182-186 | a prefix of the input that ends without whitespace |
| DevUtils.Strip | dash_access/utils/dev_utils.py:182-186 | `str.strip` on ASCII whitespace; `DevUtils.StripSlice`, `DevUtils.StripEnds`, `DevUtils.StripBlank` and `DevUtils.StripTwice` characterise it |
| DevUtils.StripSlice | dash_access/utils/dev_utils.py:182-186 | a stripped value is a contiguous slice of the original |
| DevUtils.StripEnds | dash_access/utils/dev_utils.py:182-186 | no whitespace is left at either end |
| DevUtils.StripBlank | dash_access/utils/dev_utils.py:182-189 | a value strips to "" exactly when it is all whitespace |
| DevUtils.StripTwice | dash_access/utils/dev_utils.py:182-186 | stripping is idempotent |
| DevUtils.StripPrefix | dash_access/utils/dev_utils.py:182-189 | the first n ops are stripped and the rest are unchanged |
| DevUtils.ChangeRun | dash_access/utils/dev_utils.py:196-209 | the apply loop changes only the `done` of the ops it has seen |
| DevUtils.ChangeRunStops | dash_access/utils/dev_utils.py:196-209 | once the loop has stopped, later ops change nothing |
| DevUtils.ChangeRunOutcome | dash_access/utils/dev_utils.py:196-209 | the loop stops at the first rejected op, keeping its name; before it every changed op is applied once, in order |
| DevUtils.ChangeCallsOnlyChanged | dash_access/utils/dev_utils.py:196-209 | change calls name only changed ops, with their new values |
| DevUtils.RollbackCalls | dash_access/utils/dev_utils.py:216-229 | one rollback call per op, in order |
| DevUtils.StripRequired | dash_access/utils/dev_utils.py:182-189 | the ops are stripped in place up to the first required blank op, which is reported |
| DevUtils.ApplyChanges | dash_access/utils/dev_utils.py:196-209 | the loop's new ops, stop name and calls are those of the loop's specification |
| DevUtils.RollBackChanges | dash_access/utils/dev_utils.py:216-229 | the rollback calls are appended in order |
| DevUtils.ExecuteChangeOperations | dash_access/utils/dev_utils.py:134-229 | the notice, the updated ops and the calls are those of `ExecuteChange` on the old ops |
| DevUtils.ExecuteChange | dash_access/utils/dev_utils.py:134-229 | `execute_change_operations` as a function of its ops: the notice, the ops as left and the calls; `DevUtils.ChangeSucceedsIff` and `DevUtils.ChangeFailureRollsBackAll` characterise it |
| DevUtils.BlankCallsNothing | dash_access/utils/dev_utils.py:182-189 | a required blank op is reported by name, and nothing is called |
| DevUtils.SameValuesCallNothing | dash_access/utils/dev_utils.py:192-193 | unchanged values give a warning, and nothing is called |
| DevUtils.ChangeSucceedsIff | dash_access/utils/dev_utils.py:196-213 | success exactly when every reached op is done and no named op stopped the loop; then only the change calls are made |
| DevUtils.ChangeFailureRollsBackAll | dash_access/utils/dev_utils.py:216-229 | on failure every op is rolled back once, in order, after the change calls |
| DevUtils.RolledBackShowsWarning | dash_access/utils/dev_utils.py:216-229 | a rollback is reported as "failure", which the toast shows as a warning |
| DevUtils.UpdateCalls | dash_access/utils/dev_utils.py:295-302 | one change call per op, with its whole list |
| DevUtils.UpdateRun | dash_access/utils/dev_utils.py:295-302 | the apply loop changes only the `done` of the ops it has seen |
| DevUtils.UpdateRunStops | dash_access/utils/dev_utils.py:295-302 | once the loop has stopped, later ops change nothing |
| DevUtils.UpdateRunOutcome | dash_access/utils/dev_utils.py:295-302 | the loop stops at the first op with an invalid or raising item; before it every op is applied once, in order |
| DevUtils.UpdateRollbackCalls | dash_access/utils/dev_utils.py:310-319 | one rollback per op, in order, up to the first op without a rollback function |
| DevUtils.FindEmpty | dash_access/utils/dev_utils.py:288-292 | the first required op with an empty list |
| DevUtils.ApplyUpdates | dash_access/utils/dev_utils.py:295-302 | the loop's new ops, stop name, raise flag and calls are those of the loop's specification |
| DevUtils.RollBackUpdates | dash_access/utils/dev_utils.py:310-319 | the rollback calls are appended in order, stopping with KeyError at an op without a rollback function |
| DevUtils.ExecuteUpdateOperations | dash_access/utils/dev_utils.py:235-319 | the report, the updated ops and the calls are those of `ExecuteUpdate` on the old ops |
| DevUtils.ExecuteUpdate | dash_access/utils/dev_utils.py:235-319 | `execute_update_operations` as a function of its ops: the report, the ops as left and the calls; `DevUtils.UpdateOutcome` and `DevUtils.UpdateRollbackOutcome` characterise it |
| DevUtils.EmptyListCallsNothing | dash_access/utils/dev_utils.py:288-292 | a required empty list is reported by name, and nothing is validated or called |
| DevUtils.UpdateOutcome | dash_access/utils/dev_utils.py:295-306 | when no op stops the loop, success exactly when every op is done, and then only the change calls are made; a validator's exception propagates exactly when the op that stops the loop has a raising item |
| DevUtils.UpdateRollbackOutcome | dash_access/utils/dev_utils.py:310-319 | the KeyError of a missing rollback only arises when some op lacks a rollback function; a shown failure means every op has one, and the calls end with one rollback per op, in order |

## Left out

- Table names from environment variables, the SQL text, commits, cursors and connections: the model reads a table by its logical name, with the documented defaults.
- `decimal` and msgpack's byte-level format: `Packed(v)` stands for msgpack's output and is only known to be injective.
- The "groups" table is unknown to `get_table`, which returns None for it; the group operations are modelled as if they reach a table named "groups".
- Postgres.Fetch: the PostgreSQL `_get` builds its record with `dict()` around a tuple, which raises at runtime on every hit; the model instead decodes the hit by column name, which `Postgres.PositionalAgrees` equates with the evidently intended positional naming for rows of the created tables (keys within the table's fields).
- Sqlite3.FetchAll: the default-filling loop of `_get_all` assigns a missing field to the result list instead of the record, which raises a TypeError whenever a stored row lacks a table field; the model fills each record, as `_get` does. The PostgreSQL store names every field positionally, so the slip cannot trigger there.
- The ledger operations are modelled over the SQLite store only; `Postgres.GetAgreesWithSqlite` and `Postgres.GetAllAgreesWithSqlite` show that both stores read the same records back.
- Relationship.Text: a non-text cell reads as the empty name.
- Relationship.Copy: the keyword call `create(store, Args(...))` in copy is modelled by intent; as written the call's keyword arguments raise a TypeError.
- RelationshipObjects.PrincipalGetAll, RelationshipObjects.PrincipalGetGroups, RelationshipObjects.PrincipalGetPermissions, RelationshipObjects.PrincipalDeleteAll, RelationshipObjects.PrincipalDeleteGroups, RelationshipObjects.PrincipalDeletePermissions, RelationshipObjects.GrantedGetAll, RelationshipObjects.GrantedGetUsers, RelationshipObjects.GrantedGetGroups, RelationshipObjects.GrantedDeleteAll, RelationshipObjects.GrantedDeleteUsers, RelationshipObjects.GrantedDeleteGroups, RelationshipObjects.GrantExists, RelationshipObjects.GrantCreate and RelationshipObjects.GrantDelete: the builder layer calls `get_all`, `delete_all`, `exists`, `create` and `delete` with keyword arguments, but those take `(store, args)`, so as written each call raises a TypeError; the model calls them with the evidently intended `Args`.
- RelationshipObjects.CopyTo: its keyword call into `copy` matches `copy`'s parameters and is modelled as written; the call inside `copy` is the one admitted under Relationship.Copy.
- Group.AddUsers: `relationship.user_group_*` helpers that group.py calls are not defined in the repository; they are modelled by their intent as ledger operations with fixed types, and the argument order of the `add_users` call is taken as user then group.
- Group.Inherits: `relationship.group_group_all` (group.py:183) is not defined in relationship.py, so as written `inherits` raises AttributeError for every recorded group; the model reads the group's group-typed grants, as the helper's name intends.
- Group.Permissions: `relationship.group_permission_all` (group.py:207, 212) is not defined, so as written `permissions` raises AttributeError for every recorded group; the model reads the permission-typed grants of the group and of each inherited group.
- Group.Duplicate: `relationship.group_group_copy` (group.py:118) is not defined, so as written `duplicate` raises AttributeError after adding the new group; the model reads the call as `copy(store, name, "group", new_name, "group")`, which copies every relationship whose principal is the old group (its permissions and the groups it inherits from), not only group-to-group edges.
- Group.AddInherits: `relationship.group_group_exists` and `group_group_create` (group.py:127-128) are not defined, so as written `add_inherits` raises AttributeError on any non-empty list; the model checks and creates group-to-group edges.
- Group.RemoveInherits: `relationship.group_group_delete` (group.py:136) is not defined, so as written `remove_inherits` raises AttributeError on any non-empty list; the model deletes each group-to-group edge by its key.
- Group.AddPermissions: `relationship.group_permission_exists` and `group_permission_create` (group.py:143-144) are not defined, so as written `add_permissions` raises AttributeError on any non-empty list; the model checks and creates group-to-permission edges.
- Group.RemovePermissions: `relationship.group_permission_delete` (group.py:152) is not defined, so as written `remove_permissions` raises AttributeError on any non-empty list; the model deletes each group-to-permission edge by its key.
- Group.Delete: the positional call to `delete_all` is modelled as the `Args` of the group's principal pair.
- The iteration order of Python sets is not modelled; the results of `groups`, `permissions` and `inherits` are sets.
- User.Groups: the loop appends to the list it iterates, so on a cycle of groups it does not terminate; the model computes the fixed point, which `User.GroupsClosed` characterises.
- `AccessUserMixin` only forwards to the module functions (and its `has_access` call omits the time stamp); it is not modelled separately.
- The `isinstance` checks on names: names are strings by type, so those checks always pass.
- DevUtils.Strip: Python's `str.strip` removes Unicode whitespace; the model removes ASCII whitespace only.
- The callables the execute helpers receive (validate, change, rollback functions, and the store's get and put) are pure function parameters; their effects are recorded as the returned call log. A change function's result is a plain boolean, so the path where it raises is not modelled: `execute_change_operations` calls it outside its `try` (dev_utils.py:209), so such an exception would leave the helper with no rollback.
- `GrantPrincipal.create` is defined twice; the later definition wins and is the one modelled.
- The `execute_*` docstrings call `rollback_function` optional; `execute_update_operations` indexes it directly, so an op without one ends the rollback with KeyError (modelled as `MissingRollback`).
- A validator that raises in `execute_update_operations` propagates out of the helper (modelled as `ValidatorRaised`); in `execute_change_operations` a raising validator counts as a rejection, as its code catches it.
- DevUtils.Toast: the `dbc.Toast` component is reduced to its header and icon; the `hint` argument of `field_change_factory` only changes a type annotation and is not kept.
- The empty-name quirk is modelled, not corrected: the helpers record a failure by the op's name, and an empty name reads as "nothing failed".

## Findings

| source | as written | input that shows it | evidently intended | confidence | as-written member | corrected member |
|---|---|---|---|---|---|---|
| dash_access/clients/sqlite3.py:318-334 | the delete statement for a where list repeats the first condition, so it has one more placeholder than bound values | any non-empty `where`, e.g. `[{"col": "id", "val": "a"}]` | one placeholder per condition, deleting the rows `_get_all` selects | high, not executed | Base.DeleteWhereBindingMismatch | Base.DeleteRemovesSelected |
| dash_access/clients/postgres.py:311-320 | the PostgreSQL delete statement for a where list also repeats the first condition, one `%s` more than bound values | any non-empty `where`, e.g. `[{"col": "id", "val": "a"}]` | one placeholder per condition, deleting the rows `_get_all` selects | high, not executed | Base.DeleteWhereBindingMismatch | Base.DeleteRemovesSelected |
| dash_access/access/relationship.py:126 | `delete` reads `args.granteded`, which `Args` does not have | any edge, e.g. `Args("u", "user", "p", "permission")` | the granted field, deleting the edge's row by its key | high, not executed | Relationship.DeleteAsWritten | Relationship.DeleteRemovesEdge |
| dash_access/access/relationship.py:140-156 | a granted name without a type and no principal passes the checks with no where list | `Args(None, None, "p", None)` | a ValueError unless exactly one complete pair is given | medium, not executed | Relationship.GrantedOnlySelectsEverything | Relationship.DeleteAllWhere |
| dash_access/access/relationship_objects.py:100-116 | the scoped deletes pass a type for the other side, which `delete_all` drops | `Principal.user("u").delete.groups` when "u" holds a permission | delete only the relationships of that kind | medium, not executed | RelationshipObjects.DeleteGroupsTakesPermission | RelationshipObjects.ScopedDeleteSelects |
| dash_access/access/relationship_objects.py:258-274 | the granted-side scoped deletes also pass the principal type, which `delete_all` drops | `Grant.permission("p").delete.users` when a group holds "p" | delete only the grants to that kind of principal | medium, not executed | RelationshipObjects.DeleteUsersTakesGroup | RelationshipObjects.ScopedGrantedDeleteSelects |
| dash_access/access/relationship_objects.py:295-301 | `Granted.delete` and `Granted.get` read `self.principal`, which a `Granted` never sets | `Grant.permission("p").delete` | the granted-side passthroughs of the same pair | high, not executed | RelationshipObjects.GrantedPassthroughFails | RelationshipObjects.GrantedPassthrough |
| dash_access/utils/dev_utils.py:119 | the fallback header is `'Warning',`, a one-element tuple | `toast("x", "unknown")` | the text "Warning" | high, not executed | DevUtils.ToastFallback | DevUtils.Toast |
