/**
 * The fluent builder layer over the relationship ledger
 * (dash_access/access/relationship_objects.py): small objects that hold a
 * principal pair, a granted pair or a whole edge, check their type tokens
 * when built, and hand one call on to the ledger.
 *
 * Each builder object is a value here: `PrincipalPair` stands for
 * `OperationPrincipal` and its `get`, `delete` and copy passthroughs (all four
 * hold the same two fields and run the same checks), `GrantedPair` for
 * `Granted`, `GrantTo`, `GrantedGet` and `GrantedDelete`, and the ledger's
 * own `Args` for `GrantPrincipal`. Building one yields `Err(TypeError)` where
 * the constructor raises.
 */
module RelationshipObjects {
  import opened Base
  import opened Sqlite3
  import opened Relationship

  /** The principal types `_checks` accepts. */
  const PrincipalTypes: seq<string> := ["group", "user"]

  /** The granted types `_checks` accepts. */
  const GrantedTypes: seq<string> := ["group", "permission"]

  /** `_value_check`: a TypeError unless the value is one of `okay`. */
  function ValueCheck(value: string, okay: seq<string>): (r: Result<string>)
    ensures r.Ok? <==> value in okay
    ensures r.Ok? ==> r.value == value
    ensures r.Err? ==> r.error == TypeError
  {
    if value in okay then Ok(value) else Err(TypeError)
  }

  /**
   * `_checks`: a truthy principal type must be "group" or "user" and a
   * truthy granted type "group" or "permission"; a falsy field is not
   * looked at. The names are strings by type, so their `isinstance` checks
   * always pass.
   */
  function Checks(a: Args): (r: Result<Args>)
    ensures r.Ok? ==> r.value == a
    ensures r.Err? ==> r.error == TypeError
    ensures r.Err? <==>
      (Truthy(a.principalType) && a.principalType.value !in PrincipalTypes) ||
      (Truthy(a.grantedType) && a.grantedType.value !in GrantedTypes)
  {
    if Truthy(a.principalType) && ValueCheck(a.principalType.value, PrincipalTypes).Err? then Err(TypeError)
    else if Truthy(a.grantedType) && ValueCheck(a.grantedType.value, GrantedTypes).Err? then Err(TypeError)
    else Ok(a)
  }

  /**
   * No falsy argument is ever checked: with both types falsy every call
   * passes, and the names never decide the outcome.
   */
  lemma ChecksIgnoreFalsy(a: Args, principal: Option<string>, granted: Option<string>)
    ensures !Truthy(a.principalType) && !Truthy(a.grantedType) ==> Checks(a) == Ok(a)
    ensures Checks(a).Ok? == Checks(Args(principal, a.principalType, granted, a.grantedType)).Ok?
  {
  }

  /** Every edge the ledger refuses with a TypeError in `delete_all` is refused by `_checks` too. */
  lemma ChecksAgreeWithDeleteAll(a: Args)
    requires DeleteAllWhere(a) == Err(TypeError)
    ensures Checks(a) == Err(TypeError)
  {
  }

  // ---------------------------------------------------------------------
  // principals
  // ---------------------------------------------------------------------

  /** The two fields of `OperationPrincipal` and of its get, delete and copy passthroughs. */
  datatype PrincipalPair = PrincipalPair(principal: Option<string>, principalType: Option<string>)

  /** The constructor shared by `OperationPrincipal`, `OperationPrincipalGet`, `-Delete` and `-Copy`. */
  function NewPrincipalPair(principal: Option<string>, principalType: Option<string>): (r: Result<PrincipalPair>)
    ensures r.Ok? <==> !Truthy(principalType) || principalType.value in PrincipalTypes
    ensures r.Ok? ==> r.value == PrincipalPair(principal, principalType)
    ensures r.Err? ==> r.error == TypeError
  {
    match Checks(Args(principal, principalType, None, None))
    case Ok(_) => Ok(PrincipalPair(principal, principalType))
    case Err(e) => Err(e)
  }

  /** The `Principal` constructor: it checks and keeps only a principal type. */
  function NewPrincipal(principalType: Option<string>): (r: Result<Option<string>>)
    ensures r.Ok? <==> NewPrincipalPair(None, principalType).Ok?
    ensures r.Ok? ==> r.value == principalType
  {
    match Checks(Args(None, principalType, None, None))
    case Ok(_) => Ok(principalType)
    case Err(e) => Err(e)
  }

  /** `Principal.group`: a principal pair of type "group", which always passes its checks. */
  function PrincipalGroup(principal: Option<string>): (r: Result<PrincipalPair>)
    ensures r == Ok(PrincipalPair(principal, Some("group")))
  {
    NewPrincipalPair(principal, Some("group"))
  }

  /** `Principal.user`: a principal pair of type "user", which always passes its checks. */
  function PrincipalUser(principal: Option<string>): (r: Result<PrincipalPair>)
    ensures r == Ok(PrincipalPair(principal, Some("user")))
  {
    NewPrincipalPair(principal, Some("user"))
  }

  /**
   * `OperationPrincipal.delete` and `.get` rebuild the passthrough from the
   * pair, re-running the checks; a pair that was built once builds again,
   * unchanged.
   */
  function Passthrough(x: PrincipalPair): Result<PrincipalPair>
  {
    NewPrincipalPair(x.principal, x.principalType)
  }

  lemma PassthroughKeepsPair(principal: Option<string>, principalType: Option<string>)
    requires NewPrincipalPair(principal, principalType).Ok?
    ensures Passthrough(NewPrincipalPair(principal, principalType).value) == NewPrincipalPair(principal, principalType)
  {
  }

  /** The `Args` a principal passthrough hands to the ledger, narrowed by a granted type or not. */
  function PrincipalArgs(x: PrincipalPair, grantedType: Option<string>): Args
  {
    Args(x.principal, x.principalType, None, grantedType)
  }

  /** The names `get_all` returns for `a` are exactly those granted by some agreeing relationship. */
  ghost predicate Lists(db: Db, a: Args, r: seq<string>)
  {
    forall g :: g in r <==> exists row | row in Rows(db, RelationshipsTable) :: Matches(row, a) && Granted(row) == g
  }

  lemma GrantedOfLists(db: Db, a: Args)
    ensures Lists(db, a, GrantedOf(db, a))
  {
    forall g {
      GrantedOfMembers(db, a, g);
    }
  }

  /** `OperationPrincipalGet.all`: what the principal is granted, of any type. */
  method PrincipalGetAll(store: Sqlite3AccessStore, x: PrincipalPair) returns (r: seq<string>)
    ensures r == GrantedOf(store.tables, PrincipalArgs(x, None))
    ensures Lists(store.tables, PrincipalArgs(x, None), r)
  {
    r := Relationship.GetAll(store, PrincipalArgs(x, None));
    GrantedOfLists(store.tables, PrincipalArgs(x, None));
  }

  /** `OperationPrincipalGet.groups`: the groups the principal is granted. */
  method PrincipalGetGroups(store: Sqlite3AccessStore, x: PrincipalPair) returns (r: seq<string>)
    ensures r == GrantedOf(store.tables, PrincipalArgs(x, Some("group")))
    ensures Lists(store.tables, PrincipalArgs(x, Some("group")), r)
  {
    r := Relationship.GetAll(store, PrincipalArgs(x, Some("group")));
    GrantedOfLists(store.tables, PrincipalArgs(x, Some("group")));
  }

  /** `OperationPrincipalGet.permissions`: the permissions the principal is granted. */
  method PrincipalGetPermissions(store: Sqlite3AccessStore, x: PrincipalPair) returns (r: seq<string>)
    ensures r == GrantedOf(store.tables, PrincipalArgs(x, Some("permission")))
    ensures Lists(store.tables, PrincipalArgs(x, Some("permission")), r)
  {
    r := Relationship.GetAll(store, PrincipalArgs(x, Some("permission")));
    GrantedOfLists(store.tables, PrincipalArgs(x, Some("permission")));
  }

  /**
   * Narrowing by a granted type only drops names: the groups and the
   * permissions of a principal are among everything it is granted, each
   * one through a relationship of that principal.
   */
  lemma PrincipalGetNarrows(db: Db, x: PrincipalPair, g: string)
    ensures g in GrantedOf(db, PrincipalArgs(x, Some("group"))) ==> g in GrantedOf(db, PrincipalArgs(x, None))
    ensures g in GrantedOf(db, PrincipalArgs(x, Some("permission"))) ==> g in GrantedOf(db, PrincipalArgs(x, None))
    ensures g in GrantedOf(db, PrincipalArgs(x, None)) ==>
      exists row | row in Rows(db, RelationshipsTable) :: Matches(row, PrincipalArgs(x, None)) && Granted(row) == g
  {
    GrantedOfMembers(db, PrincipalArgs(x, Some("group")), g);
    GrantedOfMembers(db, PrincipalArgs(x, Some("permission")), g);
    GrantedOfMembers(db, PrincipalArgs(x, None), g);
  }

  // ---------------------------------------------------------------------
  // scoped deletes
  // ---------------------------------------------------------------------

  /**
   * Given a principal pair and a granted type (or a granted pair and a
   * principal type), `delete_all` as written checks the full pair and then
   * selects by that pair alone: the type given for the other side is
   * dropped, and `.groups` selects the same rows as `.all`.
   */
  lemma TypeFilterDropped(a: Args)
    requires !Truthy(a.granted) || !Truthy(a.principal)
    ensures !Truthy(a.granted) ==>
      DeleteAllWhere(a) == DeleteAllWhere(Args(a.principal, a.principalType, None, None))
    ensures !Truthy(a.principal) ==>
      DeleteAllWhere(a) == DeleteAllWhere(Args(None, None, a.granted, a.grantedType))
  {
  }

  /**
   * So `OperationPrincipalDelete.groups`, given a principal that holds a
   * permission, selects that permission's relationship for deletion.
   */
  lemma DeleteGroupsTakesPermission(db: Db, x: PrincipalPair, row: Row)
    requires Truthy(x.principal) && Truthy(x.principalType) && x.principalType.value in PrincipalTypes
    requires row in Rows(db, RelationshipsTable) && Matches(row, PrincipalArgs(x, None))
    requires "granted_type" in row && row["granted_type"] == Str("permission")
    ensures DeleteAllWhere(PrincipalArgs(x, Some("group"))).Ok?
    ensures row in Selected(Rows(db, RelationshipsTable), DeleteAllWhere(PrincipalArgs(x, Some("group"))).value)
    ensures !Matches(row, PrincipalArgs(x, Some("group")))
  {
    var w := DeleteAllWhere(PrincipalArgs(x, Some("group"))).value.value;
    assert w == WhereOf(PrincipalArgs(x, None));
    WhereOfMatches(row, PrincipalArgs(x, None));
  }

  /**
   * The scoped delete as evidently intended: `delete_all`'s checks, then a
   * `where` list of every truthy field, so the type given for the other side
   * narrows the selection.
   */
  function ScopedDeleteWhere(a: Args): (r: Result<Option<Where>>)
    ensures r.Err? <==> DeleteAllWhere(a).Err?
    ensures r.Err? ==> r.error == DeleteAllWhere(a).error
    ensures r.Ok? ==> r.value.Some? && forall row :: MatchesAll(row, r.value.value) <==> Matches(row, a)
  {
    match DeleteAllWhere(a)
    case Err(e) => Err(e)
    case Ok(_) =>
      assert forall row :: MatchesAll(row, WhereOf(a)) <==> Matches(row, a) by {
        forall row {
          WhereOfMatches(row, a);
        }
      }
      Ok(Some(WhereOf(a)))
  }

  /**
   * With the intended scoping, the rows selected for deletion are exactly the
   * relationships agreeing with the pair and the type, so a relationship of
   * the other kind is left alone.
   */
  lemma ScopedDeleteSelects(db: Db, a: Args, row: Row)
    requires ScopedDeleteWhere(a).Ok?
    requires Truthy(a.principal) && Truthy(a.principalType) && !Truthy(a.granted)
    ensures Selected(Rows(db, RelationshipsTable), ScopedDeleteWhere(a).value) ==
      Select(Rows(db, RelationshipsTable), WhereOf(a))
    ensures row in Selected(Rows(db, RelationshipsTable), ScopedDeleteWhere(a).value) <==>
      row in Rows(db, RelationshipsTable) && Matches(row, a)
  {
  }

  /** The delete behind every scoped passthrough, with the intended `where` list. */
  method ScopedDelete(store: Sqlite3AccessStore, a: Args, now: string) returns (r: Result<nat>)
    modifies store
    ensures ScopedDeleteWhere(a).Err? ==> r == Err(ScopedDeleteWhere(a).error) && store.tables == old(store.tables)
    ensures ScopedDeleteWhere(a).Ok? ==>
      var ships := FetchAll(old(store.tables), RelationshipsTable, ScopedDeleteWhere(a).value);
      r == Ok(|ships|) && store.tables == DeleteEach(old(store.tables), IdColumn(ships), now)
  {
    var checked := ScopedDeleteWhere(a);
    if checked.Err? {
      return Err(checked.error);
    }
    var n := DeleteSelected(store, checked.value, now);
    r := Ok(n);
  }

  /** `OperationPrincipalDelete.all`: `delete_all` on the principal pair. */
  method PrincipalDeleteAll(store: Sqlite3AccessStore, x: PrincipalPair, now: string) returns (r: Result<nat>)
    modifies store
    ensures DeleteAllWhere(PrincipalArgs(x, None)).Err? ==>
      r == Err(DeleteAllWhere(PrincipalArgs(x, None)).error) && store.tables == old(store.tables)
    ensures DeleteAllWhere(PrincipalArgs(x, None)).Ok? ==>
      var ships := FetchAll(old(store.tables), RelationshipsTable, DeleteAllWhere(PrincipalArgs(x, None)).value);
      r == Ok(|ships|) && store.tables == DeleteEach(old(store.tables), IdColumn(ships), now)
  {
    r := Relationship.DeleteAll(store, PrincipalArgs(x, None), now);
  }

  /** `OperationPrincipalDelete.groups`, as evidently intended: only the principal's group relationships. */
  method PrincipalDeleteGroups(store: Sqlite3AccessStore, x: PrincipalPair, now: string) returns (r: Result<nat>)
    modifies store
    ensures ScopedDeleteWhere(PrincipalArgs(x, Some("group"))).Err? ==> r.Err? && store.tables == old(store.tables)
    ensures ScopedDeleteWhere(PrincipalArgs(x, Some("group"))).Ok? ==>
      var ships := FetchAll(old(store.tables), RelationshipsTable, ScopedDeleteWhere(PrincipalArgs(x, Some("group"))).value);
      r == Ok(|ships|) && store.tables == DeleteEach(old(store.tables), IdColumn(ships), now)
  {
    r := ScopedDelete(store, PrincipalArgs(x, Some("group")), now);
  }

  /** `OperationPrincipalDelete.permissions`, as evidently intended: only the principal's permissions. */
  method PrincipalDeletePermissions(store: Sqlite3AccessStore, x: PrincipalPair, now: string) returns (r: Result<nat>)
    modifies store
    ensures ScopedDeleteWhere(PrincipalArgs(x, Some("permission"))).Err? ==> r.Err? && store.tables == old(store.tables)
    ensures ScopedDeleteWhere(PrincipalArgs(x, Some("permission"))).Ok? ==>
      var ships := FetchAll(old(store.tables), RelationshipsTable, ScopedDeleteWhere(PrincipalArgs(x, Some("permission"))).value);
      r == Ok(|ships|) && store.tables == DeleteEach(old(store.tables), IdColumn(ships), now)
  {
    r := ScopedDelete(store, PrincipalArgs(x, Some("permission")), now);
  }

  // ---------------------------------------------------------------------
  // copy
  // ---------------------------------------------------------------------

  /**
   * The copy behind `OperationPrincipalCopy.group` and `.user`. A missing
   * name or type is compared with SQL NULL, which no row equals, so nothing
   * is read and nothing is written.
   */
  method CopyTo(store: Sqlite3AccessStore, x: PrincipalPair, to: string, toType: string, now: string)
    returns (ok: bool)
    modifies store
    ensures ok
    ensures x.principal.None? || x.principalType.None? ==> store.tables == old(store.tables)
    ensures x.principal.Some? && x.principalType.Some? ==>
      var ships := FetchAll(old(store.tables), RelationshipsTable, Some(PrincipalWhere(x.principal.value, x.principalType.value)));
      store.tables == CreateEach(old(store.tables), CopiedEdges(ships, to, toType), now)
  {
    if x.principal.None? || x.principalType.None? {
      return true;
    }
    ok := Copy(store, x.principal.value, x.principalType.value, to, toType, now);
  }

  /** `OperationPrincipalCopy.group`: copy the principal's relationships to a group. */
  method CopyToGroup(store: Sqlite3AccessStore, x: PrincipalPair, to: string, now: string) returns (ok: bool)
    modifies store
    ensures ok
    ensures x.principal.None? || x.principalType.None? ==> store.tables == old(store.tables)
    ensures x.principal.Some? && x.principalType.Some? ==>
      var ships := FetchAll(old(store.tables), RelationshipsTable, Some(PrincipalWhere(x.principal.value, x.principalType.value)));
      store.tables == CreateEach(old(store.tables), CopiedEdges(ships, to, "group"), now)
  {
    ok := CopyTo(store, x, to, "group", now);
  }

  /** `OperationPrincipalCopy.user`: copy the principal's relationships to a user. */
  method CopyToUser(store: Sqlite3AccessStore, x: PrincipalPair, to: string, now: string) returns (ok: bool)
    modifies store
    ensures ok
    ensures x.principal.None? || x.principalType.None? ==> store.tables == old(store.tables)
    ensures x.principal.Some? && x.principalType.Some? ==>
      var ships := FetchAll(old(store.tables), RelationshipsTable, Some(PrincipalWhere(x.principal.value, x.principalType.value)));
      store.tables == CreateEach(old(store.tables), CopiedEdges(ships, to, "user"), now)
  {
    ok := CopyTo(store, x, to, "user", now);
  }

  /** The edges a copy writes all have the target principal and the requested type. */
  lemma CopiedEdgesTarget(ships: seq<Row>, to: string, toType: string)
    ensures forall e | e in CopiedEdges(ships, to, toType) :: e.principal == to && e.principalType == toType
  {
  }

  // ---------------------------------------------------------------------
  // grants
  // ---------------------------------------------------------------------

  /** The two fields of `Granted`, `GrantTo`, `GrantedGet` and `GrantedDelete`. */
  datatype GrantedPair = GrantedPair(granted: Option<string>, grantedType: Option<string>)

  /** The constructor shared by `Granted`, `GrantTo`, `GrantedGet` and `GrantedDelete`. */
  function NewGrantedPair(granted: Option<string>, grantedType: Option<string>): (r: Result<GrantedPair>)
    ensures r.Ok? <==> !Truthy(grantedType) || grantedType.value in GrantedTypes
    ensures r.Ok? ==> r.value == GrantedPair(granted, grantedType)
    ensures r.Err? ==> r.error == TypeError
  {
    match Checks(Args(None, None, granted, grantedType))
    case Ok(_) => Ok(GrantedPair(granted, grantedType))
    case Err(e) => Err(e)
  }

  /** `Grant.group`: a granted pair of type "group". */
  function GrantGroup(granted: Option<string>): (r: Result<GrantedPair>)
    ensures r == Ok(GrantedPair(granted, Some("group")))
  {
    NewGrantedPair(granted, Some("group"))
  }

  /** `Grant.permission`: a granted pair of type "permission". */
  function GrantPermission(granted: Option<string>): (r: Result<GrantedPair>)
    ensures r == Ok(GrantedPair(granted, Some("permission")))
  {
    NewGrantedPair(granted, Some("permission"))
  }

  /** `Granted.to`: the `GrantTo` of the same pair, checked again. */
  function To(x: GrantedPair): Result<GrantedPair>
  {
    NewGrantedPair(x.granted, x.grantedType)
  }

  /** The `GrantPrincipal` constructor: all four fields, both types checked. */
  function NewGrantPrincipal(principal: Option<string>, principalType: Option<string>, x: GrantedPair): (r: Result<Args>)
    ensures r.Ok? <==>
      (!Truthy(principalType) || principalType.value in PrincipalTypes) &&
      (!Truthy(x.grantedType) || x.grantedType.value in GrantedTypes)
    ensures r.Ok? ==> r.value == Args(principal, principalType, x.granted, x.grantedType)
  {
    Checks(Args(principal, principalType, x.granted, x.grantedType))
  }

  /** `GrantTo.group`: the edge from a group to the granted pair. */
  function ToGroup(x: GrantedPair, principal: Option<string>): Result<Args>
  {
    NewGrantPrincipal(principal, Some("group"), x)
  }

  /** `GrantTo.user`: the edge from a user to the granted pair. */
  function ToUser(x: GrantedPair, principal: Option<string>): Result<Args>
  {
    NewGrantPrincipal(principal, Some("user"), x)
  }

  /**
   * `Grant.<kind>(g).to.<principal type>(p)` always passes its checks and
   * carries exactly the four fields (p, principal type, g, kind); with both
   * names given, it names the edge the ledger creates.
   */
  lemma GrantChainBuildsEdge(granted: Option<string>, principal: Option<string>)
    ensures To(GrantGroup(granted).value).Ok?
    ensures To(GrantPermission(granted).value).Ok?
    ensures ToGroup(To(GrantGroup(granted).value).value, principal) == Ok(Args(principal, Some("group"), granted, Some("group")))
    ensures ToUser(To(GrantGroup(granted).value).value, principal) == Ok(Args(principal, Some("user"), granted, Some("group")))
    ensures ToGroup(To(GrantPermission(granted).value).value, principal) == Ok(Args(principal, Some("group"), granted, Some("permission")))
    ensures ToUser(To(GrantPermission(granted).value).value, principal) == Ok(Args(principal, Some("user"), granted, Some("permission")))
    ensures principal.Some? && granted.Some? ==>
      EdgeOf(ToUser(To(GrantPermission(granted).value).value, principal).value) ==
      Some(Edge(principal.value, "user", granted.value, "permission"))
  {
  }

  /** `GrantPrincipal.exists`: `exists` on the edge the object holds. */
  method GrantExists(store: Sqlite3AccessStore, a: Args) returns (r: Result<bool>)
    ensures EdgeOf(a).None? ==> r == Err(TypeError)
    ensures EdgeOf(a).Some? ==> r == Ok(HasEdge(store.tables, EdgeOf(a).value))
  {
    r := Relationship.Exists(store, a);
  }

  /** `GrantPrincipal.create`: `create` on the edge the object holds; afterwards it exists. */
  method GrantCreate(store: Sqlite3AccessStore, a: Args, now: string) returns (r: Result<bool>)
    modifies store
    ensures EdgeOf(a).None? ==> r == Err(TypeError) && store.tables == old(store.tables)
    ensures EdgeOf(a).Some? ==>
      r == Ok(true) && store.tables == CreateDb(old(store.tables), EdgeOf(a).value, now) &&
      HasEdge(store.tables, EdgeOf(a).value)
  {
    r := Relationship.Create(store, a, now);
    if EdgeOf(a).Some? {
      CreateMakesEdge(old(store.tables), EdgeOf(a).value, now);
    }
  }

  /** `GrantPrincipal.delete`: the intended `delete` on the edge the object holds. */
  method GrantDelete(store: Sqlite3AccessStore, a: Args, now: string) returns (r: Result<bool>)
    modifies store
    ensures EdgeOf(a).None? ==> r == Err(TypeError) && store.tables == old(store.tables)
    ensures EdgeOf(a).Some? ==>
      r == Ok(true) && store.tables == DeleteKeyDb(old(store.tables), Str(Id(EdgeOf(a).value)), now)
  {
    r := Relationship.Delete(store, a, now);
  }

  // ---------------------------------------------------------------------
  // reads and deletes by the granted side
  // ---------------------------------------------------------------------

  /** The `Args` a granted passthrough hands to the ledger, narrowed by a principal type or not. */
  function GrantedArgs(x: GrantedPair, principalType: Option<string>): Args
  {
    Args(None, principalType, x.granted, x.grantedType)
  }

  /** `GrantedGet.all`: the granted name once per relationship that grants it, to anyone. */
  method GrantedGetAll(store: Sqlite3AccessStore, x: GrantedPair) returns (r: seq<string>)
    ensures r == GrantedOf(store.tables, GrantedArgs(x, None))
    ensures Lists(store.tables, GrantedArgs(x, None), r)
  {
    r := Relationship.GetAll(store, GrantedArgs(x, None));
    GrantedOfLists(store.tables, GrantedArgs(x, None));
  }

  /** `GrantedGet.users`: the same, only for relationships whose principal is a user. */
  method GrantedGetUsers(store: Sqlite3AccessStore, x: GrantedPair) returns (r: seq<string>)
    ensures r == GrantedOf(store.tables, GrantedArgs(x, Some("user")))
    ensures Lists(store.tables, GrantedArgs(x, Some("user")), r)
  {
    r := Relationship.GetAll(store, GrantedArgs(x, Some("user")));
    GrantedOfLists(store.tables, GrantedArgs(x, Some("user")));
  }

  /** `GrantedGet.groups`: the same, only for relationships whose principal is a group. */
  method GrantedGetGroups(store: Sqlite3AccessStore, x: GrantedPair) returns (r: seq<string>)
    ensures r == GrantedOf(store.tables, GrantedArgs(x, Some("group")))
    ensures Lists(store.tables, GrantedArgs(x, Some("group")), r)
  {
    r := Relationship.GetAll(store, GrantedArgs(x, Some("group")));
    GrantedOfLists(store.tables, GrantedArgs(x, Some("group")));
  }

  /**
   * Every name `GrantedGet` returns is the granted name itself: `get_all`
   * reads back the `granted` column, which the filter fixes.
   */
  lemma GrantedGetEchoes(db: Db, x: GrantedPair, principalType: Option<string>)
    requires Truthy(x.granted)
    ensures forall g | g in GrantedOf(db, GrantedArgs(x, principalType)) :: g == x.granted.value
  {
    forall g | g in GrantedOf(db, GrantedArgs(x, principalType))
      ensures g == x.granted.value
    {
      GrantedOfMembers(db, GrantedArgs(x, principalType), g);
    }
  }

  /** `GrantedDelete.all`: `delete_all` on the granted pair. */
  method GrantedDeleteAll(store: Sqlite3AccessStore, x: GrantedPair, now: string) returns (r: Result<nat>)
    modifies store
    ensures DeleteAllWhere(GrantedArgs(x, None)).Err? ==>
      r == Err(DeleteAllWhere(GrantedArgs(x, None)).error) && store.tables == old(store.tables)
    ensures DeleteAllWhere(GrantedArgs(x, None)).Ok? ==>
      var ships := FetchAll(old(store.tables), RelationshipsTable, DeleteAllWhere(GrantedArgs(x, None)).value);
      r == Ok(|ships|) && store.tables == DeleteEach(old(store.tables), IdColumn(ships), now)
  {
    r := Relationship.DeleteAll(store, GrantedArgs(x, None), now);
  }

  /** `GrantedDelete.users`, as evidently intended: only the grants to users. */
  method GrantedDeleteUsers(store: Sqlite3AccessStore, x: GrantedPair, now: string) returns (r: Result<nat>)
    modifies store
    ensures ScopedDeleteWhere(GrantedArgs(x, Some("user"))).Err? ==> r.Err? && store.tables == old(store.tables)
    ensures ScopedDeleteWhere(GrantedArgs(x, Some("user"))).Ok? ==>
      var ships := FetchAll(old(store.tables), RelationshipsTable, ScopedDeleteWhere(GrantedArgs(x, Some("user"))).value);
      r == Ok(|ships|) && store.tables == DeleteEach(old(store.tables), IdColumn(ships), now)
  {
    r := ScopedDelete(store, GrantedArgs(x, Some("user")), now);
  }

  /** `GrantedDelete.groups`, as evidently intended: only the grants to groups. */
  method GrantedDeleteGroups(store: Sqlite3AccessStore, x: GrantedPair, now: string) returns (r: Result<nat>)
    modifies store
    ensures ScopedDeleteWhere(GrantedArgs(x, Some("group"))).Err? ==> r.Err? && store.tables == old(store.tables)
    ensures ScopedDeleteWhere(GrantedArgs(x, Some("group"))).Ok? ==>
      var ships := FetchAll(old(store.tables), RelationshipsTable, ScopedDeleteWhere(GrantedArgs(x, Some("group"))).value);
      r == Ok(|ships|) && store.tables == DeleteEach(old(store.tables), IdColumn(ships), now)
  {
    r := ScopedDelete(store, GrantedArgs(x, Some("group")), now);
  }

  /**
   * The granted-side scoped deletes drop the other side's type the same way:
   * given a grant held by a group, `GrantedDelete.users` selects that grant's
   * relationship for deletion.
   */
  lemma DeleteUsersTakesGroup(db: Db, x: GrantedPair, row: Row)
    requires Truthy(x.granted) && Truthy(x.grantedType) && x.grantedType.value in GrantedTypes
    requires row in Rows(db, RelationshipsTable) && Matches(row, GrantedArgs(x, None))
    requires "principal_type" in row && row["principal_type"] == Str("group")
    ensures DeleteAllWhere(GrantedArgs(x, Some("user"))).Ok?
    ensures row in Selected(Rows(db, RelationshipsTable), DeleteAllWhere(GrantedArgs(x, Some("user"))).value)
    ensures !Matches(row, GrantedArgs(x, Some("user")))
  {
    var w := DeleteAllWhere(GrantedArgs(x, Some("user"))).value.value;
    assert w == WhereOf(GrantedArgs(x, None));
    WhereOfMatches(row, GrantedArgs(x, None));
  }

  /** The intended granted-side scoped delete selects exactly the grants agreeing with the pair and the principal type. */
  lemma ScopedGrantedDeleteSelects(db: Db, a: Args, row: Row)
    requires ScopedDeleteWhere(a).Ok?
    requires Truthy(a.granted) && Truthy(a.grantedType) && !Truthy(a.principal)
    ensures Selected(Rows(db, RelationshipsTable), ScopedDeleteWhere(a).value) ==
      Select(Rows(db, RelationshipsTable), WhereOf(a))
    ensures row in Selected(Rows(db, RelationshipsTable), ScopedDeleteWhere(a).value) <==>
      row in Rows(db, RelationshipsTable) && Matches(row, a)
  {
  }

  /**
   * `Granted.delete` and `Granted.get` as written read `self.principal` and
   * `self.principal_type`, which a `Granted` never sets: both raise an
   * AttributeError.
   */
  function GrantedPassthroughAsWritten(x: GrantedPair): Result<GrantedPair>
  {
    Err(AttributeError)
  }

  /** `Granted.delete` and `Granted.get` as evidently intended: the granted-side passthrough of the same pair. */
  function GrantedPassthrough(x: GrantedPair): Result<GrantedPair>
  {
    NewGrantedPair(x.granted, x.grantedType)
  }

  /** For every pair that built a `Granted`, the passthroughs as written fail and the intended ones succeed unchanged. */
  lemma GrantedPassthroughFails(granted: Option<string>, grantedType: Option<string>)
    requires NewGrantedPair(granted, grantedType).Ok?
    ensures GrantedPassthroughAsWritten(NewGrantedPair(granted, grantedType).value) == Err(AttributeError)
    ensures GrantedPassthrough(NewGrantedPair(granted, grantedType).value) == NewGrantedPair(granted, grantedType)
  {
  }
}
