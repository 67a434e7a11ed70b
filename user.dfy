/**
 * Users (dash_access/access/user.py): a user's grants are edges of the
 * relationships ledger whose principal is the user, to groups (memberships)
 * and to permissions. A user's permissions are its own plus those of every
 * group reachable from its groups along group -> group edges, and an access
 * decision is logged to the access-events table.
 */
module User {
  import opened Base
  import opened Sqlite3
  import opened Relationship
  import opened Inheritance
  import opened Group

  // ---------------------------------------------------------------------
  // add_* / remove_*
  // ---------------------------------------------------------------------

  /** `add_groups`: create each membership edge of the user that does not exist yet. */
  method AddGroups(store: Sqlite3AccessStore, userId: string, groups: seq<string>, now: string) returns (r: bool)
    modifies store
    ensures r
    ensures store.tables == CreateMissing(old(store.tables), Grants(userId, "user", groups, "group"), now)
  {
    AddMissing(store, Grants(userId, "user", groups, "group"), now);
    r := true;
  }

  /** `remove_groups`: delete each membership edge of the user. */
  method RemoveGroups(store: Sqlite3AccessStore, userId: string, groups: seq<string>, now: string) returns (r: bool)
    modifies store
    ensures r
    ensures store.tables == DeleteEach(old(store.tables), EdgeKeys(Grants(userId, "user", groups, "group")), now)
  {
    RemoveEdges(store, Grants(userId, "user", groups, "group"), now);
    r := true;
  }

  /** `add_permissions`: create each permission edge of the user, whether or not it exists. */
  method AddPermissions(store: Sqlite3AccessStore, userId: string, permissions: seq<string>, now: string) returns (r: bool)
    modifies store
    ensures r
    ensures store.tables == CreateEach(old(store.tables), Grants(userId, "user", permissions, "permission"), now)
  {
    var edges := Grants(userId, "user", permissions, "permission");
    ghost var start := store.tables;
    var i := 0;
    while i < |edges|
      invariant 0 <= i <= |edges|
      invariant store.tables == CreateEach(start, edges[..i], now)
    {
      CreateEachStep(start, edges, i, now);
      var _ := Create(store, ArgsOf(edges[i]), now);
      i := i + 1;
    }
    assert edges[..i] == edges;
    r := true;
  }

  /** `remove_permissions`: delete each permission edge of the user. */
  method RemovePermissions(store: Sqlite3AccessStore, userId: string, permissions: seq<string>, now: string) returns (r: bool)
    modifies store
    ensures r
    ensures store.tables == DeleteEach(old(store.tables), EdgeKeys(Grants(userId, "user", permissions, "permission")), now)
  {
    RemoveEdges(store, Grants(userId, "user", permissions, "permission"), now);
    r := true;
  }

  /**
   * After `add_groups` the user belongs to every listed group, and repeating
   * the call writes nothing at all.
   */
  lemma AddGroupsMakesMemberships(db: Db, userId: string, groups: seq<string>, now: string, later: string)
    ensures var after := CreateMissing(db, Grants(userId, "user", groups, "group"), now);
      && (forall g | g in groups :: HasEdge(after, Edge(userId, "user", g, "group")))
      && CreateMissing(after, Grants(userId, "user", groups, "group"), later) == after
  {
    var edges := Grants(userId, "user", groups, "group");
    CreateMissingMakesEdges(db, edges, now);
    CreateMissingIdempotent(db, edges, now, later);
    forall g | g in groups
      ensures HasEdge(CreateMissing(db, edges, now), Edge(userId, "user", g, "group"))
    {
      var i :| 0 <= i < |groups| && groups[i] == g;
      assert edges[i] in edges;
    }
  }

  /**
   * After `add_permissions` the user holds every listed permission, and a
   * second `create` of an edge leaves the relationships table as it was but
   * writes one more audit row.
   */
  lemma AddPermissionsMakesGrants(db: Db, userId: string, permissions: seq<string>, now: string)
    ensures var after := CreateEach(db, Grants(userId, "user", permissions, "permission"), now);
      forall p | p in permissions :: HasEdge(after, Edge(userId, "user", p, "permission"))
  {
    var edges := Grants(userId, "user", permissions, "permission");
    CreateEachMakesEdges(db, edges, now);
    forall p | p in permissions
      ensures HasEdge(CreateEach(db, edges, now), Edge(userId, "user", p, "permission"))
    {
      var i :| 0 <= i < |permissions| && permissions[i] == p;
      assert edges[i] in edges;
    }
  }

  /** Creating an edge that exists already rewrites the same rows and logs once more. */
  lemma CreateTwice(db: Db, e: Edge, now: string)
    ensures var once := CreateDb(db, e, now);
      && Rows(CreateDb(once, e, now), RelationshipsTable) == Rows(once, RelationshipsTable)
      && |Rows(CreateDb(once, e, now), AdminEventsTable)| == |Rows(once, AdminEventsTable)| + 1
  {
    EncodeRecord(e, now);
    UpsertIdempotent(Rows(db, RelationshipsTable), Str(Id(e)), Record(e, now));
  }

  /**
   * After `remove_groups` or `remove_permissions` none of the listed edges
   * exists, and every relationship holding another key is kept.
   */
  lemma RemoveTakesOnlyListed(db: Db, userId: string, granted: seq<string>, grantedType: string, now: string)
    ensures var edges := Grants(userId, "user", granted, grantedType);
      var after := DeleteEach(db, EdgeKeys(edges), now);
      && (forall g | g in granted :: !HasEdge(after, Edge(userId, "user", g, grantedType)))
      && (forall r | r in Rows(db, RelationshipsTable) &&
            (forall g | g in granted :: !HasId(r, Str(Id(Edge(userId, "user", g, grantedType))))) ::
            r in Rows(after, RelationshipsTable))
  {
    var edges := Grants(userId, "user", granted, grantedType);
    RemoveEdgesRemoves(db, edges, now);
    forall g | g in granted
      ensures Edge(userId, "user", g, grantedType) in edges
    {
      var i :| 0 <= i < |granted| && granted[i] == g;
      assert edges[i] == Edge(userId, "user", g, grantedType);
    }
    forall e | e in edges
      ensures e.granted in granted && e == Edge(userId, "user", e.granted, grantedType)
    {
      var i :| 0 <= i < |edges| && edges[i] == e;
    }
  }

  // ---------------------------------------------------------------------
  // groups
  // ---------------------------------------------------------------------

  /** What `get_all` is asked for a user's groups. */
  function GroupsArgs(userId: string): Args
  {
    Args(Some(userId), Some("user"), None, Some("group"))
  }

  /** What `get_all` is asked for a user's own permissions. */
  function OwnPermissionsArgs(userId: string): Args
  {
    Args(Some(userId), Some("user"), None, Some("permission"))
  }

  /** The groups of a list, with everything each of them inherits. */
  ghost function WithInherited(db: Db, direct: seq<string>): set<string>
  {
    (set d | d in direct) + set d, y | d in direct && y in GroupInherits(db, d, {}) :: y
  }

  lemma WithInheritedStep(db: Db, direct: seq<string>, i: nat)
    requires i < |direct|
    ensures WithInherited(db, direct[..i + 1]) == WithInherited(db, direct[..i]) + {direct[i]} + GroupInherits(db, direct[i], {})
  {
    var a, b, d := direct[..i], direct[..i + 1], direct[i];
    assert b == a + [d];
    assert forall x :: x in b <==> x in a || x == d;
    forall y | y in WithInherited(db, b)
      ensures y in WithInherited(db, a) + {d} + GroupInherits(db, d, {})
    {
      if y !in b {
        var x :| x in b && y in GroupInherits(db, x, {});
        if x != d {
          assert x in a;
        }
      }
    }
    forall y | y in WithInherited(db, a) + {d} + GroupInherits(db, d, {})
      ensures y in WithInherited(db, b)
    {
      if y in WithInherited(db, a) && y !in a {
        var x :| x in a && y in GroupInherits(db, x, {});
        assert x in b;
      }
    }
  }

  /**
   * `groups`: the user's direct groups, each with what `inherits` reports
   * for it, without repeats.
   */
  method Groups(store: Sqlite3AccessStore, userId: string) returns (r: set<string>)
    ensures r == WithInherited(store.tables, GrantedOf(store.tables, GroupsArgs(userId)))
  {
    var direct := Relationship.GetAll(store, GroupsArgs(userId));
    r := {};
    var i := 0;
    while i < |direct|
      invariant 0 <= i <= |direct|
      invariant r == WithInherited(store.tables, direct[..i])
    {
      var more := Inherits(store, direct[i], {});
      WithInheritedStep(store.tables, direct, i);
      r := r + {direct[i]} + more;
      i := i + 1;
    }
    assert direct[..i] == direct;
  }

  /**
   * What `groups` returns holds every direct group, and everything `inherits`
   * reports for any group in it: iterating over the groups it appends, as the
   * loop does, adds nothing new.
   */
  lemma GroupsClosed(db: Db, direct: seq<string>)
    ensures forall d | d in direct :: d in WithInherited(db, direct)
    ensures forall g | g in WithInherited(db, direct) :: GroupInherits(db, g, {}) <= WithInherited(db, direct)
  {
    var all := WithInherited(db, direct);
    var kids, recorded, names := GroupKids(db), Recorded(db), GrantedNames(db);
    forall g | g in all
      ensures GroupInherits(db, g, {}) <= all
    {
      GroupInheritsReach(db, g);
      if g !in direct {
        var d :| d in direct && g in GroupInherits(db, d, {});
        GroupInheritsReach(db, d);
        forall y | y in Reach(kids, recorded, names, g)
          ensures y in all
        {
          ReachTransitive(kids, recorded, names, d, g, y);
        }
      }
    }
  }

  // ---------------------------------------------------------------------
  // permissions
  // ---------------------------------------------------------------------

  /** Every name is taken as recorded: the walk of `permissions` never looks for group records. */
  ghost function Anyone(): string -> bool
  {
    x => true
  }

  /** The groups reachable from any group of `direct` (itself included) along group -> group edges. */
  ghost function Closure(db: Db, direct: set<string>): set<string>
  {
    direct + set d, y | d in direct && y in Reach(GroupKids(db), Anyone(), GrantedNames(db), d) :: y
  }

  /** The direct groups of each group of a set. */
  ghost function ChildrenOf(db: Db, s: set<string>): set<string>
  {
    set x, g | x in s && g in ChildSeq(db, x) :: g
  }

  /** The invariant of the walk of `permissions`. */
  ghost predicate Walk(db: Db, direct: set<string>, visited: set<string>, toFetch: set<string>, inherited: set<string>)
  {
    && visited <= inherited
    && toFetch <= inherited
    && inherited <= visited + toFetch
    && inherited == direct + ChildrenOf(db, visited)
    && inherited <= Closure(db, direct)
  }

  /** A group of the closure reaches only groups of the closure. */
  lemma ChildInClosure(db: Db, direct: set<string>, g: string, c: string)
    requires g in Closure(db, direct) && c in ChildSeq(db, g)
    ensures c in Closure(db, direct)
  {
    var kids, names := GroupKids(db), GrantedNames(db);
    ChildrenGranted(db);
    ReachEdge(kids, Anyone(), names, g, c);
    if g !in direct {
      var d :| d in direct && g in Reach(kids, Anyone(), names, d);
      ReachTransitive(kids, Anyone(), names, d, g, c);
    }
  }

  /** Expanding one group not yet visited keeps the invariant of the walk. */
  lemma WalkStep(db: Db, direct: set<string>, visited: set<string>, toFetch: set<string>, inherited: set<string>, g: string)
    requires Walk(db, direct, visited, toFetch, inherited)
    requires g in toFetch && g !in visited
    ensures var kids := set c | c in ChildSeq(db, g);
      Walk(db, direct, visited + {g}, (toFetch - {g}) + kids, inherited + kids)
  {
    var kids := set c | c in ChildSeq(db, g);
    assert ChildrenOf(db, visited + {g}) == ChildrenOf(db, visited) + kids;
    forall c | c in kids
      ensures c in Closure(db, direct)
    {
      ChildInClosure(db, direct, g, c);
    }
  }

  /** When nothing is left to fetch, the walk has found exactly the closure. */
  lemma WalkDone(db: Db, direct: set<string>, visited: set<string>, inherited: set<string>)
    requires Walk(db, direct, visited, {}, inherited)
    ensures inherited == Closure(db, direct)
  {
    var kids, names := GroupKids(db), GrantedNames(db);
    assert visited == inherited;
    assert ClosedUnder(kids, Anyone(), inherited) by {
      forall x, g | x in inherited && Anyone()(x) && g in kids(x)
        ensures g in inherited
      {
        assert g in ChildrenOf(db, visited);
      }
    }
    forall d | d in direct
      ensures Reach(kids, Anyone(), names, d) <= inherited
    {
      ReachWithin(kids, Anyone(), names, inherited, d);
    }
  }

  /** The walk starts with the direct groups to fetch and nothing visited. */
  lemma WalkStart(db: Db, direct: set<string>)
    ensures Walk(db, direct, {}, direct, direct)
  {
    assert ChildrenOf(db, {}) == {};
  }

  /** Expanding one group not yet visited keeps the invariant, stays among the granted names, and leaves fewer groups unseen. */
  lemma WalkAdvance(db: Db, direct: set<string>, universe: set<string>, visited: set<string>, toFetch: set<string>,
                    inherited: set<string>, g: string)
    requires Walk(db, direct, visited, toFetch, inherited) && inherited <= universe
    requires universe == direct + GrantedNames(db) && g in toFetch && g !in visited
    ensures var kids := set c | c in ChildSeq(db, g);
      && Walk(db, direct, visited + {g}, (toFetch - {g}) + kids, inherited + kids)
      && inherited + kids <= universe
      && |universe - (visited + {g})| < |universe - visited|
  {
    WalkStep(db, direct, visited, toFetch, inherited, g);
    LessUnseen(universe, visited, g);
    ChildrenGranted(db);
    assert forall c | c in ChildSeq(db, g) :: c in GroupKids(db)(g);
  }

  /**
   * The walk of `permissions`: every group reachable from the user's direct
   * groups, each group expanded at most once, so cycles end the walk.
   */
  method InheritedGroups(store: Sqlite3AccessStore, direct: seq<string>) returns (inherited: set<string>)
    ensures inherited == Closure(store.tables, set d | d in direct)
  {
    ghost var db := store.tables;
    var start := set d | d in direct;
    ghost var universe := start + GrantedNames(db);
    ChildrenGranted(db);
    WalkStart(db, start);
    var visited: set<string> := {};
    inherited := start;
    var toFetch := start;
    while toFetch != {}
      invariant Walk(db, start, visited, toFetch, inherited)
      invariant inherited <= universe
      decreases |universe - visited|, |toFetch|
    {
      var g :| g in toFetch;
      if g in visited {
        toFetch := toFetch - {g};
        continue;
      }
      var granted := Relationship.GetAll(store, InheritsArgs(g));
      assert granted == ChildSeq(db, g);
      WalkAdvance(db, start, universe, visited, toFetch, inherited, g);
      inherited := inherited + set c | c in granted;
      visited := visited + {g};
      toFetch := (toFetch - {g}) + set c | c in granted;
    }
    WalkDone(db, start, visited, inherited);
  }

  /** The permissions `get_all` lists as granted to the user itself. */
  function OwnPermissions(db: Db, userId: string): set<string>
  {
    set p | p in GrantedOf(db, OwnPermissionsArgs(userId))
  }

  /** The value of `permissions(user_id)`. */
  ghost function UserPermissions(db: Db, userId: string): set<string>
  {
    OwnPermissions(db, userId) + PermsOf(db, Closure(db, set d | d in GrantedOf(db, GroupsArgs(userId))))
  }

  /** `permissions`: the user's own permissions and those of every group the walk finds. */
  method Permissions(store: Sqlite3AccessStore, userId: string) returns (r: set<string>)
    ensures r == UserPermissions(store.tables, userId)
  {
    var own := Relationship.GetAll(store, OwnPermissionsArgs(userId));
    var direct := Relationship.GetAll(store, GroupsArgs(userId));
    var inherited := InheritedGroups(store, direct);
    var perms := PermissionsOfGroups(store, inherited);
    r := (set p | p in own) + perms;
  }

  /**
   * A user holds a permission exactly when a relationship grants it to the
   * user, or to a group reachable from one of the user's groups.
   */
  lemma UserPermissionsMembers(db: Db, userId: string, perm: string)
    ensures perm in UserPermissions(db, userId) <==>
      (exists row | row in Rows(db, RelationshipsTable) :: Matches(row, OwnPermissionsArgs(userId)) && Granted(row) == perm) ||
      (exists g | g in Closure(db, set d | d in GrantedOf(db, GroupsArgs(userId))) ::
         exists row | row in Rows(db, RelationshipsTable) :: Matches(row, PermissionsArgs(g)) && Granted(row) == perm)
  {
    GrantedOfMembers(db, OwnPermissionsArgs(userId), perm);
    forall g
      ensures perm in PermSeq(db, g) <==>
        exists row | row in Rows(db, RelationshipsTable) :: Matches(row, PermissionsArgs(g)) && Granted(row) == perm
    {
      GrantedOfMembers(db, PermissionsArgs(g), perm);
    }
  }

  /**
   * The user-level walk never looks for group records, so a user holds at
   * least what `group.permissions` reports for each of the user's groups.
   */
  lemma UserCoversGroupPermissions(db: Db, userId: string, d: string)
    requires d in GrantedOf(db, GroupsArgs(userId)) && HasRecord(db, d)
    ensures PermsOf(db, {d} + GroupInherits(db, d, {})) <= UserPermissions(db, userId)
  {
    var kids, names := GroupKids(db), GrantedNames(db);
    var start := set x | x in GrantedOf(db, GroupsArgs(userId));
    GroupInheritsReach(db, d);
    ReachMonotone(kids, Recorded(db), Anyone(), names, d);
    assert {d} + GroupInherits(db, d, {}) <= Closure(db, start);
  }

  // ---------------------------------------------------------------------
  // has_access
  // ---------------------------------------------------------------------

  /** The row `permission_access` inserts. */
  function AccessRow(userId: string, permission: string, ts: string, status: bool): Row
  {
    map["user_id" := Str(userId), "permission" := Str(permission), "ts" := Str(ts), "status" := Bool(status)]
  }

  /** `permission_access`: insert one access event. */
  method PermissionAccess(store: Sqlite3AccessStore, userId: string, permission: string, ts: string, status: bool)
    returns (ok: bool)
    modifies store
    ensures ok
    ensures store.tables == InsertDb(old(store.tables), AccessEventsTable, AccessRow(userId, permission, ts, status))
  {
    assert EncodeRow(AccessRow(userId, permission, ts, status)) == AccessRow(userId, permission, ts, status);
    ok := store.Insert(AccessEventsTable, AccessRow(userId, permission, ts, status));
  }

  /** The decision of `has_access`: the permission itself or the wildcard "*". */
  predicate Allowed(perms: set<string>, permission: string)
  {
    permission in perms || "*" in perms
  }

  /**
   * `has_access`: None, and nothing logged, without a user or a permission;
   * otherwise the decision, logged as one access event at time `now`.
   */
  method HasAccess(store: Sqlite3AccessStore, userId: Option<string>, permission: Option<string>, now: string)
    returns (r: Option<bool>)
    modifies store
    ensures userId.None? || permission.None? ==> r.None? && store.tables == old(store.tables)
    ensures userId.Some? && permission.Some? ==>
      var decision := Allowed(UserPermissions(old(store.tables), userId.value), permission.value);
      && r == Some(decision)
      && store.tables == InsertDb(old(store.tables), AccessEventsTable, AccessRow(userId.value, permission.value, now, decision))
  {
    if userId.None? || permission.None? {
      return None;
    }
    var perms := Permissions(store, userId.value);
    var decision := permission.value in perms || "*" in perms;
    var _ := PermissionAccess(store, userId.value, permission.value, now, decision);
    r := Some(decision);
  }

  /**
   * A decision logs exactly one access event, at the end of the table, whose
   * status is the decision; no other table changes.
   */
  lemma AccessLoggedOnce(db: Db, userId: string, permission: string, now: string)
    ensures var decision := Allowed(UserPermissions(db, userId), permission);
      var after := InsertDb(db, AccessEventsTable, AccessRow(userId, permission, now, decision));
      && |Rows(after, AccessEventsTable)| == |Rows(db, AccessEventsTable)| + 1
      && Rows(after, AccessEventsTable)[|Rows(db, AccessEventsTable)|]["status"] == Bool(decision)
      && forall t | t != AccessEventsTable :: Rows(after, t) == Rows(db, t)
  {
  }

  /**
   * The wildcard: a user holding "*" is allowed every permission, and a user
   * without it is allowed exactly the permissions it holds.
   */
  lemma Wildcard(db: Db, userId: string, permission: string)
    ensures "*" in UserPermissions(db, userId) ==> Allowed(UserPermissions(db, userId), permission)
    ensures "*" !in UserPermissions(db, userId) ==>
      (Allowed(UserPermissions(db, userId), permission) <==> permission in UserPermissions(db, userId))
  {
  }
}
