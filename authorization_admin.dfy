/**
 * The administrative commands of RoleController and PermissionController
 * that write the authorization tables: each runs its guards in order and
 * writes at most one row.
 */
module AuthorizationAdmin {
  import opened Wrappers
  import opened Text
  import opened AuthorizationEntities
  import opened RoleHierarchy
  import opened RolePermissions
  import opened RoleRanks
  import opened PermissionResolution

  /** The JSON responses: 201, 404 with a message, 422 with a message. */
  datatype Response = Created | NotFound(message: string) | Unprocessable(message: string)

  /** No two rows of the name column are equal under its collation: the UNIQUE index. */
  predicate RoleNamesUnique(roles: seq<RoleRow>) {
    forall i, j :: 0 <= i < j < |roles| ==> CollationKey(roles[i].name) != CollationKey(roles[j].name)
  }

  predicate PermissionNamesUnique(permissions: seq<PermissionRow>) {
    forall i, j :: 0 <= i < j < |permissions| ==> CollationKey(permissions[i].name) != CollationKey(permissions[j].name)
  }

  /** The authorization tables, with the next value of each auto-increment id. */
  class AuthorizationDb {
    var roles: seq<RoleRow>
    var permissions: seq<PermissionRow>
    var roleRanks: seq<RoleRank>
    var rolePermissions: seq<RolePermission>
    var hierarchy: seq<HierarchyEdge>
    var nextRoleId: int
    var nextPermissionId: int

    /**
     * Generated ids stay below the next id, names are unique under the
     * collation, and the hierarchy has no cycle.
     */
    ghost predicate Valid()
      reads this
    {
      && (forall r :: r in roles ==> r.id < nextRoleId)
      && (forall p :: p in permissions ==> p.id < nextPermissionId)
      && RoleNamesUnique(roles)
      && PermissionNamesUnique(permissions)
      && Acyclic(hierarchy)
    }

    constructor ()
      ensures Valid()
      ensures roles == [] && permissions == [] && roleRanks == [] && rolePermissions == [] && hierarchy == []
    {
      roles, permissions, roleRanks, rolePermissions, hierarchy := [], [], [], [], [];
      nextRoleId, nextPermissionId := 1, 1;
    }

    /** RoleRepository::save() of a new role: the row gets the next generated id. */
    method SaveRole(role: Role)
      requires Valid()
      requires forall r :: r in roles ==> CollationKey(r.name) != CollationKey(role.name)
      modifies this
      ensures Valid()
      ensures roles == old(roles) + [role.Row(old(nextRoleId))] && nextRoleId == old(nextRoleId) + 1
      ensures permissions == old(permissions) && nextPermissionId == old(nextPermissionId)
      ensures roleRanks == old(roleRanks) && rolePermissions == old(rolePermissions) && hierarchy == old(hierarchy)
    {
      var row := role.Row(nextRoleId);
      forall i, j | 0 <= i < j < |roles + [row]|
        ensures CollationKey((roles + [row])[i].name) != CollationKey((roles + [row])[j].name)
      {
        if j == |roles| {
          assert (roles + [row])[i] in roles;
        } else {
          assert (roles + [row])[i] == roles[i] && (roles + [row])[j] == roles[j];
        }
      }
      roles := roles + [row];
      nextRoleId := nextRoleId + 1;
    }

    /** PermissionRepository::save() of a new permission. */
    method SavePermission(permission: Permission)
      requires Valid()
      requires forall p :: p in permissions ==> CollationKey(p.name) != CollationKey(permission.name)
      modifies this
      ensures Valid()
      ensures permissions == old(permissions) + [permission.Row(old(nextPermissionId))]
      ensures nextPermissionId == old(nextPermissionId) + 1
      ensures roles == old(roles) && nextRoleId == old(nextRoleId)
      ensures roleRanks == old(roleRanks) && rolePermissions == old(rolePermissions) && hierarchy == old(hierarchy)
    {
      var row := permission.Row(nextPermissionId);
      forall i, j | 0 <= i < j < |permissions + [row]|
        ensures CollationKey((permissions + [row])[i].name) != CollationKey((permissions + [row])[j].name)
      {
        if j == |permissions| {
          assert (permissions + [row])[i] in permissions;
        } else {
          assert (permissions + [row])[i] == permissions[i] && (permissions + [row])[j] == permissions[j];
        }
      }
      permissions := permissions + [row];
      nextPermissionId := nextPermissionId + 1;
    }

    /** RoleHierarchyRepository::save(): only an edge that closes no cycle keeps the table acyclic. */
    method SaveHierarchy(edge: HierarchyEdge)
      requires Valid()
      requires !Reaches(hierarchy, edge.childRoleId, edge.parentRoleId)
      modifies this
      ensures Valid()
      ensures hierarchy == old(hierarchy) + [edge]
      ensures roles == old(roles) && permissions == old(permissions)
      ensures roleRanks == old(roleRanks) && rolePermissions == old(rolePermissions)
      ensures nextRoleId == old(nextRoleId) && nextPermissionId == old(nextPermissionId)
    {
      AddEdgeKeepsAcyclic(hierarchy, edge.parentRoleId, edge.childRoleId);
      hierarchy := hierarchy + [edge];
    }

    /** RoleRankRepository::save(). */
    method SaveRoleRank(link: RoleRank)
      requires Valid()
      modifies this
      ensures Valid()
      ensures roleRanks == old(roleRanks) + [link]
      ensures roles == old(roles) && permissions == old(permissions)
      ensures rolePermissions == old(rolePermissions) && hierarchy == old(hierarchy)
      ensures nextRoleId == old(nextRoleId) && nextPermissionId == old(nextPermissionId)
    {
      roleRanks := roleRanks + [link];
    }

    /** RolePermissionRepository::save(). */
    method SaveRolePermission(link: RolePermission)
      requires Valid()
      modifies this
      ensures Valid()
      ensures rolePermissions == old(rolePermissions) + [link]
      ensures roles == old(roles) && permissions == old(permissions)
      ensures roleRanks == old(roleRanks) && hierarchy == old(hierarchy)
      ensures nextRoleId == old(nextRoleId) && nextPermissionId == old(nextPermissionId)
    {
      rolePermissions := rolePermissions + [link];
    }

    /** What the resolver reads. */
    function Store(): (store: AuthStore)
      reads this
      ensures store.permissions == permissions && store.roleRanks == roleRanks
      ensures store.hierarchy == hierarchy && store.rolePermissions == rolePermissions
    {
      AuthStore(permissions, roleRanks, hierarchy, rolePermissions)
    }
  }

  // ---------------------------------------------------------------------------
  // Creating roles and permissions

  /**
   * The duplicate guard of RoleController::create() as written: findByName()
   * on the raw request name, while the row stores the trimmed, lower-cased name.
   */
  function RoleCreateGuardAsWritten(roles: seq<RoleRow>, name: string): (admits: bool)
    ensures admits <==> forall r :: r in roles ==> CollationKey(r.name) != CollationKey(name)
  {
    FindRoleByName(roles, name).None?
  }

  /**
   * The guard as written lets a name with a leading blank through although
   * its stored form equals an existing role's name: the insert then breaks
   * the unique index instead of answering 422.
   */
  lemma RoleCreateGuardAsWrittenAdmitsDuplicate()
    ensures RoleCreateGuardAsWritten([RoleRow(1, "admin", None, ACTIVE)], " admin")
    ensures RoleName(" admin") == "admin"
  {
    LeadingBlankKeepsKey();
    LeadingBlankIsTrimmed();
  }

  lemma LeadingBlankKeepsKey()
    ensures CollationKey("admin") == "admin" && CollationKey(" admin") == " admin"
  {
    assert TrimTrailingSpaces("admin") == "admin";
    assert TrimTrailingSpaces(" admin") == " admin";
    assert Lower(" admin") == " admin";
    assert Lower("admin") == "admin";
  }

  lemma LeadingBlankIsTrimmed()
    ensures RoleName(" admin") == "admin"
  {
    LeadingBlankIsDropped();
    AdminIsStoredForm();
  }

  lemma LeadingBlankIsDropped()
    ensures TrimLeft(" admin") == "admin"
  {
    var admin := "admin";
    assert " admin" == [' '] + admin;
    TrimLeftSkips(' ', admin);
    assert admin[0] == 'a';
    TrimLeftKeeps(admin);
  }

  lemma AdminIsStoredForm()
    ensures TrimRight("admin") == "admin" && Lower("admin") == "admin"
  {
  }

  /** The guard the command evidently means: look up the name the row will store. */
  function RoleCreateGuard(roles: seq<RoleRow>, name: string): (admits: bool)
    ensures admits <==> forall r :: r in roles ==> CollationKey(r.name) != CollationKey(RoleName(name))
  {
    FindRoleByName(roles, RoleName(name)).None?
  }

  /**
   * RoleController::create(), with the duplicate guard on the stored form of
   * the name: 422 if a role of that name exists, else one new active row.
   */
  method CreateRole(db: AuthorizationDb, name: string, description: Option<string>) returns (response: Response)
    requires db.Valid()
    modifies db
    ensures db.Valid()
    ensures !RoleCreateGuard(old(db.roles), name) ==>
              response == Unprocessable("Role already exists") && db.roles == old(db.roles) && db.nextRoleId == old(db.nextRoleId)
    ensures RoleCreateGuard(old(db.roles), name) ==>
              && response == Created
              && db.roles == old(db.roles) + [RoleRow(old(db.nextRoleId), RoleName(name), description, ACTIVE)]
              && db.nextRoleId == old(db.nextRoleId) + 1
    ensures db.permissions == old(db.permissions) && db.nextPermissionId == old(db.nextPermissionId)
    ensures db.roleRanks == old(db.roleRanks) && db.rolePermissions == old(db.rolePermissions)
    ensures db.hierarchy == old(db.hierarchy)
  {
    if !RoleCreateGuard(db.roles, name) {
      return Unprocessable("Role already exists");
    }
    var role := new Role.Create(name, description);
    db.SaveRole(role);
    response := Created;
  }

  /**
   * The CreatePermissionDTO constraints: not blank, 2 to 255 characters, and
   * /^[A-Z][A-Z0-9_]*$/. PCRE's `$` also matches just before a final newline,
   * so one trailing "\n" passes the pattern.
   */
  predicate PermissionNamePattern(s: string) {
    |s| >= 1 && 'A' <= s[0] <= 'Z'
    && forall i :: 1 <= i < |s| ==> 'A' <= s[i] <= 'Z' || '0' <= s[i] <= '9' || s[i] == '_'
  }

  predicate ValidPermissionRequest(name: string) {
    && name != ""
    && 2 <= |name| <= 255
    && (PermissionNamePattern(name)
        || (|name| >= 1 && name[|name| - 1] == '\n' && PermissionNamePattern(name[..|name| - 1])))
  }

  /** The duplicate guard of PermissionController::create() as written: findByName() on the raw name. */
  function PermissionCreateGuardAsWritten(permissions: seq<PermissionRow>, name: string): (admits: bool)
    ensures admits <==> forall p :: p in permissions ==> CollationKey(p.name) != CollationKey(name)
  {
    FindPermissionByName(permissions, name).None?
  }

  /**
   * "ABC\n" satisfies the request constraints and passes the guard as written
   * next to a stored "ABC", yet it is stored as "ABC".
   */
  lemma PermissionCreateGuardAsWrittenAdmitsDuplicate()
    ensures ValidPermissionRequest("ABC\n")
    ensures PermissionCreateGuardAsWritten([PermissionRow(1, "ABC", None, ACTIVE)], "ABC\n")
    ensures PermissionName("ABC\n") == "ABC"
  {
    TrailingNewlinePassesPattern();
    TrailingNewlineKeepsKey();
    TrailingNewlineIsTrimmed();
  }

  lemma TrailingNewlinePassesPattern()
    ensures ValidPermissionRequest("ABC\n")
  {
    assert "ABC\n"[..3] == "ABC";
    assert PermissionNamePattern("ABC");
  }

  lemma TrailingNewlineKeepsKey()
    ensures CollationKey("ABC") == "abc" && CollationKey("ABC\n") == "abc\n"
  {
    assert TrimTrailingSpaces("ABC") == "ABC";
    assert TrimTrailingSpaces("ABC\n") == "ABC\n";
  }

  lemma TrailingNewlineIsTrimmed()
    ensures PermissionName("ABC\n") == "ABC"
  {
    assert TrimLeft("ABC\n") == "ABC\n";
    assert TrimRight("ABC\n") == "ABC" by {
      assert "ABC\n"[..3] == "ABC";
    }
    assert Upper("ABC") == "ABC";
  }

  /** The corrected guard: look up the name the row will store. */
  function PermissionCreateGuard(permissions: seq<PermissionRow>, name: string): (admits: bool)
    ensures admits <==> forall p :: p in permissions ==> CollationKey(p.name) != CollationKey(PermissionName(name))
  {
    FindPermissionByName(permissions, PermissionName(name)).None?
  }

  /** PermissionController::create(), with the duplicate guard on the stored form of the name. */
  method CreatePermission(db: AuthorizationDb, name: string, description: Option<string>) returns (response: Response)
    requires ValidPermissionRequest(name)
    requires db.Valid()
    modifies db
    ensures db.Valid()
    ensures !PermissionCreateGuard(old(db.permissions), name) ==>
              && response == Unprocessable("Permission already exists")
              && db.permissions == old(db.permissions) && db.nextPermissionId == old(db.nextPermissionId)
    ensures PermissionCreateGuard(old(db.permissions), name) ==>
              && response == Created
              && db.permissions == old(db.permissions) + [PermissionRow(old(db.nextPermissionId), PermissionName(name), description, ACTIVE)]
              && db.nextPermissionId == old(db.nextPermissionId) + 1
    ensures db.roles == old(db.roles) && db.nextRoleId == old(db.nextRoleId)
    ensures db.roleRanks == old(db.roleRanks) && db.rolePermissions == old(db.rolePermissions)
    ensures db.hierarchy == old(db.hierarchy)
  {
    if !PermissionCreateGuard(db.permissions, name) {
      return Unprocessable("Permission already exists");
    }
    var permission := new Permission.Create(name, description);
    db.SavePermission(permission);
    response := Created;
  }

  // ---------------------------------------------------------------------------
  // Linking

  /**
   * RoleController::assignToRank(): 404 for an unknown role, 422 for a link
   * that exists, else one new link and the rank's list entry dropped from
   * the resolver's cache (its check verdicts stay).
   */
  method AssignToRank(db: AuthorizationDb, resolver: PermissionResolver, roleId: int, rankId: int)
    returns (response: Response)
    requires db.Valid() && resolver.Valid()
    modifies db, resolver
    ensures db.Valid() && resolver.Valid()
    ensures FindRole(old(db.roles), roleId).None? ==>
              response == NotFound("Role not found") && db.roleRanks == old(db.roleRanks) && resolver.cache == old(resolver.cache)
    ensures FindRole(old(db.roles), roleId).Some? && RoleRank(roleId, rankId) in old(db.roleRanks) ==>
              && response == Unprocessable("Role is already assigned to this rank")
              && db.roleRanks == old(db.roleRanks) && resolver.cache == old(resolver.cache)
    ensures FindRole(old(db.roles), roleId).Some? && RoleRank(roleId, rankId) !in old(db.roleRanks) ==>
              && response == Created
              && db.roleRanks == old(db.roleRanks) + [RoleRank(roleId, rankId)]
              && resolver.cache == ClearedCache(old(resolver.cache), Some(rankId))
    ensures db.roles == old(db.roles) && db.permissions == old(db.permissions)
    ensures db.rolePermissions == old(db.rolePermissions) && db.hierarchy == old(db.hierarchy)
    ensures db.nextRoleId == old(db.nextRoleId) && db.nextPermissionId == old(db.nextPermissionId)
  {
    var role := FindRole(db.roles, roleId);
    if role.None? {
      return NotFound("Role not found");
    }
    var existing := FindByRoleAndRank(db.roleRanks, roleId, rankId);
    if existing.Some? {
      return Unprocessable("Role is already assigned to this rank");
    }
    db.SaveRoleRank(RoleRank(roleId, rankId));
    resolver.ClearCache(Some(rankId));
    response := Created;
  }

  /**
   * RoleController::createHierarchy(): 404 unless both roles exist, then
   * 422 if the edge would close a cycle, then 422 if it exists, else one new
   * edge. The cache is not touched. The hierarchy stays acyclic.
   */
  method CreateHierarchy(db: AuthorizationDb, parentRoleId: int, childRoleId: int) returns (response: Response)
    requires db.Valid()
    modifies db
    ensures db.Valid()
    ensures FindRole(old(db.roles), parentRoleId).None? || FindRole(old(db.roles), childRoleId).None? ==>
              response == NotFound("One or both roles not found") && db.hierarchy == old(db.hierarchy)
    ensures FindRole(old(db.roles), parentRoleId).Some? && FindRole(old(db.roles), childRoleId).Some?
            && Reaches(old(db.hierarchy), childRoleId, parentRoleId) ==>
              response == Unprocessable("This hierarchy would create a cycle") && db.hierarchy == old(db.hierarchy)
    ensures FindRole(old(db.roles), parentRoleId).Some? && FindRole(old(db.roles), childRoleId).Some?
            && !Reaches(old(db.hierarchy), childRoleId, parentRoleId)
            && HierarchyEdge(parentRoleId, childRoleId) in old(db.hierarchy) ==>
              response == Unprocessable("This hierarchy already exists") && db.hierarchy == old(db.hierarchy)
    ensures FindRole(old(db.roles), parentRoleId).Some? && FindRole(old(db.roles), childRoleId).Some?
            && !Reaches(old(db.hierarchy), childRoleId, parentRoleId)
            && HierarchyEdge(parentRoleId, childRoleId) !in old(db.hierarchy) ==>
              response == Created && db.hierarchy == old(db.hierarchy) + [HierarchyEdge(parentRoleId, childRoleId)]
    ensures db.roles == old(db.roles) && db.permissions == old(db.permissions)
    ensures db.roleRanks == old(db.roleRanks) && db.rolePermissions == old(db.rolePermissions)
    ensures db.nextRoleId == old(db.nextRoleId) && db.nextPermissionId == old(db.nextPermissionId)
  {
    var parentRole := FindRole(db.roles, parentRoleId);
    var childRole := FindRole(db.roles, childRoleId);
    if parentRole.None? || childRole.None? {
      return NotFound("One or both roles not found");
    }
    var cycle := WouldCreateCycle(db.hierarchy, parentRoleId, childRoleId);
    if cycle {
      return Unprocessable("This hierarchy would create a cycle");
    }
    if HierarchyExists(db.hierarchy, parentRoleId, childRoleId) {
      return Unprocessable("This hierarchy already exists");
    }
    db.SaveHierarchy(HierarchyEdge(parentRoleId, childRoleId));
    response := Created;
  }

  /**
   * PermissionController::assignToRole(): 404 for an unknown role, then 404
   * for an unknown permission, then 422 for a link that exists, else one new
   * link. The resolver's cache is not touched.
   */
  method AssignToRole(db: AuthorizationDb, roleId: int, permissionId: int) returns (response: Response)
    requires db.Valid()
    modifies db
    ensures db.Valid()
    ensures FindRole(old(db.roles), roleId).None? ==>
              response == NotFound("Role not found") && db.rolePermissions == old(db.rolePermissions)
    ensures FindRole(old(db.roles), roleId).Some? && FindPermission(old(db.permissions), permissionId).None? ==>
              response == NotFound("Permission not found") && db.rolePermissions == old(db.rolePermissions)
    ensures FindRole(old(db.roles), roleId).Some? && FindPermission(old(db.permissions), permissionId).Some?
            && RolePermission(roleId, permissionId) in old(db.rolePermissions) ==>
              && response == Unprocessable("Permission is already assigned to this role")
              && db.rolePermissions == old(db.rolePermissions)
    ensures FindRole(old(db.roles), roleId).Some? && FindPermission(old(db.permissions), permissionId).Some?
            && RolePermission(roleId, permissionId) !in old(db.rolePermissions) ==>
              response == Created && db.rolePermissions == old(db.rolePermissions) + [RolePermission(roleId, permissionId)]
    ensures db.roles == old(db.roles) && db.permissions == old(db.permissions)
    ensures db.roleRanks == old(db.roleRanks) && db.hierarchy == old(db.hierarchy)
    ensures db.nextRoleId == old(db.nextRoleId) && db.nextPermissionId == old(db.nextPermissionId)
  {
    var role := FindRole(db.roles, roleId);
    if role.None? {
      return NotFound("Role not found");
    }
    var permission := FindPermission(db.permissions, permissionId);
    if permission.None? {
      return NotFound("Permission not found");
    }
    var existing := FindByRoleAndPermission(db.rolePermissions, roleId, permissionId);
    if existing.Some? {
      return Unprocessable("Permission is already assigned to this role");
    }
    db.SaveRolePermission(RolePermission(roleId, permissionId));
    response := Created;
  }
}
