/**
 * RoleRankRepository: the rank-to-role table (veloce_roles_rank) and the
 * composed query that lists every permission name a user rank holds.
 */
module RoleRanks {
  import opened Wrappers
  import opened Rows
  import opened AuthorizationEntities
  import opened RoleHierarchy
  import opened RolePermissions

  /** One row: users of the rank hold the role. */
  datatype RoleRank = RoleRank(roleId: int, rankId: int)

  /** getRoleIdsByRank(): the roleId column of the rows for that rank, in table order. */
  function RoleIdsByRank(rows: seq<RoleRank>, rankId: int): (roleIds: seq<int>)
    ensures |roleIds| <= |rows|
    ensures forall r :: r in roleIds <==> RoleRank(r, rankId) in rows
  {
    if |rows| == 0 then []
    else
      var rest := RoleIdsByRank(rows[1..], rankId);
      assert forall row :: row in rows <==> row == rows[0] || row in rows[1..];
      if rows[0].rankId == rankId then [rows[0].roleId] + rest else rest
  }

  /** findByRoleAndRank(): the position of the link row, or null. */
  function FindByRoleAndRank(rows: seq<RoleRank>, roleId: int, rankId: int): (found: Option<nat>)
    ensures found.Some? <==> RoleRank(roleId, rankId) in rows
    ensures found.Some? ==> found.value < |rows| && rows[found.value] == RoleRank(roleId, rankId)
  {
    IndexOf(rows, RoleRank(roleId, rankId))
  }

  // ---------------------------------------------------------------------------
  // What a rank holds

  /** The rank holds the role directly or inherits it through the hierarchy. */
  ghost predicate RankHoldsRole(roleRanks: seq<RoleRank>, hierarchy: seq<HierarchyEdge>, rankId: int, roleId: int) {
    InClosure(hierarchy, RoleIdsByRank(roleRanks, rankId), roleId)
  }

  /** The ids of the permissions some role the rank holds is linked to. */
  ghost function GrantedPermissionIds(roleRanks: seq<RoleRank>, hierarchy: seq<HierarchyEdge>,
                                      rolePermissions: seq<RolePermission>, rankId: int): set<int>
  {
    set row | row in rolePermissions && RankHoldsRole(roleRanks, hierarchy, rankId, row.roleId) :: row.permissionId
  }

  /** A rank without roles holds no permission at all. */
  lemma NoRolesNoPermissions(roleRanks: seq<RoleRank>, hierarchy: seq<HierarchyEdge>,
                             rolePermissions: seq<RolePermission>, rankId: int)
    requires |RoleIdsByRank(roleRanks, rankId)| == 0
    ensures GrantedPermissionIds(roleRanks, hierarchy, rolePermissions, rankId) == {}
  {
  }

  /**
   * The distinct permission ids of the closure of the rank's roles are exactly
   * the granted permission ids.
   */
  lemma ListedIdsAreGranted(roleRanks: seq<RoleRank>, hierarchy: seq<HierarchyEdge>,
                            rolePermissions: seq<RolePermission>, rankId: int, allRoleIds: seq<int>)
    requires forall x :: x in allRoleIds <==> InClosure(hierarchy, RoleIdsByRank(roleRanks, rankId), x)
    ensures (set p | p in PermissionIdsByRoles(rolePermissions, allRoleIds))
         == GrantedPermissionIds(roleRanks, hierarchy, rolePermissions, rankId)
  {
    var granted := GrantedPermissionIds(roleRanks, hierarchy, rolePermissions, rankId);
    var listed := PermissionIdsByRoles(rolePermissions, allRoleIds);
    forall p | p in granted
      ensures p in listed
    {
      var row :| row in rolePermissions && RankHoldsRole(roleRanks, hierarchy, rankId, row.roleId) && row.permissionId == p;
      assert row.roleId in allRoleIds;
      assert RolePermission(row.roleId, p) == row;
    }
    forall p | p in listed
      ensures p in granted
    {
      var role :| role in allRoleIds && RolePermission(role, p) in rolePermissions;
      assert RankHoldsRole(roleRanks, hierarchy, rankId, role);
    }
  }

  /**
   * getPermissionNamesByRank(): the rank's roles, their closure, the distinct
   * permission ids of the closure, and the names of the active permissions
   * among them. The result is exactly the active names of the granted
   * permissions, in table order; in particular it is empty for a rank without
   * roles and whenever the closure holds no permission.
   */
  method PermissionNamesByRank(roleRanks: seq<RoleRank>, hierarchy: seq<HierarchyEdge>,
                               rolePermissions: seq<RolePermission>, permissions: seq<PermissionRow>, rankId: int)
    returns (names: seq<string>)
    ensures names == ActivePermissionNames(permissions, GrantedPermissionIds(roleRanks, hierarchy, rolePermissions, rankId))
    ensures forall n :: n in names ==> exists p :: p in permissions && p.status == ACTIVE && p.name == n
  {
    var roleIds := RoleIdsByRank(roleRanks, rankId);
    if |roleIds| == 0 {
      NoRolesNoPermissions(roleRanks, hierarchy, rolePermissions, rankId);
      NoIdsNoNames(permissions);
      return [];
    }
    var allRoleIds := AllRoleIdsWithHierarchy(hierarchy, roleIds);
    var permissionIds := PermissionIdsByRoles(rolePermissions, allRoleIds);
    ListedIdsAreGranted(roleRanks, hierarchy, rolePermissions, rankId, allRoleIds);
    if |permissionIds| == 0 {
      assert (set p | p in permissionIds) == {};
      NoIdsNoNames(permissions);
      return [];
    }
    names := ActivePermissionNames(permissions, set p | p in permissionIds);
  }
}
