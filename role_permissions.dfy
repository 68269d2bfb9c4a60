/**
 * RolePermissionRepository: queries over the role-to-permission table
 * (veloce_roles_permission).
 */
module RolePermissions {
  import opened Wrappers
  import opened Rows

  /** One row: the role holds the permission directly. */
  datatype RolePermission = RolePermission(roleId: int, permissionId: int)

  /** A row of the table matches the WHERE clause permissionId = :p AND roleId IN (:roleIds). */
  predicate Grants(row: RolePermission, permissionId: int, roleIds: seq<int>) {
    row.permissionId == permissionId && row.roleId in roleIds
  }

  /** SELECT COUNT(rp.id) ... WHERE permissionId = :p AND roleId IN (:roleIds). */
  function CountAssigned(rows: seq<RolePermission>, permissionId: int, roleIds: seq<int>): (count: nat)
    ensures count <= |rows|
    ensures count > 0 <==> exists row :: row in rows && Grants(row, permissionId, roleIds)
  {
    if |rows| == 0 then 0
    else
      var rest := CountAssigned(rows[1..], permissionId, roleIds);
      assert forall row :: row in rows <==> row == rows[0] || row in rows[1..];
      (if Grants(rows[0], permissionId, roleIds) then 1 else 0) + rest
  }

  /**
   * isPermissionAssigned(): an empty role list answers false without a query;
   * otherwise some row pairs the permission with one of the roles.
   */
  function IsPermissionAssigned(rows: seq<RolePermission>, permissionId: int, roleIds: seq<int>): (isAssigned: bool)
    ensures |roleIds| == 0 ==> !isAssigned
    ensures isAssigned <==> exists role :: role in roleIds && RolePermission(role, permissionId) in rows
  {
    if |roleIds| == 0 then false
    else
      var count := CountAssigned(rows, permissionId, roleIds);
      assert count > 0 ==> exists role :: role in roleIds && RolePermission(role, permissionId) in rows by {
        if count > 0 {
          var row :| row in rows && Grants(row, permissionId, roleIds);
          assert row == RolePermission(row.roleId, permissionId);
        }
      }
      count > 0
  }

  /** findByRoleAndPermission(): the position of the link row, or null. */
  function FindByRoleAndPermission(rows: seq<RolePermission>, roleId: int, permissionId: int): (found: Option<nat>)
    ensures found.Some? <==> RolePermission(roleId, permissionId) in rows
    ensures found.Some? ==> found.value < |rows| && rows[found.value] == RolePermission(roleId, permissionId)
  {
    IndexOf(rows, RolePermission(roleId, permissionId))
  }

  /** The permissionId column of the rows whose roleId is in `roleIds`, in table order. */
  function PermissionIdsOfRoles(rows: seq<RolePermission>, roleIds: seq<int>): (ids: seq<int>)
    ensures |ids| <= |rows|
    ensures forall p :: p in ids <==> exists role :: role in roleIds && RolePermission(role, p) in rows
  {
    if |rows| == 0 then []
    else
      var rest := PermissionIdsOfRoles(rows[1..], roleIds);
      assert forall row :: row in rows <==> row == rows[0] || row in rows[1..];
      if rows[0].roleId in roleIds then [rows[0].permissionId] + rest else rest
  }

  /**
   * getPermissionIdsByRoles(): SELECT DISTINCT permissionId for the given
   * roles; an empty role list answers [] without a query.
   */
  function PermissionIdsByRoles(rows: seq<RolePermission>, roleIds: seq<int>): (ids: seq<int>)
    ensures |roleIds| == 0 ==> ids == []
    ensures NoDuplicates(ids)
    ensures forall p :: p in ids <==> exists role :: role in roleIds && RolePermission(role, p) in rows
  {
    if |roleIds| == 0 then [] else Unique(PermissionIdsOfRoles(rows, roleIds))
  }

  /**
   * The two queries agree: a permission is assigned to some of the roles
   * exactly when its id is among the role's distinct permission ids.
   */
  lemma AssignedIffListed(rows: seq<RolePermission>, permissionId: int, roleIds: seq<int>)
    ensures IsPermissionAssigned(rows, permissionId, roleIds) <==> permissionId in PermissionIdsByRoles(rows, roleIds)
  {
  }
}
