/**
 * PermissionResolver: decides whether a user rank holds a permission, and
 * lists the permission names a rank holds, behind a get-or-compute cache.
 */
module PermissionResolution {
  import opened Wrappers
  import opened Text
  import opened AuthorizationEntities
  import opened RoleHierarchy
  import opened RolePermissions
  import opened RoleRanks

  /** Cache lifetime of every entry, in seconds. */
  const CACHE_TTL: int := 1800

  /** The four authorization tables the resolver reads. */
  datatype AuthStore = AuthStore(
    permissions: seq<PermissionRow>,
    roleRanks: seq<RoleRank>,
    hierarchy: seq<HierarchyEdge>,
    rolePermissions: seq<RolePermission>)

  /**
   * The cache keys: permission_check_<rank>_<md5(name)> and
   * permissions_for_rank_<rank>. md5 is taken as injective, so a key is
   * determined by its rank and name.
   */
  datatype CacheKey = PermissionCheckKey(rank: int, permissionName: string) | PermissionsForRankKey(rank: int)

  /** A cached value: a check verdict or a name list. */
  datatype CacheEntry = Verdict(allowed: bool) | Names(names: seq<string>)

  type Cache = map<CacheKey, CacheEntry>

  /** Check keys hold verdicts and list keys hold name lists. */
  predicate WellTyped(cache: Cache) {
    forall k :: k in cache ==> (k.PermissionCheckKey? <==> cache[k].Verdict?)
  }

  // ---------------------------------------------------------------------------
  // The decision chain

  /**
   * What doCheckPermission() answers: an unknown permission or an inactive
   * one is allowed (fail-open); otherwise the permission must be linked to a
   * role the rank holds directly or through the hierarchy.
   */
  ghost predicate CheckVerdict(store: AuthStore, userRank: int, permissionName: string) {
    match FindPermissionByName(store.permissions, permissionName)
    case None => true
    case Some(p) =>
      p.status != ACTIVE
      || p.id in GrantedPermissionIds(store.roleRanks, store.hierarchy, store.rolePermissions, userRank)
  }

  /** What doGetPermissions() answers: the active names of the granted permissions. */
  ghost function RankPermissionNames(store: AuthStore, userRank: int): seq<string> {
    ActivePermissionNames(store.permissions,
                          GrantedPermissionIds(store.roleRanks, store.hierarchy, store.rolePermissions, userRank))
  }

  /** doCheckPermission(). */
  method DoCheckPermission(store: AuthStore, userRank: int, permissionName: string) returns (allowed: bool)
    ensures FindPermissionByName(store.permissions, permissionName).None? ==> allowed
    ensures var found := FindPermissionByName(store.permissions, permissionName);
            found.Some? && found.value.status != ACTIVE ==> allowed
    ensures var found := FindPermissionByName(store.permissions, permissionName);
            found.Some? && found.value.status == ACTIVE && |RoleIdsByRank(store.roleRanks, userRank)| == 0 ==> !allowed
    ensures allowed == CheckVerdict(store, userRank, permissionName)
  {
    var permission := FindPermissionByName(store.permissions, permissionName);
    if permission.None? {
      return true;
    }
    if permission.value.status != ACTIVE {
      return true;
    }
    var roleIds := RoleIdsByRank(store.roleRanks, userRank);
    if |roleIds| == 0 {
      NoRolesNoPermissions(store.roleRanks, store.hierarchy, store.rolePermissions, userRank);
      return false;
    }
    var allRoleIds := AllRoleIdsWithHierarchy(store.hierarchy, roleIds);
    allowed := IsPermissionAssigned(store.rolePermissions, permission.value.id, allRoleIds);
    GrantedIffAssigned(store, userRank, permission.value.id, allRoleIds);
  }

  /** isPermissionAssigned over the closure answers membership in the granted ids. */
  lemma GrantedIffAssigned(store: AuthStore, userRank: int, permissionId: int, allRoleIds: seq<int>)
    requires forall x :: x in allRoleIds <==> InClosure(store.hierarchy, RoleIdsByRank(store.roleRanks, userRank), x)
    ensures IsPermissionAssigned(store.rolePermissions, permissionId, allRoleIds)
        <==> permissionId in GrantedPermissionIds(store.roleRanks, store.hierarchy, store.rolePermissions, userRank)
  {
    ListedIdsAreGranted(store.roleRanks, store.hierarchy, store.rolePermissions, userRank, allRoleIds);
    AssignedIffListed(store.rolePermissions, permissionId, allRoleIds);
  }

  /** doGetPermissions(): the same chain as RoleRankRepository::getPermissionNamesByRank(). */
  method DoGetPermissions(store: AuthStore, userRank: int) returns (names: seq<string>)
    ensures |RoleIdsByRank(store.roleRanks, userRank)| == 0 ==> names == []
    ensures names == RankPermissionNames(store, userRank)
  {
    var roleIds := RoleIdsByRank(store.roleRanks, userRank);
    if |roleIds| == 0 {
      NoRolesNoPermissions(store.roleRanks, store.hierarchy, store.rolePermissions, userRank);
      NoIdsNoNames(store.permissions);
      return [];
    }
    var allRoleIds := AllRoleIdsWithHierarchy(store.hierarchy, roleIds);
    var permissionIds := PermissionIdsByRoles(store.rolePermissions, allRoleIds);
    ListedIdsAreGranted(store.roleRanks, store.hierarchy, store.rolePermissions, userRank, allRoleIds);
    if |permissionIds| == 0 {
      assert (set p | p in permissionIds) == {};
      NoIdsNoNames(store.permissions);
      return [];
    }
    names := ActivePermissionNames(store.permissions, set p | p in permissionIds);
  }

  /**
   * A permission is listed for a rank exactly when it is active and a check
   * for it would be granted by the rank's roles (not by fail-open).
   */
  lemma ListedIffGrantedByRoles(store: AuthStore, userRank: int, p: PermissionRow)
    requires p in store.permissions
    requires forall q :: q in store.permissions && q.name == p.name ==> q == p
    ensures p.name in RankPermissionNames(store, userRank)
        <==> p.status == ACTIVE && p.id in GrantedPermissionIds(store.roleRanks, store.hierarchy, store.rolePermissions, userRank)
  {
  }

  // ---------------------------------------------------------------------------
  // The cache

  /** clearCache(): deletes the rank's list entry; every check entry stays until its TTL. */
  function ClearedCache(cache: Cache, userRank: Option<int>): (cleared: Cache)
    ensures userRank.None? ==> cleared == cache
    ensures userRank.Some? ==> PermissionsForRankKey(userRank.value) !in cleared
    ensures forall k :: k in cleared <==> k in cache && (userRank.None? || k != PermissionsForRankKey(userRank.value))
    ensures forall k :: k in cleared ==> cleared[k] == cache[k]
  {
    if userRank.Some? then cache - {PermissionsForRankKey(userRank.value)} else cache
  }

  /** Clearing never removes a permission check verdict. */
  lemma ClearKeepsVerdicts(cache: Cache, userRank: Option<int>, k: CacheKey)
    requires k in cache && k.PermissionCheckKey?
    ensures k in ClearedCache(cache, userRank) && ClearedCache(cache, userRank)[k] == cache[k]
  {
  }

  /**
   * Every cached value agrees with a recomputation on `store`: what a
   * cache that was filled from `store` and never saw a write looks like.
   */
  ghost predicate Coherent(cache: Cache, store: AuthStore) {
    && WellTyped(cache)
    && (forall r, n :: PermissionCheckKey(r, n) in cache ==> cache[PermissionCheckKey(r, n)].allowed == CheckVerdict(store, r, n))
    && (forall r :: PermissionsForRankKey(r) in cache ==> cache[PermissionsForRankKey(r)].names == RankPermissionNames(store, r))
  }

  /** The resolver and its cache. */
  class PermissionResolver {
    var cache: Cache

    ghost predicate Valid()
      reads this
    {
      WellTyped(cache)
    }

    constructor ()
      ensures Valid() && cache == map[]
    {
      cache := map[];
    }

    /**
     * hasPermission(): an empty name ("" or "0") is allowed without touching
     * the cache; otherwise a cached verdict is returned as it is, and a miss
     * computes the verdict and stores it.
     */
    method HasPermission(store: AuthStore, userRank: int, permissionName: string) returns (allowed: bool)
      requires Valid()
      modifies this
      ensures Valid()
      ensures PhpEmpty(permissionName) ==> allowed && cache == old(cache)
      ensures var key := PermissionCheckKey(userRank, permissionName);
              !PhpEmpty(permissionName) && key in old(cache) ==> allowed == old(cache)[key].allowed && cache == old(cache)
      ensures var key := PermissionCheckKey(userRank, permissionName);
              !PhpEmpty(permissionName) && key !in old(cache) ==>
                allowed == CheckVerdict(store, userRank, permissionName) && cache == old(cache)[key := Verdict(allowed)]
      ensures old(Coherent(cache, store)) ==> Coherent(cache, store)
      ensures old(Coherent(cache, store)) && !PhpEmpty(permissionName) ==> allowed == CheckVerdict(store, userRank, permissionName)
    {
      if PhpEmpty(permissionName) {
        return true;
      }
      var key := PermissionCheckKey(userRank, permissionName);
      if key in cache {
        return cache[key].allowed;
      }
      allowed := DoCheckPermission(store, userRank, permissionName);
      cache := cache[key := Verdict(allowed)];
    }

    /** getPermissionsForRank(): the same get-or-compute over the list entry. */
    method GetPermissionsForRank(store: AuthStore, userRank: int) returns (names: seq<string>)
      requires Valid()
      modifies this
      ensures Valid()
      ensures var key := PermissionsForRankKey(userRank);
              key in old(cache) ==> names == old(cache)[key].names && cache == old(cache)
      ensures var key := PermissionsForRankKey(userRank);
              key !in old(cache) ==> names == RankPermissionNames(store, userRank) && cache == old(cache)[key := Names(names)]
      ensures old(Coherent(cache, store)) ==> Coherent(cache, store)
      ensures old(Coherent(cache, store)) ==> names == RankPermissionNames(store, userRank)
    {
      var key := PermissionsForRankKey(userRank);
      if key in cache {
        return cache[key].names;
      }
      names := DoGetPermissions(store, userRank);
      cache := cache[key := Names(names)];
    }

    /** clearCache(). */
    method ClearCache(userRank: Option<int>)
      requires Valid()
      modifies this
      ensures Valid()
      ensures cache == ClearedCache(old(cache), userRank)
    {
      if userRank.Some? {
        cache := cache - {PermissionsForRankKey(userRank.value)};
      }
    }
  }
}
