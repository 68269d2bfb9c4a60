/**
 * PermissionVoter: the security voter that answers attributes of the form
 * PERMISSION_<name> by asking the resolver whether the user's rank holds <name>.
 */
module PermissionVoting {
  import opened Wrappers
  import opened Text
  import opened PermissionResolution

  /** The attribute prefix the voter claims. */
  const PERMISSION_PREFIX: string := "PERMISSION_"

  /** Who the security token carries: nobody, some other user object, or an application user. */
  datatype TokenUser = Anonymous | ForeignUser | AppUser(rank: int)

  /** Why a vote was denied, as the voter adds it to the vote. */
  datatype DenialReason = NotAuthenticated | RankLacksPermission(rank: int, permissionName: string)

  /** supports(): the subject is ignored; only the prefix matters. */
  function Supports(attribute: string): (supported: bool)
    ensures supported <==> |attribute| >= |PERMISSION_PREFIX| && attribute[..|PERMISSION_PREFIX|] == PERMISSION_PREFIX
  {
    StartsWith(attribute, PERMISSION_PREFIX)
  }

  /** substr($attribute, strlen('PERMISSION_')): what follows the prefix, or "" for a shorter attribute. */
  function PermissionNameOf(attribute: string): (permissionName: string)
    ensures Supports(attribute) ==> attribute == PERMISSION_PREFIX + permissionName
    ensures |attribute| <= |PERMISSION_PREFIX| ==> permissionName == ""
  {
    SubstrFrom(attribute, |PERMISSION_PREFIX|)
  }

  /**
   * The attribute a controller writes for a permission is supported, and the
   * voter reads the same permission name back out of it.
   */
  lemma AttributeRoundTrip(permissionName: string)
    ensures Supports(PERMISSION_PREFIX + permissionName)
    ensures PermissionNameOf(PERMISSION_PREFIX + permissionName) == permissionName
  {
    var attribute := PERMISSION_PREFIX + permissionName;
    assert attribute[..|PERMISSION_PREFIX|] == PERMISSION_PREFIX;
    assert attribute[|PERMISSION_PREFIX|..] == permissionName;
  }

  /**
   * The bare prefix names the empty permission, and the prefix followed by
   * "0" names "0": both names are PHP-empty, so the resolver allows them
   * without looking at any table.
   */
  lemma BarePrefixNamesNothing()
    ensures Supports(PERMISSION_PREFIX) && PermissionNameOf(PERMISSION_PREFIX) == ""
    ensures PhpEmpty(PermissionNameOf(PERMISSION_PREFIX))
    ensures Supports(PERMISSION_PREFIX + "0") && PhpEmpty(PermissionNameOf(PERMISSION_PREFIX + "0"))
  {
    AttributeRoundTrip("");
    AttributeRoundTrip("0");
    assert PERMISSION_PREFIX + "" == PERMISSION_PREFIX;
  }

  /**
   * voteOnAttribute(): a token without an application user is denied without
   * touching the resolver; otherwise the vote is the resolver's answer for
   * the user's rank and the name after the prefix, with a reason when denied.
   */
  method VoteOnAttribute(resolver: PermissionResolver, store: AuthStore, attribute: string, user: TokenUser)
    returns (granted: bool, reason: Option<DenialReason>)
    requires resolver.Valid()
    modifies resolver
    ensures resolver.Valid()
    ensures !user.AppUser? ==> !granted && reason == Some(NotAuthenticated) && resolver.cache == old(resolver.cache)
    ensures user.AppUser? && granted ==> reason.None?
    ensures user.AppUser? && !granted ==> reason == Some(RankLacksPermission(user.rank, PermissionNameOf(attribute)))
    ensures user.AppUser? && PhpEmpty(PermissionNameOf(attribute)) ==> granted && resolver.cache == old(resolver.cache)
    ensures old(Coherent(resolver.cache, store)) ==> Coherent(resolver.cache, store)
    ensures user.AppUser? && old(Coherent(resolver.cache, store)) && !PhpEmpty(PermissionNameOf(attribute))
            ==> granted == CheckVerdict(store, user.rank, PermissionNameOf(attribute))
  {
    if !user.AppUser? {
      return false, Some(NotAuthenticated);
    }
    var permissionName := PermissionNameOf(attribute);
    granted := resolver.HasPermission(store, user.rank, permissionName);
    if !granted {
      reason := Some(RankLacksPermission(user.rank, permissionName));
    } else {
      reason := None;
    }
  }
}
