/**
 * GuildMember: a member's level in the guild, where 0 is the owner, 1 an
 * admin, 2 a member with rights and 3 (the default) a plain member. A lower
 * level is a higher rank.
 */
module GuildMembers {

  const OWNER_LEVEL: int := 0
  const DEFAULT_LEVEL: int := 3

  /** isOwner(). */
  predicate IsOwnerLevel(levelId: int) {
    levelId == OWNER_LEVEL
  }

  /** isAdmin(): level 1 or lower, so the owner counts as an admin. */
  predicate IsAdminLevel(levelId: int) {
    levelId <= 1
  }

  /** hasRights(): level 2 or lower. */
  predicate HasRightsLevel(levelId: int) {
    levelId <= 2
  }

  /** getRank(): the name of the level; every level past 2 is a plain member. */
  function RankName(levelId: int): (rank: string)
    ensures rank == "owner" <==> IsOwnerLevel(levelId)
    ensures rank == "member" <==> !HasRightsLevel(levelId) || levelId < 0
    ensures rank == "admin" <==> levelId == 1
    ensures rank == "rights" <==> levelId == 2
  {
    match levelId
    case 0 => "owner"
    case 1 => "admin"
    case 2 => "rights"
    case _ => "member"
  }

  /** The checks nest: an owner is an admin, and an admin has rights. */
  lemma RanksNest(levelId: int)
    ensures IsOwnerLevel(levelId) ==> IsAdminLevel(levelId)
    ensures IsAdminLevel(levelId) ==> HasRightsLevel(levelId)
    ensures RankName(levelId) == "admin" ==> IsAdminLevel(levelId) && !IsOwnerLevel(levelId)
  {
  }

  /** promote(): one level up, but never past admin (level 1). */
  function Promoted(levelId: int): (promoted: int)
    ensures levelId > 1 ==> promoted == levelId - 1
    ensures levelId <= 1 ==> promoted == levelId
  {
    if levelId > 1 then levelId - 1 else levelId
  }

  /** demote(): one level down, but never past a plain member (level 3). */
  function Demoted(levelId: int): (demoted: int)
    ensures levelId < 3 ==> demoted == levelId + 1
    ensures levelId >= 3 ==> demoted == levelId
  {
    if levelId < 3 then levelId + 1 else levelId
  }

  /**
   * Promotion and demotion keep a non-owner between admin and plain member,
   * never make an owner, and undo each other away from the ends.
   */
  lemma LevelsStayInRange(levelId: int)
    requires 1 <= levelId <= 3
    ensures 1 <= Promoted(levelId) <= 3 && 1 <= Demoted(levelId) <= 3
    ensures !IsOwnerLevel(Promoted(levelId)) && !IsOwnerLevel(Demoted(levelId))
    ensures levelId >= 2 ==> Demoted(Promoted(levelId)) == levelId
    ensures levelId <= 2 ==> Promoted(Demoted(levelId)) == levelId
  {
  }

  /** Promotion can never make an owner; demotion turns an owner into an admin. */
  lemma OwnershipIsNotReachedByPromotion(levelId: int)
    ensures IsOwnerLevel(Promoted(levelId)) <==> IsOwnerLevel(levelId)
    ensures IsOwnerLevel(levelId) ==> RankName(Demoted(levelId)) == "admin"
  {
  }

  /** The default level, given to a member created without one, is a plain member without rights. */
  lemma DefaultLevelIsPlainMember()
    ensures RankName(DEFAULT_LEVEL) == "member"
    ensures !HasRightsLevel(DEFAULT_LEVEL) && !IsAdminLevel(DEFAULT_LEVEL) && !IsOwnerLevel(DEFAULT_LEVEL)
    ensures Promoted(DEFAULT_LEVEL) == 2 && Demoted(DEFAULT_LEVEL) == DEFAULT_LEVEL
  {
  }

  /** A GuildMember row. */
  class GuildMember {
    var guildId: int
    var userId: int
    var levelId: int
    /** The Unix time the member joined. */
    var memberSince: int

    /**
     * GuildMember::create(); the constructor stamps the current time, and a
     * member created without a level gets the column default, plain member.
     */
    constructor Create(guildId: int, userId: int, now: int, levelId: int := DEFAULT_LEVEL)
      ensures this.guildId == guildId && this.userId == userId && this.levelId == levelId
      ensures memberSince == now
    {
      this.guildId := guildId;
      this.userId := userId;
      this.levelId := levelId;
      memberSince := now;
    }

    /** isOwner(): level 0, the one level whose rank is "owner". */
    function IsOwner(): (owner: bool)
      reads this
      ensures owner <==> levelId == OWNER_LEVEL
      ensures owner <==> GetRank() == "owner"
    {
      IsOwnerLevel(levelId)
    }

    /** isAdmin(): level 1 or lower, so an owner is an admin too and an admin has rights. */
    function IsAdmin(): (admin: bool)
      reads this
      ensures admin <==> levelId <= 1
      ensures IsOwner() ==> admin
      ensures admin ==> HasRights()
    {
      IsAdminLevel(levelId)
    }

    /** hasRights(): level 2 or lower; every non-negative level with rights has a rank other than "member". */
    function HasRights(): (rights: bool)
      reads this
      ensures rights <==> levelId <= 2
      ensures rights && levelId >= 0 <==> GetRank() != "member"
    {
      HasRightsLevel(levelId)
    }

    /** getRank(): one of the four names, "member" for every level without rights or below 0. */
    function GetRank(): (rank: string)
      reads this
      ensures rank == "owner" || rank == "admin" || rank == "rights" || rank == "member"
      ensures rank == "member" <==> levelId > 2 || levelId < 0
    {
      RankName(levelId)
    }

    /** promote(). */
    method Promote()
      modifies this
      ensures levelId == Promoted(old(levelId))
      ensures guildId == old(guildId) && userId == old(userId) && memberSince == old(memberSince)
    {
      if levelId > 1 {
        levelId := levelId - 1;
      }
    }

    /** demote(). */
    method Demote()
      modifies this
      ensures levelId == Demoted(old(levelId))
      ensures guildId == old(guildId) && userId == old(userId) && memberSince == old(memberSince)
    {
      if levelId < 3 {
        levelId := levelId + 1;
      }
    }
  }
}
