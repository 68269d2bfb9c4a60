/**
 * Ban: who is banned, by whom, until when (0 for a permanent ban) and of
 * which type. Only create() sets the fields, so a ban is a value.
 */
module Bans {
  import opened Wrappers
  import opened Text

  /** BanType and its stored string. */
  datatype BanType = User | Ip | Machine | Super

  function BanTypeValue(banType: BanType): string {
    match banType
    case User => "user"
    case Ip => "ip"
    case Machine => "machine"
    case Super => "super"
  }

  /** BanType::tryFrom($type) ?? BanType::USER: an unknown string reads as a user ban. */
  function ParseBanType(value: string): (banType: BanType)
    ensures forall t :: BanTypeValue(t) == value ==> banType == t
    ensures (forall t :: BanTypeValue(t) != value) ==> banType == User
  {
    if value == "ip" then assert BanTypeValue(Ip) == value; Ip
    else if value == "machine" then assert BanTypeValue(Machine) == value; Machine
    else if value == "super" then assert BanTypeValue(Super) == value; Super
    else User
  }

  /** Every stored type reads back as itself. */
  lemma BanTypeRoundTrip(banType: BanType)
    ensures ParseBanType(BanTypeValue(banType)) == banType
  {
  }

  /** A row of the bans table; times are Unix timestamps. */
  datatype Ban = Ban(
    userId: int,
    staffUserId: int,
    reason: string,
    banType: string,
    expiresAt: int,
    createdAt: int,
    ip: string,
    machineId: string,
    cfhTopic: int)

  /** Ban::create(): reason, ip and machine id go through trim(); the clock stamps createdAt. */
  function CreateBan(userId: int, staffUserId: int, reason: string, banType: BanType, now: int,
                     expiresAt: int := 0, ip: string := "", machineId: string := ""): (ban: Ban)
    ensures ban.userId == userId && ban.staffUserId == staffUserId && ban.expiresAt == expiresAt
    ensures ban.reason == Trim(reason) && ban.ip == Trim(ip) && ban.machineId == Trim(machineId)
    ensures ParseBanType(ban.banType) == banType
    ensures ban.createdAt == now && ban.cfhTopic == -1
  {
    BanTypeRoundTrip(banType);
    Ban(userId, staffUserId, Trim(reason), BanTypeValue(banType), expiresAt, now, Trim(ip), Trim(machineId), -1)
  }

  /** isPermanent(): an expiry of 0 is the permanent sentinel. */
  function IsPermanent(ban: Ban): (permanent: bool)
    ensures permanent <==> ban.expiresAt == 0
  {
    ban.expiresAt == 0
  }

  /** isActive(): a permanent ban always, any other one while its expiry is in the future. */
  function IsActive(ban: Ban, now: int): (active: bool)
    ensures IsPermanent(ban) ==> active
    ensures !IsPermanent(ban) ==> (active <==> now < ban.expiresAt)
  {
    if ban.expiresAt == 0 then true else ban.expiresAt > now
  }

  /** getRemainingTime(): null for a permanent ban, otherwise the seconds left, never negative. */
  function RemainingTime(ban: Ban, now: int): (remaining: Option<int>)
    ensures remaining.None? <==> IsPermanent(ban)
    ensures remaining.Some? ==> remaining.value >= 0
    ensures remaining.Some? && ban.expiresAt >= now ==> remaining.value == ban.expiresAt - now
  {
    if IsPermanent(ban) then None
    else
      var left := ban.expiresAt - now;
      Some(if left > 0 then left else 0)
  }

  /** getBanType(): the stored type, or a user ban when the stored string names none. */
  function GetBanType(ban: Ban): (banType: BanType)
    ensures BanTypeValue(banType) == ban.banType || banType == User
    ensures (exists t :: BanTypeValue(t) == ban.banType) ==> BanTypeValue(banType) == ban.banType
  {
    ParseBanType(ban.banType)
  }

  /**
   * A ban created without an expiry is permanent: it is active at every
   * time, has no remaining time, and reads back the type it was created with.
   */
  lemma DefaultBanIsPermanent(userId: int, staffUserId: int, reason: string, banType: BanType, now: int, later: int)
    ensures var ban := CreateBan(userId, staffUserId, reason, banType, now);
            && IsPermanent(ban) && IsActive(ban, later) && RemainingTime(ban, later).None?
            && GetBanType(ban) == banType
            && ban.ip == "" && ban.machineId == ""
  {
  }

  /** A ban is active exactly when it is permanent or has time left. */
  lemma ActiveIffTimeLeft(ban: Ban, now: int)
    ensures IsActive(ban, now) <==> IsPermanent(ban) || RemainingTime(ban, now).value > 0
  {
  }

  /** Once a temporary ban has run out it stays out as the clock goes on. */
  lemma ExpiryIsFinal(ban: Ban, now: int, later: int)
    requires now <= later && !IsActive(ban, now)
    ensures !IsActive(ban, later) && !IsPermanent(ban)
    ensures RemainingTime(ban, later) == Some(0)
  {
  }
}
