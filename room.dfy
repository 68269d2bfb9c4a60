/**
 * Room: the occupancy fields (users and the capacity clamped to 1..100),
 * the guild link, and the fields the owner edits.
 */
module Rooms {
  import opened Wrappers
  import opened Text

  /** RoomState. */
  datatype RoomState = OpenRoom | LockedRoom | PasswordRoom | InvisibleRoom

  const MIN_USERS_MAX: int := 1
  const MAX_USERS_MAX: int := 100
  const DEFAULT_USERS_MAX: int := 25

  /** max(1, min(100, $max)). */
  function ClampUsersMax(requested: int): (usersMax: int)
    ensures MIN_USERS_MAX <= usersMax <= MAX_USERS_MAX
    ensures MIN_USERS_MAX <= requested <= MAX_USERS_MAX ==> usersMax == requested
    ensures requested < MIN_USERS_MAX ==> usersMax == MIN_USERS_MAX
    ensures requested > MAX_USERS_MAX ==> usersMax == MAX_USERS_MAX
  {
    var capped := if requested < MAX_USERS_MAX then requested else MAX_USERS_MAX;
    if capped > MIN_USERS_MAX then capped else MIN_USERS_MAX
  }

  /** The clamp is idempotent and keeps the order of requests. */
  lemma ClampIsMonotoneProjection(a: int, b: int)
    ensures ClampUsersMax(ClampUsersMax(a)) == ClampUsersMax(a)
    ensures a <= b ==> ClampUsersMax(a) <= ClampUsersMax(b)
  {
  }

  /** Every field of a Room except its generated id, as one value. */
  datatype RoomFields = RoomFields(
    ownerId: int,
    name: string,
    description: string,
    state: RoomState,
    users: int,
    usersMax: int,
    guildId: int,
    guild: Option<int>,
    score: int,
    password: Option<string>,
    model: string,
    categoryId: int)

  class Room {
    var ownerId: int
    var name: string
    var description: string
    var state: RoomState
    var users: int
    var usersMax: int
    var guildId: int
    /** The id of the loaded Guild relation, or null when it is not set. */
    var guild: Option<int>
    var score: int
    var password: Option<string>
    var model: string
    var categoryId: int

    /** The capacity stays in 1..100: it starts at 25 and updateMaxUsers() clamps. */
    ghost predicate Valid()
      reads this
    {
      MIN_USERS_MAX <= usersMax <= MAX_USERS_MAX && users >= 0
    }

    /** The whole state of the room; each method states its new state against the old one. */
    function Fields(): (fields: RoomFields)
      reads this
      ensures fields.ownerId == ownerId && fields.users == users && fields.usersMax == usersMax
    {
      RoomFields(ownerId, name, description, state, users, usersMax, guildId, guild,
                 score, password, model, categoryId)
    }

    /**
     * A new room with the column defaults: open, empty, 25 places, no guild,
     * no password, score 0, model "model_a", category 0.
     */
    constructor (ownerId: int, name: string)
      ensures Valid()
      ensures Fields() == RoomFields(ownerId, Trim(name), "", OpenRoom, 0, DEFAULT_USERS_MAX, 0, None,
                                     0, None, "model_a", 0)
    {
      this.ownerId := ownerId;
      this.name := Trim(name);
      description := "";
      state := OpenRoom;
      users := 0;
      usersMax := DEFAULT_USERS_MAX;
      guildId := 0;
      guild := None;
      score := 0;
      password := None;
      model := "model_a";
      categoryId := 0;
    }

    /** isOwner(): the user's id is the owner id. */
    function IsOwner(userId: int): (owner: bool)
      reads this
      ensures owner <==> userId == ownerId
    {
      ownerId == userId
    }

    /** hasGuild(): a positive guild id and a loaded guild. */
    function HasGuild(): (linked: bool)
      reads this
      ensures linked <==> guildId > 0 && guild.Some?
      ensures linked ==> guildId != 0
    {
      guildId > 0 && guild.Some?
    }

    /** isFull(): no place is left once the occupants reach the capacity. */
    function IsFull(): (full: bool)
      reads this
      ensures full <==> users >= usersMax
      ensures !full <==> usersMax - users > 0
    {
      users >= usersMax
    }

    /** updateName(): through the trim() hook; nothing else changes. */
    method UpdateName(newName: string)
      modifies this
      ensures Fields() == old(Fields()).(name := Trim(newName))
      ensures old(Valid()) ==> Valid()
    {
      name := Trim(newName);
    }

    /** updateDescription(): nothing else changes. */
    method UpdateDescription(newDescription: string)
      modifies this
      ensures Fields() == old(Fields()).(description := newDescription)
      ensures old(Valid()) ==> Valid()
    {
      description := newDescription;
    }

    /** updateState(): nothing else changes. */
    method UpdateState(newState: RoomState)
      modifies this
      ensures Fields() == old(Fields()).(state := newState)
      ensures old(Valid()) ==> Valid()
    {
      state := newState;
    }

    /** updatePassword(): the password or null; nothing else changes. */
    method UpdatePassword(newPassword: Option<string>)
      modifies this
      ensures Fields() == old(Fields()).(password := newPassword)
      ensures old(Valid()) ==> Valid()
    {
      password := newPassword;
    }

    /**
     * updateMaxUsers(): the requested capacity, clamped to 1..100, whatever
     * the capacity was before; nothing else changes.
     */
    method UpdateMaxUsers(requested: int)
      modifies this
      ensures Fields() == old(Fields()).(usersMax := ClampUsersMax(requested))
      ensures MIN_USERS_MAX <= usersMax <= MAX_USERS_MAX
      ensures old(users) >= 0 ==> Valid()
    {
      usersMax := ClampUsersMax(requested);
    }
  }

  /**
   * A room nobody is in is full exactly when its capacity is not positive,
   * so under the 1..100 capacity it is never full.
   */
  lemma EmptyRoomNotFull(room: Room)
    requires room.users == 0
    ensures !room.IsFull() <==> room.usersMax >= MIN_USERS_MAX
    ensures room.Valid() ==> !room.IsFull()
  {
  }
}
