/**
 * The Permission and Role entities (tables veloce_permissions and
 * veloce_roles), their rows as the repositories read them, and the name and
 * id lookups of PermissionRepository and RoleRepository.
 */
module AuthorizationEntities {
  import opened Wrappers
  import opened Text

  /** The status column: 1 is active (the column default), anything else inactive. */
  const ACTIVE: int := 1
  const INACTIVE: int := 0

  /** A row of veloce_permissions. */
  datatype PermissionRow = PermissionRow(id: int, name: string, description: Option<string>, status: int)

  /** A row of veloce_roles. */
  datatype RoleRow = RoleRow(id: int, name: string, description: Option<string>, status: int)

  /** The set-hook on Permission::$name: trimmed, then upper-cased. */
  function PermissionName(value: string): string {
    Upper(Trim(value))
  }

  /** The set-hook on Role::$name: trimmed, then lower-cased. */
  function RoleName(value: string): string {
    Lower(Trim(value))
  }

  /** Setting a stored name again stores the same name: the hooks are idempotent. */
  lemma NameHooksIdempotent(value: string)
    ensures PermissionName(PermissionName(value)) == PermissionName(value)
    ensures RoleName(RoleName(value)) == RoleName(value)
  {
    CaseFoldKeepsTrim(value);
    UpperIdempotent(Trim(value));
    LowerIdempotent(Trim(value));
  }

  /** A stored name never begins or ends with a character trim() removes. */
  lemma StoredNamesAreTrimmed(value: string)
    ensures var p := PermissionName(value); |p| > 0 ==> !IsTrimmable(p[0]) && !IsTrimmable(p[|p| - 1])
    ensures var r := RoleName(value); |r| > 0 ==> !IsTrimmable(r[0]) && !IsTrimmable(r[|r| - 1])
  {
    CaseFoldKeepsTrim(value);
    TrimmedEnds(Upper(Trim(value)));
    TrimmedEnds(Lower(Trim(value)));
  }

  /** Permission: a name, an optional description and a status, updated in place. */
  class Permission {
    var name: string
    var description: Option<string>
    var status: int

    /** Permission::create(): the name goes through the set-hook; status keeps its default. */
    constructor Create(name: string, description: Option<string>)
      ensures this.name == PermissionName(name)
      ensures this.description == description
      ensures status == ACTIVE
    {
      this.name := PermissionName(name);
      this.description := description;
      status := ACTIVE;
    }

    function IsActive(): (active: bool)
      reads this
      ensures active <==> status == ACTIVE
    {
      status == ACTIVE
    }

    method Activate()
      modifies this
      ensures IsActive()
      ensures status == ACTIVE && name == old(name) && description == old(description)
    {
      status := ACTIVE;
    }

    method Deactivate()
      modifies this
      ensures !IsActive()
      ensures status == INACTIVE && name == old(name) && description == old(description)
    {
      status := INACTIVE;
    }

    method UpdateName(name: string)
      modifies this
      ensures this.name == PermissionName(name)
      ensures description == old(description) && status == old(status)
    {
      this.name := PermissionName(name);
    }

    method UpdateDescription(description: Option<string>)
      modifies this
      ensures this.description == description
      ensures name == old(name) && status == old(status)
    {
      this.description := description;
    }

    /** The row save() writes, under the id the database generates. */
    function Row(id: int): (row: PermissionRow)
      reads this
      ensures row.id == id && row.name == name && row.description == description && row.status == status
    {
      PermissionRow(id, name, description, status)
    }
  }

  /** Role: the same shape as Permission, with lower-cased names. */
  class Role {
    var name: string
    var description: Option<string>
    var status: int

    /** Role::create(). */
    constructor Create(name: string, description: Option<string>)
      ensures this.name == RoleName(name)
      ensures this.description == description
      ensures status == ACTIVE
    {
      this.name := RoleName(name);
      this.description := description;
      status := ACTIVE;
    }

    function IsActive(): (active: bool)
      reads this
      ensures active <==> status == ACTIVE
    {
      status == ACTIVE
    }

    method Activate()
      modifies this
      ensures IsActive()
      ensures status == ACTIVE && name == old(name) && description == old(description)
    {
      status := ACTIVE;
    }

    method Deactivate()
      modifies this
      ensures !IsActive()
      ensures status == INACTIVE && name == old(name) && description == old(description)
    {
      status := INACTIVE;
    }

    method UpdateName(name: string)
      modifies this
      ensures this.name == RoleName(name)
      ensures description == old(description) && status == old(status)
    {
      this.name := RoleName(name);
    }

    method UpdateDescription(description: Option<string>)
      modifies this
      ensures this.description == description
      ensures name == old(name) && status == old(status)
    {
      this.description := description;
    }

    function Row(id: int): (row: RoleRow)
      reads this
      ensures row.id == id && row.name == name && row.description == description && row.status == status
    {
      RoleRow(id, name, description, status)
    }
  }

  // ---------------------------------------------------------------------------
  // Repository lookups

  /**
   * The first row whose name the collation of the name column considers equal
   * to `key`, or None.
   */
  function FirstNamed<T>(rows: seq<T>, nameOf: T -> string, key: string): (found: Option<nat>)
    ensures found.Some? ==> found.value < |rows| && CollationKey(nameOf(rows[found.value])) == CollationKey(key)
    ensures found.Some? ==> forall i :: 0 <= i < found.value ==> CollationKey(nameOf(rows[i])) != CollationKey(key)
    ensures found.None? <==> forall i :: 0 <= i < |rows| ==> CollationKey(nameOf(rows[i])) != CollationKey(key)
  {
    if |rows| == 0 then None
    else if CollationKey(nameOf(rows[0])) == CollationKey(key) then Some(0)
    else
      match FirstNamed(rows[1..], nameOf, key)
      case None => None
      case Some(k) => Some(k + 1)
  }

  /**
   * PermissionRepository::findByName(): findOneBy on strtolower($name). The
   * column's collation ignores case, so the lookup matches a stored name in
   * any case (and ignores trailing blanks), but not across leading blanks.
   */
  function FindPermissionByName(rows: seq<PermissionRow>, name: string): (found: Option<PermissionRow>)
    ensures found.Some? ==> found.value in rows && CollationKey(found.value.name) == CollationKey(name)
    ensures found.None? <==> forall p :: p in rows ==> CollationKey(p.name) != CollationKey(name)
  {
    CollationIgnoresCase(name);
    match FirstNamed(rows, (p: PermissionRow) => p.name, Lower(name))
    case None => None
    case Some(k) => Some(rows[k])
  }

  /** RoleRepository::findByName(): the same lookup on veloce_roles. */
  function FindRoleByName(rows: seq<RoleRow>, name: string): (found: Option<RoleRow>)
    ensures found.Some? ==> found.value in rows && CollationKey(found.value.name) == CollationKey(name)
    ensures found.None? <==> forall r :: r in rows ==> CollationKey(r.name) != CollationKey(name)
  {
    CollationIgnoresCase(name);
    match FirstNamed(rows, (r: RoleRow) => r.name, Lower(name))
    case None => None
    case Some(k) => Some(rows[k])
  }

  /** RoleRepository::find(): the row with that primary key, or None. */
  function FindRole(rows: seq<RoleRow>, id: int): (found: Option<RoleRow>)
    ensures found.Some? ==> found.value in rows && found.value.id == id
    ensures found.None? <==> forall r :: r in rows ==> r.id != id
  {
    if |rows| == 0 then None
    else if rows[0].id == id then Some(rows[0])
    else FindRole(rows[1..], id)
  }

  /** PermissionRepository::find(). */
  function FindPermission(rows: seq<PermissionRow>, id: int): (found: Option<PermissionRow>)
    ensures found.Some? ==> found.value in rows && found.value.id == id
    ensures found.None? <==> forall p :: p in rows ==> p.id != id
  {
    if |rows| == 0 then None
    else if rows[0].id == id then Some(rows[0])
    else FindPermission(rows[1..], id)
  }

  /**
   * findBy(['id' => $ids, 'status' => 1]) followed by array_map over the
   * names: the names of the active rows whose id is in `ids`, in table order.
   */
  function ActivePermissionNames(rows: seq<PermissionRow>, ids: set<int>): (names: seq<string>)
    ensures |names| <= |rows|
    ensures forall n :: n in names <==> exists p :: p in rows && p.id in ids && p.status == ACTIVE && p.name == n
  {
    if |rows| == 0 then []
    else
      var rest := ActivePermissionNames(rows[1..], ids);
      assert forall p :: p in rows <==> p == rows[0] || p in rows[1..];
      if rows[0].id in ids && rows[0].status == ACTIVE then [rows[0].name] + rest else rest
  }

  /** findBy() with an empty id list finds nothing. */
  lemma {:induction false} NoIdsNoNames(rows: seq<PermissionRow>)
    ensures ActivePermissionNames(rows, {}) == []
  {
    if |rows| > 0 {
      NoIdsNoNames(rows[1..]);
    }
  }
}
