/**
 * The role service over an abstract role store: uniqueness of names on create
 * and rename, delete refusals, permission edits, the single-default rule and
 * the idempotent seeding of the built-in roles.
 */
module RoleServices {

  import opened Wrappers
  import opened JavaString
  import opened Roles

  datatype RoleError =
    | RoleNotFound
    | NameTaken(name: string)
    | SystemRoleUndeletable
    | RoleHasUsers
    | NullFlag
    | MissingName

  /**
   * A creation request; absent optional fields keep the entity's initial
   * values. The name may be null: no role matches it, and the non-null name
   * column then refuses the row.
   */
  datatype CreateRoleRequest = CreateRoleRequest(
    name: Option<string>,
    description: Option<string>,
    permissions: Option<string>,
    isDefault: Option<bool>)

  /** A partial update: every absent field leaves the role's value unchanged. */
  datatype RoleUpdate = RoleUpdate(
    name: Option<string>,
    description: Option<string>,
    permissions: Option<string>,
    isDefault: Option<bool>)

  /** One row of the built-in role table. */
  datatype RoleSeed = RoleSeed(
    name: string,
    description: string,
    permissions: string,
    isDefault: bool,
    isSystem: bool)

  const DefaultRoles: seq<RoleSeed> := [
    RoleSeed("ADMIN", "System Administrator", "ALL", true, true),
    RoleSeed("USER", "Regular User", "USER_READ,USER_UPDATE", true, false),
    RoleSeed("MODERATOR", "Content Moderator", "USER_READ,CONTENT_MANAGE", false, false),
    RoleSeed("STUDENT", "Student", "STUDENT_READ,STUDENT_UPDATE", false, false),
    RoleSeed("TEACHER", "Teacher", "TEACHER_READ,TEACHER_UPDATE,STUDENT_READ", false, false)
  ]

  /** ADMIN is the only built-in system role, and the built-in names are distinct. */
  lemma DefaultRolesShape()
    ensures forall s :: s in DefaultRoles ==> (s.isSystem <==> s.name == "ADMIN")
    ensures forall i, j :: 0 <= i < j < |DefaultRoles| ==> DefaultRoles[i].name != DefaultRoles[j].name
  {
  }

  /** The role `r` carries exactly the values of the built-in row `s`. */
  predicate IsSeedOf(r: Role, s: RoleSeed)
    reads r
  {
    r.name == s.name && r.description == Some(s.description) && r.permissions == Some(s.permissions)
    && r.isDefault == Some(s.isDefault) && r.isSystem == Some(s.isSystem) && r.users == {}
  }

  /** What `setAsDefault` does to a role other than the chosen one. */
  function ClearedDefault(flag: Option<bool>): (r: Option<bool>)
    ensures r != Some(true)
    ensures flag != Some(true) ==> r == flag
  {
    if flag == Some(true) then Some(false) else flag
  }

  /** The assignments of `updateRole`: every present field of `u` replaces the role's value. */
  method ApplyRoleUpdate(role: Role, u: RoleUpdate)
    modifies role`name, role`description, role`permissions, role`isDefault
    ensures role.name == u.name.GetOr(old(role.name))
    ensures role.description == (if u.description.Some? then u.description else old(role.description))
    ensures role.permissions == (if u.permissions.Some? then u.permissions else old(role.permissions))
    ensures role.isDefault == (if u.isDefault.Some? then u.isDefault else old(role.isDefault))
  {
    if u.name.Some? {
      role.name := u.name.value;
    }
    if u.description.Some? {
      role.description := u.description;
    }
    if u.permissions.Some? {
      role.permissions := u.permissions;
    }
    if u.isDefault.Some? {
      role.isDefault := u.isDefault;
    }
  }

  /** A new role built from the row `seed`. */
  method NewSeedRole(seed: RoleSeed) returns (role: Role)
    ensures fresh(role) && IsSeedOf(role, seed)
  {
    role := new Role(seed.name);
    role.description := Some(seed.description);
    role.permissions := Some(seed.permissions);
    role.isDefault := Some(seed.isDefault);
    role.isSystem := Some(seed.isSystem);
  }

  class RoleService {
    var roles: map<int, Role>
    var nextId: int

    /** Ids are below the next one handed out, and no two roles share a name. */
    ghost predicate Valid()
      reads this, roles.Values
    {
      0 <= nextId
      && (forall id :: id in roles ==> 0 <= id < nextId)
      && (forall i, j :: i in roles && j in roles && i != j ==> roles[i].name != roles[j].name)
    }

    /** `existsByName(name)`. */
    predicate NameExists(name: string)
      reads this, roles.Values
    {
      exists id :: id in roles && roles[id].name == name
    }

    constructor ()
      ensures Valid() && roles == map[] && nextId == 1
    {
      roles := map[];
      nextId := 1;
    }

    method CreateRole(req: CreateRoleRequest) returns (res: Result<Role, RoleError>)
      requires Valid()
      modifies this
      ensures Valid()
      ensures req.name.Some? && old(NameExists(req.name.value)) ==>
                res == Err(NameTaken(req.name.value)) && roles == old(roles) && nextId == old(nextId)
      ensures req.name.None? ==> res == Err(MissingName) && roles == old(roles) && nextId == old(nextId)
      ensures req.name.Some? && !old(NameExists(req.name.value)) ==>
                res.Ok? && fresh(res.value) && roles == old(roles)[old(nextId) := res.value]
                && nextId == old(nextId) + 1
                && res.value.name == req.name.value && res.value.description == req.description
                && res.value.permissions == req.permissions
                && res.value.isDefault == Some(req.isDefault.GetOr(false))
                && res.value.isSystem == Some(false) && res.value.users == {}
    {
      if req.name.Some? && NameExists(req.name.value) {
        return Err(NameTaken(req.name.value));
      }
      if req.name.None? {
        return Err(MissingName);
      }
      var role := new Role(req.name.value);
      role.description := req.description;
      role.permissions := req.permissions;
      if req.isDefault.Some? {
        role.isDefault := req.isDefault;
      }
      roles := roles[nextId := role];
      nextId := nextId + 1;
      return Ok(role);
    }

    method UpdateRole(id: int, u: RoleUpdate) returns (res: Result<Role, RoleError>)
      requires Valid()
      modifies if id in roles then {roles[id]} else {}
      ensures Valid()
      ensures id !in roles ==> res == Err(RoleNotFound)
      ensures id in roles && u.name.Some? && u.name.value != old(roles[id].name) && old(NameExists(u.name.value)) ==>
                res == Err(NameTaken(u.name.value)) && unchanged(roles[id])
      ensures id in roles && !(u.name.Some? && u.name.value != old(roles[id].name) && old(NameExists(u.name.value))) ==>
                var r := roles[id];
                res == Ok(r)
                && r.name == u.name.GetOr(old(r.name))
                && r.description == (if u.description.Some? then u.description else old(r.description))
                && r.permissions == (if u.permissions.Some? then u.permissions else old(r.permissions))
                && r.isDefault == (if u.isDefault.Some? then u.isDefault else old(r.isDefault))
                && r.isSystem == old(r.isSystem) && r.users == old(r.users)
    {
      if id !in roles {
        return Err(RoleNotFound);
      }
      var role := roles[id];
      if u.name.Some? && u.name.value != role.name && NameExists(u.name.value) {
        return Err(NameTaken(u.name.value));
      }
      ApplyRoleUpdate(role, u);
      return Ok(role);
    }

    method DeleteRole(id: int) returns (res: Result<(), RoleError>)
      requires Valid()
      modifies this`roles
      ensures Valid()
      ensures id !in old(roles) ==> res == Err(RoleNotFound)
      ensures id in old(roles) && old(roles[id].isSystem).None? ==> res == Err(NullFlag)
      ensures id in old(roles) && old(roles[id].isSystem) == Some(true) ==> res == Err(SystemRoleUndeletable)
      ensures id in old(roles) && old(roles[id].isSystem) == Some(false) && old(roles[id].users) != {} ==>
                res == Err(RoleHasUsers)
      ensures res.Ok? <==>
                id in old(roles) && old(roles[id].isSystem) == Some(false) && old(roles[id].users) == {}
      ensures res.Ok? ==> roles == old(roles) - {id}
      ensures res.Err? ==> roles == old(roles)
    {
      if id !in roles {
        return Err(RoleNotFound);
      }
      var role := roles[id];
      if role.isSystem.None? {
        return Err(NullFlag);
      }
      if role.isSystem.value {
        return Err(SystemRoleUndeletable);
      }
      if role.users != {} {
        return Err(RoleHasUsers);
      }
      roles := roles - {id};
      return Ok(());
    }

    /** `hasPermission(roleId, p)`. */
    function HasPermission(id: int, p: string): (r: Result<bool, RoleError>)
      reads this, roles.Values
      ensures r.Ok? <==> id in roles
      ensures r.Ok? ==> (r.value <==> roles[id].permissions.Some? && roles[id].permissions.value != []
                                      && Contains(roles[id].permissions.value, p))
    {
      if id in roles then Ok(roles[id].HasPermission(p)) else Err(RoleNotFound)
    }

    /** `getRolePermissions(roleId)`: the role's permission tokens. */
    function GetRolePermissions(id: int): (r: Result<seq<string>, RoleError>)
      reads this, roles.Values
      ensures r.Ok? <==> id in roles
      ensures r.Ok? ==> forall j :: 0 <= j < |r.value| ==> IsToken(r.value[j])
      ensures r.Ok? && (roles[id].permissions.None? || roles[id].permissions.value == []) ==> r.value == []
    {
      if id in roles then Ok(PermissionList(roles[id].permissions)) else Err(RoleNotFound)
    }

    method AddPermission(id: int, p: string) returns (res: Result<Role, RoleError>)
      requires Valid()
      modifies roles.Values`permissions
      ensures Valid()
      ensures id !in roles ==> res == Err(RoleNotFound)
      ensures id in roles ==>
                res == Ok(roles[id]) && roles[id].permissions == Some(WithPermission(old(roles[id].permissions), p))
      ensures forall k :: k in roles && k != id ==> roles[k].permissions == old(roles[k].permissions)
    {
      if id !in roles {
        return Err(RoleNotFound);
      }
      var role := roles[id];
      role.AddPermission(p);
      return Ok(role);
    }

    method RemovePermission(id: int, p: string) returns (res: Result<Role, RoleError>)
      requires Valid()
      modifies roles.Values`permissions
      ensures Valid()
      ensures id !in roles ==> res == Err(RoleNotFound)
      ensures id in roles ==> res == Ok(roles[id])
      ensures id in roles && old(roles[id].permissions).Some? && Contains(old(roles[id].permissions).value, p) ==>
                roles[id].permissions == Some(PermissionsWithout(old(roles[id].permissions).value, p))
      ensures id in roles && (old(roles[id].permissions).None? || !Contains(old(roles[id].permissions).value, p)) ==>
                roles[id].permissions == old(roles[id].permissions)
      ensures forall k :: k in roles && k != id ==> roles[k].permissions == old(roles[k].permissions)
    {
      if id !in roles {
        return Err(RoleNotFound);
      }
      var role := roles[id];
      role.RemovePermission(p);
      return Ok(role);
    }

    /**
     * Clears the flag of every role that is default, then makes `id` the
     * default: afterwards `id` is the only role whose flag is true.
     */
    method SetAsDefault(id: int) returns (res: Result<Role, RoleError>)
      requires Valid()
      modifies roles.Values`isDefault
      ensures Valid()
      ensures id !in roles ==>
                res == Err(RoleNotFound) && forall k :: k in roles ==> roles[k].isDefault == old(roles[k].isDefault)
      ensures id in roles ==> res == Ok(roles[id]) && roles[id].isDefault == Some(true)
      ensures id in roles ==>
                forall k :: k in roles && k != id ==> roles[k].isDefault == ClearedDefault(old(roles[k].isDefault))
      ensures id in roles ==> forall k :: k in roles ==> (roles[k].isDefault == Some(true) <==> k == id)
    {
      if id !in roles {
        return Err(RoleNotFound);
      }
      var role := roles[id];
      for k := 0 to nextId
        invariant forall j :: j in roles ==>
                    roles[j].isDefault == (if j < k then ClearedDefault(old(roles[j].isDefault)) else old(roles[j].isDefault))
      {
        if k in roles && roles[k].isDefault == Some(true) {
          roles[k].isDefault := Some(false);
        }
      }
      role.isDefault := Some(true);
      return Ok(role);
    }

    method RemoveAsDefault(id: int) returns (res: Result<Role, RoleError>)
      requires Valid()
      modifies roles.Values`isDefault
      ensures Valid()
      ensures id !in roles ==> res == Err(RoleNotFound)
      ensures id in roles ==> res == Ok(roles[id]) && roles[id].isDefault == Some(false)
      ensures forall k :: k in roles && k != id ==> roles[k].isDefault == old(roles[k].isDefault)
    {
      if id !in roles {
        return Err(RoleNotFound);
      }
      var role := roles[id];
      role.isDefault := Some(false);
      return Ok(role);
    }

    /** Returns the USER role, creating it as a default role when it is missing. */
    method GetOrCreateDefaultUserRole() returns (r: Role)
      requires Valid()
      modifies this
      ensures Valid()
      ensures old(NameExists("USER")) ==> roles == old(roles) && nextId == old(nextId) && r in roles.Values && r.name == "USER"
      ensures !old(NameExists("USER")) ==>
                fresh(r) && roles == old(roles)[old(nextId) := r] && r.name == "USER"
                && r.description == Some("Default user role") && r.permissions == Some("USER_READ,USER_UPDATE")
                && r.isDefault == Some(true) && r.isSystem == Some(false)
    {
      if NameExists("USER") {
        var k :| k in roles && roles[k].name == "USER";
        return roles[k];
      }
      var res := CreateRole(CreateRoleRequest(Some("USER"), Some("Default user role"), Some("USER_READ,USER_UPDATE"), Some(true)));
      r := res.value;
    }

    /**
     * Creates each built-in role whose name is missing: afterwards all five
     * names exist, existing roles are untouched, every new role is a copy of
     * its row, and when all five existed nothing changes.
     */
    method InitializeDefaultRoles()
      requires Valid()
      modifies this
      ensures Valid()
      ensures forall s :: s in DefaultRoles ==> NameExists(s.name)
      ensures forall k :: k in old(roles) ==> k in roles && roles[k] == old(roles[k])
      ensures forall k :: k in roles && k !in old(roles) ==>
                fresh(roles[k]) && exists s :: s in DefaultRoles && IsSeedOf(roles[k], s)
      ensures (forall s :: s in DefaultRoles ==> old(NameExists(s.name))) ==>
                roles == old(roles) && nextId == old(nextId)
    {
      for i := 0 to |DefaultRoles|
        invariant Valid()
        invariant forall j :: 0 <= j < i ==> NameExists(DefaultRoles[j].name)
        invariant forall k :: k in old(roles) ==> k in roles && roles[k] == old(roles[k])
        invariant forall k :: k in roles && k !in old(roles) ==>
                    fresh(roles[k]) && exists s :: s in DefaultRoles && IsSeedOf(roles[k], s)
        invariant (forall s :: s in DefaultRoles ==> old(NameExists(s.name))) ==>
                    roles == old(roles) && nextId == old(nextId)
      {
        var seed := DefaultRoles[i];
        if !NameExists(seed.name) {
          InsertSeed(seed);
        }
      }
    }

    /** Saves a new role holding the values of `seed`, under the next id. */
    method InsertSeed(seed: RoleSeed)
      requires Valid() && !NameExists(seed.name)
      modifies this
      ensures Valid()
      ensures old(nextId) in roles && fresh(roles[old(nextId)]) && roles == old(roles)[old(nextId) := roles[old(nextId)]]
      ensures nextId == old(nextId) + 1 && IsSeedOf(roles[old(nextId)], seed)
      ensures forall k :: k in old(roles) ==> k in roles && roles[k] == old(roles[k])
      ensures forall k :: k in roles && k !in old(roles) ==> fresh(roles[k]) && IsSeedOf(roles[k], seed)
      ensures forall n :: old(NameExists(n)) ==> NameExists(n)
      ensures NameExists(seed.name)
    {
      var role := NewSeedRole(seed);
      ghost var id := nextId;
      roles := roles[nextId := role];
      nextId := nextId + 1;
      assert roles[id] == role;
      forall n | old(NameExists(n))
        ensures NameExists(n)
      {
        var k :| k in old(roles) && old(roles[k].name) == n;
        assert roles[k] == old(roles[k]);
      }
    }
  }

  /** A role created by the seeding is a system role exactly when it is ADMIN. */
  lemma SeededSystemRoleIsAdmin(r: Role)
    requires exists s :: s in DefaultRoles && IsSeedOf(r, s)
    ensures r.isSystem == Some(true) <==> r.name == "ADMIN"
  {
    DefaultRolesShape();
  }
}
