/** AuthorizationService of authorization.go: the permission check over a user's roles, and the
    assignment of roles to users and of permissions to roles. */
module Authorization {
  import opened Common
  import opened Models
  import Uuids
  import opened Repositories

  /** Some role in `roles` holds a permission named `name`, compared exactly. */
  predicate Grants(roles: seq<Role>, name: string)
  {
    exists i, j :: 0 <= i < |roles| && 0 <= j < |roles[i].permissions| && roles[i].permissions[j].name == name
  }

  /** The role holds a permission named `name`. */
  predicate Holds(role: Role, name: string)
  {
    exists j :: 0 <= j < |role.permissions| && role.permissions[j].name == name
  }

  class AuthorizationService {
    const users: UserStore
    const roles: RoleStore
    const permissions: PermissionStore

    constructor (users: UserStore, roles: RoleStore, permissions: PermissionStore)
      ensures this.users == users && this.roles == roles && this.permissions == permissions
    {
      this.users, this.roles, this.permissions := users, roles, permissions;
    }

    /** `CheckUserPermission(userID, name)`; a malformed id makes `uuid.MustParse` panic, so the id must
        be well formed. */
    method CheckUserPermission(userId: string, permissionName: string) returns (allowed: bool, err: Option<Error>)
      requires Uuids.WellFormed(userId)
      ensures users.FindByID(Uuids.Parse(userId).value).Err? ==> !allowed && err == Some(UserNotFound)
      ensures users.FindByID(Uuids.Parse(userId).value).Ok? ==>
        err == None && (allowed <==> Grants(users.FindByID(Uuids.Parse(userId).value).value.roles, permissionName))
    {
      var found := users.FindByID(Uuids.Parse(userId).value);
      if found.Err? {
        return false, Some(UserNotFound);
      }
      var held := found.value.roles;
      var i := 0;
      while i < |held|
        invariant 0 <= i <= |held|
        invariant forall a, b :: 0 <= a < i && 0 <= b < |held[a].permissions| ==> held[a].permissions[b].name != permissionName
      {
        var perms := held[i].permissions;
        var j := 0;
        while j < |perms|
          invariant 0 <= j <= |perms|
          invariant forall b :: 0 <= b < j ==> perms[b].name != permissionName
        {
          if perms[j].name == permissionName {
            return true, None;
          }
          j := j + 1;
        }
        i := i + 1;
      }
      return false, None;
    }

    /** `AssignRoleToUser(userID, roleID)`: the user first, then the role; the role is appended to the
        user's roles with no duplicate check and the user saved. */
    method AssignRoleToUser(userId: string, roleId: string, healthy: bool) returns (err: Option<Error>)
      requires users.Valid() && Uuids.WellFormed(userId)
      requires users.FindByID(Uuids.Parse(userId).value).Ok? ==> Uuids.WellFormed(roleId)
      modifies users
      ensures users.Valid()
      ensures match old(users.FindByID(Uuids.Parse(userId).value))
        case Err(_) => err == Some(UserNotFound) && users.rows == old(users.rows)
        case Ok(u) =>
          match roles.FindByID(Uuids.Parse(roleId).value)
          case Err(_) => err == Some(RoleNotFound) && users.rows == old(users.rows)
          case Ok(role) =>
            var w := UpdateOutcome(old(users.rows), u.(roles := u.roles + [role]), users.secretWidth, healthy);
            err == w.error && users.rows == w.rows
    {
      var found := users.FindByID(Uuids.Parse(userId).value);
      if found.Err? {
        return Some(UserNotFound);
      }
      var role := roles.FindByID(Uuids.Parse(roleId).value);
      if role.Err? {
        return Some(RoleNotFound);
      }
      var u := found.value;
      err := users.Update(u.(roles := u.roles + [role.value]), healthy);
    }

    /** `AssignPermissionToRole(roleID, permissionID)`: the role first, then the permission, which is
        appended to the role's permissions before the role is saved. */
    method AssignPermissionToRole(roleId: string, permissionId: string, healthy: bool) returns (err: Option<Error>)
      requires Uuids.WellFormed(roleId)
      requires roles.FindByID(Uuids.Parse(roleId).value).Ok? ==> Uuids.WellFormed(permissionId)
      modifies roles
      ensures match old(roles.FindByID(Uuids.Parse(roleId).value))
        case Err(_) => err == Some(RoleNotFound) && roles.rows == old(roles.rows)
        case Ok(role) =>
          match permissions.FindByID(Uuids.Parse(permissionId).value)
          case Err(_) => err == Some(PermissionNotFound) && roles.rows == old(roles.rows)
          case Ok(p) =>
            if healthy then err == None && roles.rows == SaveRole(old(roles.rows), role.(permissions := role.permissions + [p]))
            else err == Some(StoreFailure) && roles.rows == old(roles.rows)
    {
      var found := roles.FindByID(Uuids.Parse(roleId).value);
      if found.Err? {
        return Some(RoleNotFound);
      }
      var permission := permissions.FindByID(Uuids.Parse(permissionId).value);
      if permission.Err? {
        return Some(PermissionNotFound);
      }
      var role := found.value;
      err := roles.Update(role.(permissions := role.permissions + [permission.value]), healthy);
    }
  }

  // ---------------------------------------------------------------------------------------------
  // Lemmas

  /** Appending a role grants exactly what was granted before plus what that role holds. */
  lemma GrantsAppend(held: seq<Role>, role: Role, name: string)
    ensures Grants(held + [role], name) <==> Grants(held, name) || Holds(role, name)
  {
    var all := held + [role];
    if Grants(all, name) {
      var i, j :| 0 <= i < |all| && 0 <= j < |all[i].permissions| && all[i].permissions[j].name == name;
      if i < |held| {
        assert held[i] == all[i];
      } else {
        assert all[i] == role;
      }
    }
    if Grants(held, name) {
      var i, j :| 0 <= i < |held| && 0 <= j < |held[i].permissions| && held[i].permissions[j].name == name;
      assert all[i] == held[i];
    }
    if Holds(role, name) {
      var j :| 0 <= j < |role.permissions| && role.permissions[j].name == name;
      assert all[|held|] == role;
    }
  }

  /** A role holding a permission grants it once assigned, and the earlier roles stay as they were. */
  lemma AssignedRoleGrants(held: seq<Role>, role: Role, p: Permission)
    requires p in role.permissions
    ensures Grants(held + [role], p.name)
    ensures (held + [role])[..|held|] == held
  {
    var j :| 0 <= j < |role.permissions| && role.permissions[j] == p;
    GrantsAppend(held, role, p.name);
  }

  /** A user with no roles is granted nothing. */
  lemma NoRolesNoGrant(name: string)
    ensures !Grants([], name)
  {
  }

  /** An appended permission is held by the role; the earlier permissions keep their places. */
  lemma AssignedPermissionHeld(role: Role, p: Permission)
    ensures Holds(role.(permissions := role.permissions + [p]), p.name)
    ensures (role.permissions + [p])[..|role.permissions|] == role.permissions
  {
    var r := role.(permissions := role.permissions + [p]);
    assert r.permissions[|role.permissions|] == p;
  }
}
