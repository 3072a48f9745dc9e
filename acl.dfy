/** The access-control list of src/domain/user/Acl.java: a map from role to
    a list of permission names. A user is identified here by its role, as
    every operation reads only user.getRole(). */
module Acls {
  import opened Outcomes

  /** The Role enum is not part of this model; a role is named by a string. */
  type Role = string
  type Permission = string

  type Table = map<Role, seq<Permission>>

  /** hasPermission on a table: the role has an entry listing the permission. */
  predicate Granted(m: Table, role: Role, permission: Permission) {
    role in m && permission in m[role]
  }

  /** The table after addPermission: an unknown role first gets an empty list. */
  function WithPermission(m: Table, role: Role, permission: Permission): Table {
    var list := if role in m then m[role] else [];
    m[role := list + [permission]]
  }

  /** The table after addEntry: a null list counts as empty. */
  function WithEntry(m: Table, role: Role, list: Option<seq<Permission>>): Table {
    m[role := list.GetOr([])]
  }

  /** addPermission grants the permission, keeps every earlier grant and
      touches no other role. */
  lemma AddPermissionGrants(m: Table, role: Role, permission: Permission)
    ensures Granted(WithPermission(m, role, permission), role, permission)
    ensures forall r, p :: Granted(m, r, p) ==> Granted(WithPermission(m, role, permission), r, p)
    ensures forall r, p :: r != role ==> (Granted(WithPermission(m, role, permission), r, p) <==> Granted(m, r, p))
    ensures forall p :: Granted(WithPermission(m, role, permission), role, p) <==> (Granted(m, role, p) || p == permission)
  {
    var list := if role in m then m[role] else [];
    assert WithPermission(m, role, permission)[role] == list + [permission];
    assert forall p :: p in list + [permission] <==> p in list || p == permission;
  }

  /** addEntry replaces the role's permissions by exactly the given ones
      (none for a null list) and touches no other role. */
  lemma AddEntryReplaces(m: Table, role: Role, list: Option<seq<Permission>>)
    ensures forall p :: Granted(WithEntry(m, role, list), role, p) <==> (list.Some? && p in list.value)
    ensures forall r, p :: r != role ==> (Granted(WithEntry(m, role, list), r, p) <==> Granted(m, r, p))
    ensures role in WithEntry(m, role, list)
  {
  }

  class Acl {
    var permissions: Table

    constructor Init()
      ensures permissions == map[]
    {
      permissions := map[];
    }

    /** Acl.hasPermission: false for a role without an entry, otherwise
        whether the role's list holds the permission. */
    function HasPermission(role: Role, permission: Permission): (r: bool)
      reads this
      ensures role !in permissions ==> !r
      ensures r <==> Granted(permissions, role, permission)
    {
      if role !in permissions then false else permission in permissions[role]
    }

    /** Acl.getPermissions: the role's list, or null for an unknown role. */
    function GetPermissions(role: Role): (r: Option<seq<Permission>>)
      reads this
      ensures r.None? <==> role !in permissions
      ensures r.Some? ==> forall p :: p in r.value <==> HasPermission(role, p)
    {
      if role in permissions then Some(permissions[role]) else None
    }

    /** Acl.addPermission. */
    method AddPermission(role: Role, permission: Permission)
      modifies this
      ensures permissions == WithPermission(old(permissions), role, permission)
      ensures HasPermission(role, permission)
    {
      if role !in permissions {
        permissions := permissions[role := []];
      }
      permissions := permissions[role := permissions[role] + [permission]];
      AddPermissionGrants(old(permissions), role, permission);
    }

    /** Acl.addEntry: stores a copy of the list. */
    method AddEntry(role: Role, list: Option<seq<Permission>>)
      modifies this
      ensures permissions == WithEntry(old(permissions), role, list)
    {
      var copy := if list.None? then [] else list.value;
      permissions := permissions[role := copy];
    }
  }
}
