/** `RolesGuard`: the role check a route opts into with `@Roles(...)`. */
module RolesGuard {
  import opened Wrappers
  import opened Schemas

  /** `matchRoles`: `roles.includes(userRole)`. */
  function MatchRoles(roles: seq<Role>, userRole: Role): (r: bool)
    ensures r <==> exists i :: 0 <= i < |roles| && roles[i] == userRole
  {
    userRole in roles
  }

  /** `canActivate`: `requiredRoles` is the route's `roles` metadata, `None` when the
      route has none; `user` is the authenticated request user. */
  function CanActivate(requiredRoles: Option<seq<Role>>, user: User): (r: bool)
    ensures requiredRoles.None? ==> r
    ensures requiredRoles.Some? ==> (r <==> user.role in requiredRoles.value)
  {
    if requiredRoles.None? then true else MatchRoles(requiredRoles.value, user.role)
  }

  /** `[]` is truthy, so a present but empty role list lets nobody through. */
  lemma EmptyListDenies(user: User)
    ensures !CanActivate(Some([]), user)
  {
  }

  /** Widening the required list never turns an allow into a deny. */
  lemma MoreRolesNeverDeny(roles: seq<Role>, more: seq<Role>, user: User)
    requires forall x :: x in roles ==> x in more
    ensures CanActivate(Some(roles), user) ==> CanActivate(Some(more), user)
  {
  }
}
