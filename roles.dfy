/** The user-to-role relation kept in the `role_user` pivot table, and the controller's rule for changing it. */
module Roles {
  import opened Models

  type Links = set<RoleLink>

  /** The roles `user` holds. */
  function RolesOf(links: Links, user: UserId): set<RoleId>
  {
    set l | l in links && l.userId == user :: l.roleId
  }

  /** `detachRoles()`: the user holds no role afterwards; the links of every other user stay. */
  function DetachRoles(links: Links, user: UserId): (r: Links)
    ensures RolesOf(r, user) == {}
    ensures r <= links
    ensures forall l :: l in links && l.userId != user ==> l in r
  {
    set l | l in links && l.userId != user
  }

  /** `attachRole(role)`: the user holds `role` besides what it held; nothing else changes. */
  function AttachRole(links: Links, user: UserId, role: RoleId): (r: Links)
    ensures RolesOf(r, user) == RolesOf(links, user) + {role}
    ensures forall l :: l in r && l.userId != user <==> l in links && l.userId != user
  {
    var r := links + {RoleLink(user, role)};
    assert RoleLink(user, role) in r;
    r
  }

  /**
   * The rule of `update`: a user that does not hold `role` loses every role and is given `role`;
   * a user that already holds it keeps its roles unchanged. Other users are not affected.
   */
  function AssignRole(links: Links, user: UserId, role: RoleId): (r: Links)
    ensures role in RolesOf(links, user) ==> r == links
    ensures role !in RolesOf(links, user) ==> RolesOf(r, user) == {role}
    ensures forall l :: l in r && l.userId != user <==> l in links && l.userId != user
  {
    if role in RolesOf(links, user) then links else AttachRole(DetachRoles(links, user), user, role)
  }

  /** Every user of `links` holds at most one role. */
  ghost predicate SingleRole(links: Links)
  {
    forall a, b :: a in links && b in links && a.userId == b.userId ==> a.roleId == b.roleId
  }

  /** After `update` the user holds the supplied role. */
  lemma AssignRoleGrants(links: Links, user: UserId, role: RoleId)
    ensures role in RolesOf(AssignRole(links, user, role), user)
  {
  }

  /** Assigning the same role twice is assigning it once. */
  lemma AssignRoleIdempotent(links: Links, user: UserId, role: RoleId)
    ensures AssignRole(AssignRole(links, user, role), user, role) == AssignRole(links, user, role)
  {
    AssignRoleGrants(links, user, role);
  }

  /** The detach-then-attach rule keeps the "at most one role per user" business rule. */
  lemma AssignRoleKeepsSingleRole(links: Links, user: UserId, role: RoleId)
    requires SingleRole(links)
    ensures SingleRole(AssignRole(links, user, role))
  {
    var r := AssignRole(links, user, role);
    if role !in RolesOf(links, user) {
      forall a, b | a in r && b in r && a.userId == b.userId
        ensures a.roleId == b.roleId
      {
        if a.userId == user {
          assert a.roleId in RolesOf(r, user) && b.roleId in RolesOf(r, user);
        }
      }
    }
  }

  /** Detaching the roles of a user that has none leaves the relation as it was. */
  lemma DetachRolesOfUnlinked(links: Links, user: UserId)
    requires forall l :: l in links ==> l.userId != user
    ensures DetachRoles(links, user) == links
  {
  }
}
