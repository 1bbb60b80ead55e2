/**
 * The state-changing actions of `UserController` over the persistent store: creating, editing and
 * deleting users with their role, and the deactivation approval poll. The authenticated user is
 * passed explicitly in place of the session.
 */
module UserController {
  import opened Wrappers
  import opened Models
  import opened Validation
  import Http
  import Roles
  import Rows
  import Deactivation

  /** The fields of a create or edit request (`name`, `email`, `password`, `role_id`, `group_id`). */
  datatype UserForm = UserForm(
    name: Option<string>,
    email: Option<string>,
    password: Option<string>,
    roleId: Option<RoleId>,
    groupId: Option<GroupId>)

  /** The columns `update` writes: the name and e-mail, and the group when one is sent. */
  function Edited(user: User, form: UserForm): User
    requires form.name.Some? && form.email.Some?
  {
    User(form.name.value, form.email.value, if form.groupId.Some? then form.groupId else user.groupId)
  }

  /** The tables of the store that these actions touch. */
  class Database {
    var users: map<UserId, User>
    var nextUserId: UserId
    var roleLinks: Roles.Links
    var requests: seq<DeactivationRequest>
    var activations: seq<AppUserActivation>

    /**
     * Ids are handed out in increasing order, every role link belongs to an existing user, and
     * there is at most one deactivation request per triple.
     */
    ghost predicate Valid()
      reads this
    {
      && (forall id :: id in users ==> id < nextUserId)
      && (forall l :: l in roleLinks ==> l.userId in users)
      && Deactivation.UniqueRequests(requests)
    }

    function Approvals(): Deactivation.Approvals
      reads this
    {
      Deactivation.Approvals(requests, activations)
    }

    constructor ()
      ensures Valid()
      ensures users == map[] && roleLinks == {} && requests == [] && activations == []
    {
      users, nextUserId, roleLinks := map[], 0, {};
      requests, activations := [], [];
    }

    /**
     * `store`: with a name, e-mail, password and role, creates a user under a fresh id holding
     * exactly that role and answers 204; otherwise answers 422 and changes nothing.
     */
    method Store(form: UserForm) returns (status: int)
      requires Valid()
      modifies this
      ensures Valid()
      ensures requests == old(requests) && activations == old(activations)
      ensures var complete := Required(form.name) && Required(form.email) && Required(form.password) && form.roleId.Some?;
        && (!complete ==> status == Http.UnprocessableEntity && users == old(users) && roleLinks == old(roleLinks))
        && (complete ==>
          && status == Http.NoContent
          && old(nextUserId) !in old(users)
          && users == old(users)[old(nextUserId) := User(form.name.value, form.email.value, form.groupId)]
          && roleLinks == Roles.AttachRole(old(roleLinks), old(nextUserId), form.roleId.value)
          && Roles.RolesOf(roleLinks, old(nextUserId)) == {form.roleId.value})
    {
      if !(Required(form.name) && Required(form.email) && Required(form.password) && form.roleId.Some?) {
        return Http.UnprocessableEntity;
      }
      var id := nextUserId;
      assert Roles.RolesOf(roleLinks, id) == {} by {
        forall l | l in roleLinks ensures l.userId != id { }
      }
      users := users[id := User(form.name.value, form.email.value, form.groupId)];
      nextUserId := nextUserId + 1;
      roleLinks := Roles.AttachRole(roleLinks, id, form.roleId.value);
      status := Http.NoContent;
    }

    /**
     * `update`: without a name and e-mail answers 422 and changes nothing. Otherwise edits the
     * user when it exists; then, when a role is sent, gives the user exactly that role unless it
     * already holds it. A role sent for a missing user fails with 500 (the lookup yields null).
     */
    method Update(id: UserId, form: UserForm) returns (status: int)
      requires Valid()
      modifies this
      ensures Valid()
      ensures nextUserId == old(nextUserId) && requests == old(requests) && activations == old(activations)
      ensures !(Required(form.name) && Required(form.email)) ==>
        status == Http.UnprocessableEntity && users == old(users) && roleLinks == old(roleLinks)
      ensures Required(form.name) && Required(form.email) ==>
        && users == (if id in old(users) then old(users)[id := Edited(old(users)[id], form)] else old(users))
        && (form.roleId.None? ==> status == Http.NoContent && roleLinks == old(roleLinks))
        && (form.roleId.Some? && id !in old(users) ==> status == Http.InternalServerError && roleLinks == old(roleLinks))
        && (form.roleId.Some? && id in old(users) ==>
              status == Http.NoContent && roleLinks == Roles.AssignRole(old(roleLinks), id, form.roleId.value))
    {
      if !(Required(form.name) && Required(form.email)) {
        return Http.UnprocessableEntity;
      }
      if id in users {
        users := users[id := Edited(users[id], form)];
      }
      if form.roleId.Some? {
        if id !in users {
          return Http.InternalServerError;
        }
        var role := form.roleId.value;
        if role !in Roles.RolesOf(roleLinks, id) {
          roleLinks := Roles.DetachRoles(roleLinks, id);
          roleLinks := Roles.AttachRole(roleLinks, id, role);
        }
      }
      status := Http.NoContent;
    }

    /**
     * `destroy`: an existing user loses all its role links and is deleted; a missing id changes
     * nothing. The answer is 204 either way.
     */
    method Destroy(id: UserId) returns (status: int)
      requires Valid()
      modifies this
      ensures Valid()
      ensures status == Http.NoContent
      ensures nextUserId == old(nextUserId) && requests == old(requests) && activations == old(activations)
      ensures users == old(users) - {id}
      ensures roleLinks == Roles.DetachRoles(old(roleLinks), id)
      ensures id !in old(users) ==> roleLinks == old(roleLinks)
      ensures forall l :: l in roleLinks ==> l.userId != id
    {
      if id in users {
        roleLinks := Roles.DetachRoles(roleLinks, id);
        users := users - {id};
      } else {
        Roles.DetachRolesOfUnlinked(roleLinks, id);
      }
      status := Http.NoContent;
    }

    /**
     * `getCanUserDeactivate` for the authenticated `user`: validates the two fields, finds or
     * creates the request for the triple and, when it is granted, deletes it and every activation
     * of the triple. The answer and the new tables are those of `Deactivation.Poll`.
     */
    method GetCanUserDeactivate(user: UserId, identifier: Option<string>, deviceId: Option<string>) returns (status: int)
      requires Valid()
      modifies this`requests, this`activations
      ensures Valid()
      ensures (status, Approvals()) == Deactivation.Poll(old(Approvals()), user, identifier, deviceId)
    {
      Deactivation.PollPreservesUniqueRequests(Approvals(), user, identifier, deviceId);
      status := Http.Unauthorized;
      if Required(identifier) && Required(deviceId) {
        var k := DeviceKey(user, identifier.value, deviceId.value);
        var (table, found) := Deactivation.FirstOrCreate(requests, k);
        requests := table;
        if requests[found].granted {
          requests := Rows.RemoveAt(requests, found);
          activations := Rows.DeleteWhere(activations, ActivationKey, k);
          status := Http.NoContent;
        }
      }
    }
  }

  /**
   * A client of the store: polling again while pending is still pending, and polling again after
   * an approval is pending again, seen through the methods' contracts alone.
   */
  method ApprovalRoundTrip(db: Database, user: UserId, identifier: string, deviceId: string)
    requires Required(Some(identifier)) && Required(Some(deviceId))
    requires db.Valid()
    modifies db
  {
    var first := db.GetCanUserDeactivate(user, Some(identifier), Some(deviceId));
    if first == Http.Unauthorized {
      var again := db.GetCanUserDeactivate(user, Some(identifier), Some(deviceId));
      assert again == Http.Unauthorized by {
        Deactivation.PollIdempotentWhilePending(old(db.Approvals()), user, Some(identifier), Some(deviceId));
      }
    } else {
      var next := db.GetCanUserDeactivate(user, Some(identifier), Some(deviceId));
      assert next == Http.Unauthorized by {
        Deactivation.GrantConsumedOnce(old(db.Approvals()), user, Some(identifier), Some(deviceId));
      }
    }
  }
}
