# CitadelManager user controller — a Dafny model

This project models the core of `UserController` in the CitadelManager management backend.
The backend lets administrators manage users, groups and roles. Client agents use it to ask for
approval to uninstall ("deactivate") and to pull their group's configuration.

Three parts are modelled:

- **The deactivation approval poll** (`getCanUserDeactivate`). An agent polls with its
  `identifier` and `device_id`. The authenticated user is passed explicitly in place of the
  session. The poll finds or creates a `DeactivationRequest` for the triple (user, identifier,
  device). When that request is granted, the poll deletes it together with every
  `AppUserActivation` of the triple and answers 204. In every other case it answers 401.
  `Deactivation.Poll` is the pure specification: it maps the two tables (sequences of rows in
  storage order) to a status and the new tables. `UserController.Database.GetCanUserDeactivate`
  does the same steps imperatively on the store's fields and is proved equal to `Poll`.
- **The group configuration sync** (`checkUserData`, `getUserData`). These are read-only lookups.
  The first returns the group's `data_sha1`; the second returns the payload file's bytes. The file
  system is a map from path to bytes, and the payload path of a group is a given function.
- **Users and their role** (`store`, `update`, `destroy`). The `role_user` pivot table is a set of
  (user, role) links. `update` gives a user the supplied role, detaching all other roles, unless
  the user already holds that role. `destroy` detaches all roles of an existing user and deletes it.

Modules: `Wrappers` (Option), `Models` (records), `Http` (status codes and responses),
`Validation` (the `required` rule), `Rows` (where, delete-where and delete-one on a table),
`Deactivation`, `ConfigSync`, `Roles`, and `UserController` (class `Database` holding the store).

A poll with `identifier` or `device_id` missing answers 401 (the code falls through to line 238);
it never answers 422. The `required` rule counts a field as missing when it is absent or blank
after PHP's `trim`.

The poll does not assume at most one request per triple: it deletes only the row it found.
`Deactivation.UniqueRequests` states the uniqueness, and `Deactivation.PollPreservesUniqueRequests`
proves that polling keeps it. The exactly-once and approve-iff-granted lemmas assume it, and the
store's invariant `UserController.Database.Valid` carries it, so every poll through the store
starts and ends with at most one request per triple.

## Model

| member | source | states |
|---|---|---|
| `Validation.Required` | CitadelManager/app/Http/Controllers/UserController.php:212-217 | a field passes `required` exactly when it is sent and holds a character that `trim` does not strip; such a field is non-empty |
| `Rows.Where` | CitadelManager/app/Http/Controllers/UserController.php:232 | `where(triple)` selects only rows of that key and never more rows than the table has |
| `Rows.WhereSelectsAll` | CitadelManager/app/Http/Controllers/UserController.php:232 | `where(triple)` selects every row whose key is that triple |
| `Rows.DeleteWhere` | CitadelManager/app/Http/Controllers/UserController.php:232 | `where(triple)->delete()` leaves no row of that key |
| `Rows.RemoveAt` | CitadelManager/app/Http/Controllers/UserController.php:228 | deleting the found row removes that one row; the rows before it keep their places and the rows after it shift down by one |
| `Rows.WherePartitions` | CitadelManager/app/Http/Controllers/UserController.php:232 | the rows selected by the key and the rows kept by the delete together form exactly the table's multiset of rows: no row is lost or duplicated |
| `Rows.DeleteWhereKeepsOthers` | CitadelManager/app/Http/Controllers/UserController.php:232 | deleting the activations of one triple leaves the rows of every other triple unchanged, in order |
| `Rows.RemoveAtKeepsOthers` | CitadelManager/app/Http/Controllers/UserController.php:228 | deleting the found request leaves the requests of every other triple unchanged, in order |
| `Rows.AppendKeepsOthers` | CitadelManager/app/Http/Controllers/UserController.php:224 | creating a request for one triple leaves the requests of every other triple unchanged |
| `Deactivation.FindFirst` | CitadelManager/app/Http/Controllers/UserController.php:224 | the lookup half of `firstOrCreate`: it returns the first position holding the triple, and none exactly when no row holds it |
| `Deactivation.FirstOrCreate` | CitadelManager/app/Http/Controllers/UserController.php:224 | the returned row is always the first for the triple; an existing row leaves the table untouched; otherwise exactly one ungranted row is appended |
| `Deactivation.FirstOrCreateIdempotent` | CitadelManager/app/Http/Controllers/UserController.php:224 | find-or-create twice with the same triple equals find-or-create once |
| `Deactivation.Poll` | CitadelManager/app/Http/Controllers/UserController.php:210-239 | the answer is 204 or 401; a missing field gives 401 with both tables unchanged; 204 only if a granted request for the triple is stored (never early); a 401 never removes an activation |
| `Deactivation.FirstPollCreatesPendingRequest` | CitadelManager/app/Http/Controllers/UserController.php:220-224 | a valid poll for a triple with no request appends exactly one ungranted request for it, answers 401, and leaves activations alone |
| `Deactivation.PollIdempotentWhilePending` | CitadelManager/app/Http/Controllers/UserController.php:224-238 | after a 401 answer, polling again with the same fields gives the same answer and the same tables, so no duplicate request is created |
| `Deactivation.PollApprovesIffGranted` | CitadelManager/app/Http/Controllers/UserController.php:226-235 | with at most one request per triple, a valid poll answers 204 exactly when the triple's stored request is granted |
| `Deactivation.PollTouchesOnlyItsTriple` | CitadelManager/app/Http/Controllers/UserController.php:224-232 | the requests and activations of every other triple are exactly as before the poll |
| `Deactivation.ApprovedPollCleansUp` | CitadelManager/app/Http/Controllers/UserController.php:226-234 | after a 204, exactly one request row is gone and no request or activation of the triple remains |
| `Deactivation.GrantConsumedOnce` | CitadelManager/app/Http/Controllers/UserController.php:224-238 | the poll after a 204 creates a fresh ungranted request and answers 401, not 204 again |
| `Deactivation.PollPreservesUniqueRequests` | CitadelManager/app/Http/Controllers/UserController.php:224-228 | polling keeps at most one request per triple |
| `Deactivation.GrantKeepsUniqueRequests` | CitadelManager/app/Http/Controllers/UserController.php:226 | the administrator's grant, which the poll reads at line 226, keeps at most one request per triple |
| `Deactivation.GrantThenPollApproves` | CitadelManager/app/Http/Controllers/UserController.php:224-235 | once a poll has left a pending request, an administrator's grant makes the next poll answer 204 |
| `Deactivation.ApprovalWalkthrough` | CitadelManager/app/Http/Controllers/UserController.php:210-239 | user 7 polling for ("abc", "dev1") gets 401 and one pending request; after a grant the next poll gets 204 and both tables are empty |
| `ConfigSync.UserGroup` | CitadelManager/app/Http/Controllers/UserController.php:175 | the user's group is found exactly when the user has a group id that names a stored group |
| `ConfigSync.CheckUserData` | CitadelManager/app/Http/Controllers/UserController.php:172-183 | the answer is the group's `data_sha1` exactly when the user has a group whose hash is set, otherwise 204 |
| `ConfigSync.GetUserData` | CitadelManager/app/Http/Controllers/UserController.php:191-203 | the answer is the payload file's bytes exactly when the user has a group whose payload path names an existing non-empty file, otherwise 204; a download is never empty |
| `ConfigSync.HashNamesPayload` | CitadelManager/app/Http/Controllers/UserController.php:172-203 | if publication keeps hash and file consistent, the check answers a hash exactly when the fetch answers a download, and that hash is the hash of the downloaded bytes |
| `ConfigSync.NoGroupNoContent` | CitadelManager/app/Http/Controllers/UserController.php:176-182 | a user without a group gets 204 from both the check and the fetch |
| `ConfigSync.EmptyPayloadNoContent` | CitadelManager/app/Http/Controllers/UserController.php:197-202 | an empty payload file is answered with 204 although the file exists |
| `Roles.DetachRoles` | CitadelManager/app/Http/Controllers/UserController.php:158 | `detachRoles` leaves the user with no role and keeps every link of every other user |
| `Roles.AttachRole` | CitadelManager/app/Http/Controllers/UserController.php:140 | `attachRole` adds exactly the given role to the user's roles; other users' links are unchanged |
| `Roles.AssignRole` | CitadelManager/app/Http/Controllers/UserController.php:137-141 | a user lacking the role ends with exactly that role; a user holding it keeps its links unchanged; other users are unaffected |
| `Roles.AssignRoleGrants` | CitadelManager/app/Http/Controllers/UserController.php:138-141 | after the rule the user holds the supplied role |
| `Roles.AssignRoleIdempotent` | CitadelManager/app/Http/Controllers/UserController.php:138-141 | applying the rule twice with the same role is applying it once |
| `Roles.AssignRoleKeepsSingleRole` | CitadelManager/app/Http/Controllers/UserController.php:138-141 | detach-then-attach keeps every user at no more than one role |
| `Roles.DetachRolesOfUnlinked` | CitadelManager/app/Http/Controllers/UserController.php:155-161 | detaching a user that has no links changes nothing |
| `UserController.Database.Store` | CitadelManager/app/Http/Controllers/UserController.php:48-66 | without name, e-mail, password and role the answer is 422 and nothing changes; otherwise a user is created under a fresh id holding exactly the supplied role, and the answer is 204 |
| `UserController.Database.Update` | CitadelManager/app/Http/Controllers/UserController.php:96-145 | without name and e-mail the answer is 422 and nothing changes; otherwise an existing user is edited and given the role by the `AssignRole` rule (204); a role sent for a missing user gives 500 |
| `UserController.Database.Destroy` | CitadelManager/app/Http/Controllers/UserController.php:153-164 | always 204; an existing user and all its role links are removed; a missing id changes nothing |
| `UserController.Database.GetCanUserDeactivate` | CitadelManager/app/Http/Controllers/UserController.php:210-239 | the answer and the new request and activation tables are exactly those of `Deactivation.Poll` on the old tables; nothing else in the store changes; the store invariant, including at most one request per triple, is kept |

## Left out

- The `DeactivationRequestReceived` event and its mail listener (`SendDeactivationRequestNotification`) are left out. Mail delivery is I/O, and the code that fires the event is not part of this model.
- Password handling is left out: hashing in `store` and `update`, the password branch of `update`, and the `same:password_verify` rule. Hashing is a foreign cryptographic call.
- Validation rules other than `required` are left out: `email`, `unique:users,email` and `exists:roles,id`. They depend on the framework and the database. A sent `role_id` is taken to name an existing role, and `has('role_id')` is taken to mean `required` passes.
- `update` writes all other sent columns through `$request->except(...)`. The model writes only `name`, `email` and a sent `group_id`; an explicit null `group_id` is not modelled.
- The role methods `hasRole`, `detachRoles` and `attachRole` come from a role-management trait that is not part of this model. They are modelled as membership in, deletion from and insertion into the `role_user` relation.
- Response construction and download streaming are left out. A response is a status, a text body or the downloaded bytes. A failed `validate` is modelled as 422 (its JSON answer), not as a redirect.
- `getGroupDataPayloadPath` is not part of this model; the payload path is a function parameter. `file_exists` is modelled as "the path is a key of the file map", so directories are not modelled.
- The content hash and its computation when a payload is published are left out; `data_sha1` is an opaque optional string. `ConfigSync.HashNamesPayload` assumes the consistency the publisher keeps.
- The administrator's grant is outside the controller. `Deactivation.Grant` only sets up scenarios.
- Concurrency is left out: the store has no locking, and `firstOrCreate` is not atomic. The model is sequential. Races between duplicate first polls, or between a grant and a poll, are not captured.
- SQL `first()` has no defined order; the model takes storage order.
- Rows are matched on the exact triple (`firstOrCreate` at line 224, `where(...)->delete()` at line 232). The database's string collation, which may ignore case or trailing spaces, is not modelled.
- The authenticated user is a parameter. The case with no authenticated user is left out because it is rejected by authentication middleware that is not part of this model.
- `index`, `show`, `create`, `edit` and `getUserTerms` are left out. They are plain reads or constant answers.
- `AppUserActivation` rows are modelled by their triple only; their other columns are not part of this model.
