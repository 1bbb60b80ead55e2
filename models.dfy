/** The optional value used for nullable columns and absent request fields. */
module Wrappers {
  datatype Option<+T> = None | Some(value: T)
}

/** The records of the persistent store that the user controller reads and writes. */
module Models {
  import opened Wrappers

  type UserId = nat
  type RoleId = nat
  type GroupId = nat
  type Path = string
  newtype byte = x: int | 0 <= x < 256

  /** A row of `users`; the credential hash is not modelled. */
  datatype User = User(name: string, email: string, groupId: Option<GroupId>)

  /** A row of `groups`: `dataSha1` is the content hash of the published configuration payload, if any. */
  datatype Group = Group(name: string, dataSha1: Option<string>)

  /** A row of the `role_user` pivot table. */
  datatype RoleLink = RoleLink(userId: UserId, roleId: RoleId)

  /** The triple that identifies one agent installation of one user. */
  datatype DeviceKey = DeviceKey(userId: UserId, identifier: string, deviceId: string)

  /** A row of `deactivation_requests`. */
  datatype DeactivationRequest = DeactivationRequest(key: DeviceKey, granted: bool)

  /** A row of `app_user_activations`. */
  datatype AppUserActivation = AppUserActivation(key: DeviceKey)

  function RequestKey(q: DeactivationRequest): DeviceKey { q.key }

  function ActivationKey(a: AppUserActivation): DeviceKey { a.key }
}

/** What a controller action answers: a status without body, a text body, or a file download. */
module Http {
  import opened Models

  const NoContent := 204
  const Unauthorized := 401
  const UnprocessableEntity := 422
  const InternalServerError := 500

  datatype Response = NoBody(status: int) | Text(text: string) | Download(bytes: seq<byte>)
}
