/**
 * The group configuration sync of `UserController::checkUserData` and `getUserData`: read-only
 * lookups of the authenticated user's group, its content hash and its payload file.
 */
module ConfigSync {
  import opened Wrappers
  import opened Models
  import opened Http

  /** The file system: the bytes stored at each existing path. */
  type Files = map<Path, seq<byte>>

  /** `$user->group()->first()`: the group the user belongs to, when it exists. */
  function UserGroup(user: User, groups: map<GroupId, Group>): (r: Option<GroupId>)
    ensures r.Some? <==> user.groupId.Some? && user.groupId.value in groups
    ensures r.Some? ==> r == user.groupId
  {
    match user.groupId
    case Some(g) => if g in groups then Some(g) else None
    case None => None
  }

  /**
   * `checkUserData`: the hash of the group's payload as text when the user has a group that has
   * published one; "no content" otherwise, never an error.
   */
  function CheckUserData(user: User, groups: map<GroupId, Group>): (r: Response)
    ensures r.Text? || r == NoBody(NoContent)
    ensures r.Text? <==> UserGroup(user, groups).Some? && groups[user.groupId.value].dataSha1.Some?
    ensures r.Text? ==> groups[user.groupId.value].dataSha1 == Some(r.text)
  {
    match UserGroup(user, groups)
    case Some(g) =>
      (match groups[g].dataSha1
       case Some(hash) => Text(hash)
       case None => NoBody(NoContent))
    case None => NoBody(NoContent)
  }

  /**
   * `getUserData`: the bytes of the group's payload file when the user has a group whose payload
   * path (given by `payloadPath`) names an existing, non-empty file; "no content" otherwise.
   */
  function GetUserData(user: User, groups: map<GroupId, Group>, payloadPath: GroupId -> Path, files: Files): (r: Response)
    ensures r.Download? || r == NoBody(NoContent)
    ensures r.Download? <==>
      UserGroup(user, groups).Some? && payloadPath(user.groupId.value) in files
      && |files[payloadPath(user.groupId.value)]| > 0
    ensures r.Download? ==> r.bytes == files[payloadPath(user.groupId.value)] && |r.bytes| > 0
  {
    match UserGroup(user, groups)
    case Some(g) =>
      var path := payloadPath(g);
      if path in files && |files[path]| > 0 then Download(files[path]) else NoBody(NoContent)
    case None => NoBody(NoContent)
  }

  /**
   * What publishing a payload keeps true (publishing is not part of this model): a group has a hash
   * exactly when its payload file exists and is non-empty, and the hash is that of the file's bytes.
   */
  ghost predicate PublishedConsistently(groups: map<GroupId, Group>, payloadPath: GroupId -> Path, files: Files, sha1: seq<byte> -> string)
  {
    forall g :: g in groups ==>
      && (groups[g].dataSha1.Some? <==> payloadPath(g) in files && |files[payloadPath(g)]| > 0)
      && (groups[g].dataSha1.Some? ==> groups[g].dataSha1.value == sha1(files[payloadPath(g)]))
  }

  /**
   * With consistent publication, the check answers a hash exactly when the fetch answers a
   * download, and the hash is the hash of the downloaded bytes.
   */
  lemma HashNamesPayload(user: User, groups: map<GroupId, Group>, payloadPath: GroupId -> Path, files: Files, sha1: seq<byte> -> string)
    requires PublishedConsistently(groups, payloadPath, files, sha1)
    ensures CheckUserData(user, groups).Text? <==> GetUserData(user, groups, payloadPath, files).Download?
    ensures GetUserData(user, groups, payloadPath, files).Download? ==>
      CheckUserData(user, groups) == Text(sha1(GetUserData(user, groups, payloadPath, files).bytes))
  {
    if UserGroup(user, groups).Some? {
      var g := user.groupId.value;
      assert g in groups;
    }
  }

  /** A user without a group gets "no content" from both the check and the fetch. */
  lemma NoGroupNoContent(user: User, groups: map<GroupId, Group>, payloadPath: GroupId -> Path, files: Files)
    requires user.groupId.None?
    ensures CheckUserData(user, groups) == NoBody(NoContent)
    ensures GetUserData(user, groups, payloadPath, files) == NoBody(NoContent)
  {
  }

  /** An empty payload file is answered with "no content" although the file exists. */
  lemma EmptyPayloadNoContent(user: User, groups: map<GroupId, Group>, payloadPath: GroupId -> Path, files: Files)
    requires user.groupId.Some? && user.groupId.value in groups
    requires payloadPath(user.groupId.value) in files && files[payloadPath(user.groupId.value)] == []
    ensures GetUserData(user, groups, payloadPath, files) == NoBody(NoContent)
  {
  }
}
