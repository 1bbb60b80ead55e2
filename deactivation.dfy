/**
 * The deactivation approval poll of `UserController::getCanUserDeactivate`, as a function from the
 * request and activation tables before a poll to the status and the tables after it.
 */
module Deactivation {
  import opened Wrappers
  import opened Models
  import opened Validation
  import opened Rows
  import Http

  /** The two tables the poll reads and writes. */
  datatype Approvals = Approvals(requests: seq<DeactivationRequest>, activations: seq<AppUserActivation>)

  /** `DeactivationRequest::where(k)->first()`: the position of the first request stored for `k`. */
  function FindFirst(requests: seq<DeactivationRequest>, k: DeviceKey): (r: Option<nat>)
    ensures r.Some? ==> r.value < |requests| && requests[r.value].key == k
    ensures r.Some? ==> forall j :: 0 <= j < r.value ==> requests[j].key != k
    ensures r.None? ==> forall j :: 0 <= j < |requests| ==> requests[j].key != k
  {
    if requests == [] then None
    else if requests[0].key == k then Some(0)
    else match FindFirst(requests[1..], k)
      case None => None
      case Some(i) => Some(i + 1)
  }

  /**
   * `DeactivationRequest::firstOrCreate(k)`: the table afterwards and the position of the row
   * returned. An existing row is returned and the table left alone; otherwise exactly one
   * ungranted row for `k` is appended and returned.
   */
  function FirstOrCreate(requests: seq<DeactivationRequest>, k: DeviceKey): (r: (seq<DeactivationRequest>, nat))
    ensures r.1 < |r.0| && FindFirst(r.0, k) == Some(r.1)
    ensures FindFirst(requests, k).Some? ==> r.0 == requests
    ensures FindFirst(requests, k).None? ==> r.0 == requests + [DeactivationRequest(k, false)]
  {
    match FindFirst(requests, k)
    case Some(i) => (requests, i)
    case None =>
      var created := requests + [DeactivationRequest(k, false)];
      assert created[|requests|].key == k;
      (created, |requests|)
  }

  /** The triple a valid poll by `user` is about. */
  function PollKey(user: UserId, identifier: Option<string>, deviceId: Option<string>): DeviceKey
    requires identifier.Some? && deviceId.Some?
  {
    DeviceKey(user, identifier.value, deviceId.value)
  }

  /**
   * One poll by the authenticated `user`. A poll missing `identifier` or `device_id` is refused
   * with 401 and changes nothing. A valid poll finds or creates the request for its triple; when
   * that request is granted it is deleted together with every activation of the triple and the
   * answer is 204, otherwise the answer is 401.
   */
  function Poll(db: Approvals, user: UserId, identifier: Option<string>, deviceId: Option<string>): (r: (int, Approvals))
    ensures r.0 == Http.NoContent || r.0 == Http.Unauthorized
    ensures !(Required(identifier) && Required(deviceId)) ==> r == (Http.Unauthorized, db)
    ensures r.0 == Http.NoContent ==>
      DeactivationRequest(PollKey(user, identifier, deviceId), true) in db.requests
    ensures r.0 == Http.Unauthorized ==> r.1.activations == db.activations
  {
    if !(Required(identifier) && Required(deviceId)) then (Http.Unauthorized, db)
    else
      var k := PollKey(user, identifier, deviceId);
      var (requests, i) := FirstOrCreate(db.requests, k);
      if requests[i].granted then
        (Http.NoContent, Approvals(RemoveAt(requests, i), DeleteWhere(db.activations, ActivationKey, k)))
      else
        (Http.Unauthorized, Approvals(requests, db.activations))
  }

  /** At most one request per triple: the state the poll is designed to keep. */
  predicate UniqueRequests(requests: seq<DeactivationRequest>)
  {
    forall i, j :: 0 <= i < j < |requests| ==> requests[i].key != requests[j].key
  }

  /** The administrator's grant, which lives outside the controller: every request for `k` becomes granted. */
  function Grant(db: Approvals, k: DeviceKey): (r: Approvals)
    ensures |r.requests| == |db.requests| && r.activations == db.activations
    ensures forall i :: 0 <= i < |r.requests| ==> r.requests[i].key == db.requests[i].key
    ensures forall i :: 0 <= i < |r.requests| ==>
      r.requests[i].granted == (db.requests[i].granted || db.requests[i].key == k)
  {
    var requests := seq(|db.requests|, i requires 0 <= i < |db.requests| =>
      if db.requests[i].key == k then db.requests[i].(granted := true) else db.requests[i]);
    Approvals(requests, db.activations)
  }

  /** The administrator's grant keeps at most one request per triple. */
  lemma GrantKeepsUniqueRequests(db: Approvals, k: DeviceKey)
    requires UniqueRequests(db.requests)
    ensures UniqueRequests(Grant(db, k).requests)
  {
  }

  /** Asking twice for the same triple leaves the table as asking once does. */
  lemma FirstOrCreateIdempotent(requests: seq<DeactivationRequest>, k: DeviceKey)
    ensures FirstOrCreate(FirstOrCreate(requests, k).0, k) == FirstOrCreate(requests, k)
  {
  }

  /** A valid first poll for a triple adds exactly one ungranted request for it and answers 401. */
  lemma FirstPollCreatesPendingRequest(db: Approvals, user: UserId, identifier: Option<string>, deviceId: Option<string>)
    requires Required(identifier) && Required(deviceId)
    requires forall j :: 0 <= j < |db.requests| ==> db.requests[j].key != PollKey(user, identifier, deviceId)
    ensures Poll(db, user, identifier, deviceId) ==
      (Http.Unauthorized,
       Approvals(db.requests + [DeactivationRequest(PollKey(user, identifier, deviceId), false)], db.activations))
  {
  }

  /** While the answer is 401, polling again changes nothing more: no duplicate request is created. */
  lemma PollIdempotentWhilePending(db: Approvals, user: UserId, identifier: Option<string>, deviceId: Option<string>)
    requires Poll(db, user, identifier, deviceId).0 == Http.Unauthorized
    ensures Poll(Poll(db, user, identifier, deviceId).1, user, identifier, deviceId) == Poll(db, user, identifier, deviceId)
  {
    if Required(identifier) && Required(deviceId) {
      var k := PollKey(user, identifier, deviceId);
      FirstOrCreateIdempotent(db.requests, k);
    }
  }

  /** With at most one request per triple, a valid poll is approved exactly when that request is granted. */
  lemma PollApprovesIffGranted(db: Approvals, user: UserId, identifier: Option<string>, deviceId: Option<string>)
    requires Required(identifier) && Required(deviceId)
    requires UniqueRequests(db.requests)
    ensures Poll(db, user, identifier, deviceId).0 == Http.NoContent <==>
      DeactivationRequest(PollKey(user, identifier, deviceId), true) in db.requests
  {
    var k := PollKey(user, identifier, deviceId);
    if DeactivationRequest(k, true) in db.requests {
      var j :| 0 <= j < |db.requests| && db.requests[j] == DeactivationRequest(k, true);
      var i := FindFirst(db.requests, k).value;
      assert i == j;
    }
  }

  /** A poll only ever touches the rows of its own triple: the rows of every other triple are unchanged. */
  lemma PollTouchesOnlyItsTriple(db: Approvals, user: UserId, identifier: Option<string>, deviceId: Option<string>, other: DeviceKey)
    requires Required(identifier) && Required(deviceId)
    requires other != PollKey(user, identifier, deviceId)
    ensures var after := Poll(db, user, identifier, deviceId).1;
      && Where(after.requests, RequestKey, other) == Where(db.requests, RequestKey, other)
      && Where(after.activations, ActivationKey, other) == Where(db.activations, ActivationKey, other)
  {
    var k := PollKey(user, identifier, deviceId);
    match FindFirst(db.requests, k)
    case Some(i) =>
      if db.requests[i].granted {
        RemoveAtKeepsOthers(db.requests, i, RequestKey, other);
        DeleteWhereKeepsOthers(db.activations, ActivationKey, k, other);
      }
    case None =>
      AppendKeepsOthers(db.requests, DeactivationRequest(k, false), RequestKey, other);
  }

  /**
   * An approved poll consumes the grant: with at most one request per triple, no request and no
   * activation of the triple remains, and exactly one request row is gone.
   */
  lemma ApprovedPollCleansUp(db: Approvals, user: UserId, identifier: Option<string>, deviceId: Option<string>)
    requires UniqueRequests(db.requests)
    requires Poll(db, user, identifier, deviceId).0 == Http.NoContent
    ensures var k, after := PollKey(user, identifier, deviceId), Poll(db, user, identifier, deviceId).1;
      && |after.requests| == |db.requests| - 1
      && (forall j :: 0 <= j < |after.requests| ==> after.requests[j].key != k)
      && (forall j :: 0 <= j < |after.activations| ==> after.activations[j].key != k)
  {
    var k := PollKey(user, identifier, deviceId);
    var i := FindFirst(db.requests, k).value;
    var after := Poll(db, user, identifier, deviceId).1;
    assert after.requests == RemoveAt(db.requests, i);
    forall j | 0 <= j < |after.requests|
      ensures after.requests[j].key != k
    {
      if j < i {
        assert after.requests[j] == db.requests[j];
      } else {
        assert after.requests[j] == db.requests[j + 1];
      }
    }
  }

  /** Exactly-once consumption: the poll after an approval creates a fresh pending request and answers 401. */
  lemma GrantConsumedOnce(db: Approvals, user: UserId, identifier: Option<string>, deviceId: Option<string>)
    requires UniqueRequests(db.requests)
    requires Poll(db, user, identifier, deviceId).0 == Http.NoContent
    ensures var after := Poll(db, user, identifier, deviceId).1;
      Poll(after, user, identifier, deviceId) ==
        (Http.Unauthorized,
         Approvals(after.requests + [DeactivationRequest(PollKey(user, identifier, deviceId), false)], after.activations))
  {
    ApprovedPollCleansUp(db, user, identifier, deviceId);
  }

  /** The poll keeps at most one request per triple. */
  lemma PollPreservesUniqueRequests(db: Approvals, user: UserId, identifier: Option<string>, deviceId: Option<string>)
    requires UniqueRequests(db.requests)
    ensures UniqueRequests(Poll(db, user, identifier, deviceId).1.requests)
  {
    if Required(identifier) && Required(deviceId) {
      var k := PollKey(user, identifier, deviceId);
      var after := Poll(db, user, identifier, deviceId).1;
      match FindFirst(db.requests, k)
      case Some(i) =>
        if db.requests[i].granted {
          assert after.requests == RemoveAt(db.requests, i);
          forall a, b | 0 <= a < b < |after.requests|
            ensures after.requests[a].key != after.requests[b].key
          {
            var a' := if a < i then a else a + 1;
            var b' := if b < i then b else b + 1;
            assert after.requests[a] == db.requests[a'];
            assert after.requests[b] == db.requests[b'];
          }
        }
      case None =>
    }
  }

  /** Once a poll has left a request for its triple, an administrator's grant makes the next poll approved. */
  lemma GrantThenPollApproves(db: Approvals, user: UserId, identifier: Option<string>, deviceId: Option<string>)
    requires Required(identifier) && Required(deviceId)
    requires Poll(db, user, identifier, deviceId).0 == Http.Unauthorized
    ensures var granted := Grant(Poll(db, user, identifier, deviceId).1, PollKey(user, identifier, deviceId));
      Poll(granted, user, identifier, deviceId).0 == Http.NoContent
  {
    var k := PollKey(user, identifier, deviceId);
    var pending := Poll(db, user, identifier, deviceId).1;
    var i := FirstOrCreate(db.requests, k).1;
    assert pending.requests == FirstOrCreate(db.requests, k).0;
    var granted := Grant(pending, k);
    assert FindFirst(granted.requests, k) == Some(i) by {
      FindFirstSameKeys(pending.requests, granted.requests, k);
    }
  }

  /** `FindFirst` looks only at the keys of the rows. */
  lemma {:induction false} FindFirstSameKeys(a: seq<DeactivationRequest>, b: seq<DeactivationRequest>, k: DeviceKey)
    requires |a| == |b|
    requires forall i :: 0 <= i < |a| ==> a[i].key == b[i].key
    ensures FindFirst(a, k) == FindFirst(b, k)
  {
    if a != [] {
      FindFirstSameKeys(a[1..], b[1..], k);
    }
  }

  /**
   * The walk-through: user 7 polls for ("abc", "dev1") with no request stored, is told to wait,
   * an administrator grants, and the next poll is approved and removes both the request and the
   * activation of the device.
   */
  lemma ApprovalWalkthrough()
    ensures var k := DeviceKey(7, "abc", "dev1");
      var start := Approvals([], [AppUserActivation(k)]);
      var (first, pending) := Poll(start, 7, Some("abc"), Some("dev1"));
      var (second, done) := Poll(Grant(pending, k), 7, Some("abc"), Some("dev1"));
      && first == Http.Unauthorized && pending.requests == [DeactivationRequest(k, false)]
      && second == Http.NoContent && done == Approvals([], [])
  {
    var k := DeviceKey(7, "abc", "dev1");
    assert !Trimmed("abc"[0]) && !Trimmed("dev1"[0]);
    var start := Approvals([], [AppUserActivation(k)]);
    var pending := Poll(start, 7, Some("abc"), Some("dev1")).1;
    assert pending.requests == [DeactivationRequest(k, false)];
    var granted := Grant(pending, k);
    assert granted.requests == [DeactivationRequest(k, true)];
    assert DeleteWhere([AppUserActivation(k)], ActivationKey, k) == [];
  }
}
