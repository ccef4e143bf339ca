/**
 * The `users` collection as the handlers that write it change it: POST
 * /api/register adds a record, PATCH /api/user rewrites the caller's record
 * in place. Each method is proved to do what the matching outcome function
 * in Registration or Profile states.
 */
module UserStore {
  import opened Wrappers
  import opened Text
  import opened Values
  import opened Http
  import opened TokenAuth
  import opened Users
  import Registration
  import opened Profile

  class UserStore {
    var users: seq<UserEntry>

    constructor(users: seq<UserEntry>)
      ensures this.users == users
    {
      this.users := users;
    }

    /**
     * POST /api/register: answers as `Registration.Register` states and,
     * exactly on success, adds its record under the id the store assigns;
     * `created` and `updated` are the clock's two readings. A collection
     * whose emails were unique keeps them unique.
     */
    method Register(body: Body, hash: Registration.Hasher, newId: string, created: int, updated: int) returns (r: Response<()>)
      modifies this
      ensures EmailsUnique(old(users)) ==> EmailsUnique(users)
      ensures var o := Registration.Register(old(users), body, hash, created, updated);
        && r == o.response
        && users == old(users) + (if o.added.Some? then [UserEntry(newId, o.added.value)] else [])
    {
      if EmailsUnique(users) {
        Registration.RegisterKeepsEmailsUnique(users, body, hash, created, updated, newId);
      }
      var outcome := Registration.Register(users, body, hash, created, updated);
      if outcome.added.Some? {
        users := users + [UserEntry(newId, outcome.added.value)];
      }
      r := outcome.response;
    }

    /**
     * PATCH /api/user: the answer and the new collection are the ones
     * `PatchOutcome` states. A collection whose emails were unique keeps
     * them unique.
     */
    method PatchProfile(auth: Option<string>, body: Body, now: int) returns (r: Response<UserPayload>)
      modifies this
      ensures EmailsUnique(old(users)) ==> EmailsUnique(users)
      ensures r == PatchOutcome(old(users), auth, body, now).response
      ensures users == PatchOutcome(old(users), auth, body, now).users
    {
      if EmailsUnique(users) {
        PatchKeepsEmailsUnique(users, auth, body, now);
      }
      if !Authenticated(auth) {
        return ErrorResponse("Unauthorized", 401);
      }
      if !body.Parsed? {
        return ErrorResponse("Invalid JSON payload");
      }
      var collected := CollectUpdates(body.value);
      match collected {
        case Thrown =>
          r := Uncaught;
        case Rejected(message) =>
          r := ErrorResponse(message, 400);
        case Collected(fields) =>
          if |fields| == 0 {
            return ErrorResponse("No valid fields to update", 400);
          }
          var dataToUpdate := fields["updatedAt" := Time(now)];
          var found := FindById(users, auth.value);
          if found.None? {
            return ErrorResponse("User not found", 404);
          }
          var i := found.value;
          users := users[i := UserEntry(users[i].id, users[i].doc + dataToUpdate)];
          var snapshot := users[i].doc;
          r := SuccessResponse("", Some(UserPayload(Strip(snapshot))));
      }
    }
  }

  /**
   * The handler's loop over the allowed fields, building the update one key
   * at a time and leaving it early on a TypeError or a value that is not a
   * string; it ends where the fold `Collect` ends.
   */
  method CollectUpdates(updates: Value) returns (c: Collection)
    ensures c == Collect(updates, AllowedFields)
  {
    var dataToUpdate: Doc := map[];
    for i := 0 to |AllowedFields|
      invariant Collect(updates, AllowedFields[..i]) == Collected(dataToUpdate)
    {
      var key := AllowedFields[i];
      assert AllowedFields[..i + 1][..i] == AllowedFields[..i];
      var present := In(key, updates);
      if present.None? {
        CollectSticky(updates, AllowedFields, i + 1);
        return Thrown;
      }
      if present.value {
        var val := updates.fields[key];
        if !val.Str? {
          CollectSticky(updates, AllowedFields, i + 1);
          return Rejected(key + " must be a string");
        }
        dataToUpdate := dataToUpdate[key := Str(Trim(val.s))];
      }
    }
    assert AllowedFields[..|AllowedFields|] == AllowedFields;
    c := Collected(dataToUpdate);
  }
}
