/**
 * Registration (src/routes/api/register.ts): the credential ladder, the
 * duplicate-email conflict, and the user record the handler adds. The
 * outcome is computed here as a value; `UserStore.Register` applies it to
 * the collection.
 */
module Registration {
  import opened Wrappers
  import opened Text
  import opened Values
  import opened Http
  import opened Users
  import opened CredentialInput

  /** `bcrypt.hash(password, rounds)`. */
  type Hasher = (string, int) -> string

  const SaltRounds := 10

  /** The optional profile fields, in the order the handler reads them. */
  const ProfileFields := ["displayName", "avatarUrl", "bio"]

  /**
   * `x?.trim() ?? ""`: the trimmed text, `""` for a missing or `null`
   * field, and `None` when `trim` throws on a value that is not a string.
   */
  function ProfileText(v: Value, key: string): (r: Option<string>)
    ensures r.None? <==> Get(v, key).Some? && Get(v, key).value != Null && !Get(v, key).value.Str?
    ensures r.Some? && Get(v, key).Some? && Get(v, key).value.Str? ==> r.value == Trim(Get(v, key).value.s)
    ensures r.Some? && (Get(v, key).None? || Get(v, key) == Some(Null)) ==> r.value == ""
  {
    match TrimField(Get(v, key))
    case Absent => Some("")
    case Text(s) => Some(s)
    case Throws => None
  }

  /** The profile fields all read without throwing. */
  predicate ProfileReadable(v: Value) {
    forall k :: k in ProfileFields ==> ProfileText(v, k).Some?
  }

  /**
   * The record the handler adds: the email as given, the password's hash
   * and never the password, an active flag, the trimmed profile texts, and
   * the two timestamps, each from its own reading of the clock.
   */
  function NewUser(c: Credentials, v: Value, hash: Hasher, created: int, updated: int): (doc: Doc)
    requires ProfileReadable(v)
    ensures doc.Keys == {"email", "passwordHash", "isActive", "displayName", "avatarUrl", "bio", "createdAt", "updatedAt"}
    ensures doc["email"] == Str(c.email)
    ensures doc["passwordHash"] == Str(hash(c.password, SaltRounds))
    ensures doc["isActive"] == Bool(true)
    ensures forall k :: k in ProfileFields ==> doc[k] == Str(ProfileText(v, k).value)
    ensures doc["createdAt"] == Time(created) && doc["updatedAt"] == Time(updated)
  {
    map[
      "email" := Str(c.email),
      "passwordHash" := Str(hash(c.password, SaltRounds)),
      "isActive" := Bool(true),
      "displayName" := Str(ProfileText(v, "displayName").value),
      "avatarUrl" := Str(ProfileText(v, "avatarUrl").value),
      "bio" := Str(ProfileText(v, "bio").value),
      "createdAt" := Time(created),
      "updatedAt" := Time(updated)
    ]
  }

  /** What a registration answers, and the record it adds, if any. */
  datatype Outcome = Outcome(response: Response<()>, added: Option<Doc>)

  /**
   * POST /api/register. The ladder's rejections, then 409 "User already
   * exists" when a user has exactly that email, then 500 when a profile
   * field cannot be trimmed; otherwise one record is added and the answer
   * is "User registered successfully". Every exception is caught, so the
   * handler always answers itself, and it adds a record exactly when it
   * succeeds. `created` and `updated` are the clock's two readings.
   */
  function Register(users: seq<UserEntry>, body: Body, hash: Hasher, created: int, updated: int): (o: Outcome)
    ensures o.response.Reply?
    ensures o.added.Some? <==> o.response.success
    ensures ReadCredentials(body).Failure? ==>
      o == Outcome(ErrorResponse(ReadCredentials(body).error.message, ReadCredentials(body).error.status), None)
    ensures ReadCredentials(body).Success? && FirstWithEmail(users, ReadCredentials(body).value.email).Some? ==>
      o == Outcome(ErrorResponse("User already exists", 409), None)
    ensures (ReadCredentials(body).Success? && FirstWithEmail(users, ReadCredentials(body).value.email).None?
      && !ProfileReadable(body.value)) ==> o == Outcome(ErrorResponse(InternalError.message, InternalError.status), None)
    ensures (ReadCredentials(body).Success? && FirstWithEmail(users, ReadCredentials(body).value.email).None?
      && ProfileReadable(body.value)) ==>
      o == Outcome(SuccessResponse("User registered successfully", None),
                   Some(NewUser(ReadCredentials(body).value, body.value, hash, created, updated)))
    ensures o.added.Some? ==>
      && ReadCredentials(body).Success?
      && (forall j :: 0 <= j < |users| ==> !HasEmail(users[j], ReadCredentials(body).value.email))
      && ProfileReadable(body.value)
      && o == Outcome(SuccessResponse("User registered successfully", None), Some(NewUser(ReadCredentials(body).value, body.value, hash, created, updated)))
  {
    match ReadCredentials(body)
    case Failure(e) => Outcome(ErrorResponse(e.message, e.status), None)
    case Success(c) =>
      if FirstWithEmail(users, c.email).Some? then Outcome(ErrorResponse("User already exists", 409), None)
      else if !ProfileReadable(body.value) then Outcome(ErrorResponse(InternalError.message, InternalError.status), None)
      else Outcome(SuccessResponse("User registered successfully", None), Some(NewUser(c, body.value, hash, created, updated)))
  }

  /**
   * After a successful registration the new email is taken: a second
   * registration with the same body is refused with 409.
   */
  lemma RegisterTwiceConflicts(users: seq<UserEntry>, body: Body, hash: Hasher, created: int, updated: int,
                                 created2: int, updated2: int, id: string)
    requires Register(users, body, hash, created, updated).added.Some?
    ensures Register(users + [UserEntry(id, Register(users, body, hash, created, updated).added.value)], body, hash, created2, updated2).response
      == ErrorResponse("User already exists", 409)
  {
    var c := ReadCredentials(body).value;
    var users' := users + [UserEntry(id, Register(users, body, hash, created, updated).added.value)];
    assert HasEmail(users'[|users|], c.email);
  }

  /**
   * Registration keeps emails unique: it adds a user only when no stored
   * user holds that email, and the new record holds exactly that email.
   */
  lemma RegisterKeepsEmailsUnique(users: seq<UserEntry>, body: Body, hash: Hasher, created: int, updated: int, id: string)
    requires EmailsUnique(users)
    ensures var o := Register(users, body, hash, created, updated);
      EmailsUnique(users + if o.added.Some? then [UserEntry(id, o.added.value)] else [])
  {
    var o := Register(users, body, hash, created, updated);
    if o.added.Some? {
      var c := ReadCredentials(body).value;
      var after := users + [UserEntry(id, o.added.value)];
      assert forall e :: HasEmail(after[|users|], e) ==> e == c.email;
      forall i, j, e | 0 <= i < j < |after| && HasEmail(after[i], e)
        ensures !HasEmail(after[j], e)
      {
        assert after[i] == users[i];
        if j < |users| {
          assert after[j] == users[j];
        }
      }
    } else {
      assert users + [] == users;
    }
  }
}
