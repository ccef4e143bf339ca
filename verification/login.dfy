/**
 * Login (src/routes/api/login.ts): the credential ladder, the lookup of the
 * first user with that email, the password check, and the signed token.
 * Login reads the users collection and never changes it, so it is a
 * function of the collection.
 */
module Login {
  import opened Wrappers
  import opened Values
  import opened Http
  import opened TokenAuth
  import opened Users
  import opened CredentialInput
  import Registration

  /** `bcrypt.compare(password, hash)` for a stored hash that is a string. */
  type PasswordCheck = (string, string) -> bool

  /** `jwt.sign(claims, secret, {expiresIn})` with the lifetime in seconds. */
  type Signer = (Claims, string, int) -> string

  /** `expiresIn: "1h"`. */
  const TokenLifetime := 3600

  /** What the handler reached: the user found and the stored hash it checked. */
  predicate Found(users: seq<UserEntry>, c: Credentials, i: nat, hash: string) {
    FirstWithEmail(users, c.email) == Some(i) && "passwordHash" in users[i].doc && users[i].doc["passwordHash"] == Str(hash)
  }

  /**
   * POST /api/login. The ladder's rejections; then 404 "User not found";
   * then, for the first user with that email, 500 when the stored hash is
   * not a string (the compare throws), 401 "Invalid email or password" when
   * the password does not match, and 500 when there is no signing secret
   * (signing throws). A success carries the token signed over the user's id
   * and email for one hour. Every exception is caught.
   */
  function Login(users: seq<UserEntry>, body: Body, compare: PasswordCheck, sign: Signer, secret: Option<string>)
    : (r: Response<string>)
    ensures r.Reply?
    ensures ReadCredentials(body).Failure? ==>
      r == ErrorResponse(ReadCredentials(body).error.message, ReadCredentials(body).error.status)
    ensures ReadCredentials(body).Success? && FirstWithEmail(users, ReadCredentials(body).value.email).None? ==>
      r == ErrorResponse("User not found", 404)
    ensures forall i: nat, hash :: (ReadCredentials(body).Success? && Found(users, ReadCredentials(body).value, i, hash)
      && !compare(ReadCredentials(body).value.password, hash)) ==> r == ErrorResponse("Invalid email or password", 401)
    ensures forall i: nat :: (ReadCredentials(body).Success? && FirstWithEmail(users, ReadCredentials(body).value.email) == Some(i)
      && !("passwordHash" in users[i].doc && users[i].doc["passwordHash"].Str?)) ==>
      r == ErrorResponse("Internal server error", 500)
    ensures forall i: nat, hash :: (ReadCredentials(body).Success? && Found(users, ReadCredentials(body).value, i, hash)
      && compare(ReadCredentials(body).value.password, hash) && (secret.None? || secret.value == "")) ==>
      r == ErrorResponse("Internal server error", 500)
    ensures r.success <==>
      && ReadCredentials(body).Success?
      && (exists i: nat, hash :: Found(users, ReadCredentials(body).value, i, hash) && compare(ReadCredentials(body).value.password, hash))
      && secret.Some? && secret.value != ""
    ensures r.success ==> exists i: nat ::
      && FirstWithEmail(users, ReadCredentials(body).value.email) == Some(i)
      && r == SuccessResponse("success", Some(sign(Claims(users[i].id, ReadCredentials(body).value.email), secret.value, TokenLifetime)))
  {
    match ReadCredentials(body)
    case Failure(e) => ErrorResponse(e.message, e.status)
    case Success(c) =>
      match FirstWithEmail(users, c.email)
      case None => ErrorResponse("User not found", 404)
      case Some(i) =>
        var doc := users[i].doc;
        if "passwordHash" !in doc || !doc["passwordHash"].Str? then ErrorResponse(InternalError.message, InternalError.status)
        else if !compare(c.password, doc["passwordHash"].s) then ErrorResponse("Invalid email or password", 401)
        else if secret.None? || secret.value == "" then ErrorResponse(InternalError.message, InternalError.status)
        else
          assert Found(users, c, i, doc["passwordHash"].s);
          SuccessResponse("success", Some(sign(Claims(users[i].id, c.email), secret.value, TokenLifetime)))
  }

  /**
   * Only the first user with the email counts: users after it, even with
   * the same email and a matching password, change nothing.
   */
  lemma OnlyFirstMatch(users: seq<UserEntry>, later: seq<UserEntry>, body: Body, compare: PasswordCheck, sign: Signer, secret: Option<string>)
    requires ReadCredentials(body).Success?
    requires FirstWithEmail(users, ReadCredentials(body).value.email).Some?
    ensures Login(users + later, body, compare, sign, secret) == Login(users, body, compare, sign, secret)
  {
    var e := ReadCredentials(body).value.email;
    FirstWithEmailPrefix(users, later, e);
    var i := FirstWithEmail(users, e).value;
    assert (users + later)[i] == users[i];
  }

  /**
   * The token's claims name the stored user: the id of its document and
   * the email the document holds.
   */
  lemma SignedClaimsAreStored(users: seq<UserEntry>, body: Body, compare: PasswordCheck, sign: Signer, secret: Option<string>)
    requires Login(users, body, compare, sign, secret).success
    ensures exists i, email :: (0 <= i < |users| && "email" in users[i].doc && users[i].doc["email"] == Str(email) &&
      Login(users, body, compare, sign, secret).data == Some(sign(Claims(users[i].id, email), secret.value, TokenLifetime)))
  {
    var i :| FirstWithEmail(users, ReadCredentials(body).value.email) == Some(i)
      && Login(users, body, compare, sign, secret) == SuccessResponse("success", Some(sign(Claims(users[i].id, ReadCredentials(body).value.email), secret.value, TokenLifetime)));
    assert HasEmail(users[i], ReadCredentials(body).value.email);
  }

  /**
   * Login and registration refuse bad input alike: whenever the shared
   * checks fail, both answer with the same message and status.
   */
  lemma SameLadderAsRegister(users: seq<UserEntry>, body: Body, compare: PasswordCheck, sign: Signer, secret: Option<string>,
                             hash: Registration.Hasher, created: int, updated: int)
    requires ReadCredentials(body).Failure?
    ensures Login(users, body, compare, sign, secret).message == Registration.Register(users, body, hash, created, updated).response.message
    ensures Login(users, body, compare, sign, secret).status == Registration.Register(users, body, hash, created, updated).response.status
  {
  }
}
