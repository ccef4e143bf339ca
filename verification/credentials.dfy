/**
 * The credential checks that src/routes/api/register.ts and
 * src/routes/api/login.ts share: read the body, require a non-blank email
 * and password, check the email's format, and turn a JSON syntax error or
 * any other failure into the handlers' catch-all answers.
 */
module CredentialInput {
  import opened Wrappers
  import opened Text
  import opened Values
  import opened Http
  import opened Validators

  /**
   * `x?.trim()` on a field read from the body: `undefined` for a missing or
   * `null` field, the trimmed text of a string, and a TypeError for any
   * other value, which has no `trim` method.
   */
  datatype Trimmed = Absent | Text(s: string) | Throws

  function TrimField(v: Option<Value>): Trimmed {
    match v
    case None => Absent
    case Some(Null) => Absent
    case Some(Str(s)) => Text(Trim(s))
    case Some(_) => Throws
  }

  /** `!x?.trim()` when it does not throw: the field is missing or only white space. */
  predicate Blank(t: Trimmed) {
    t == Absent || t == Text("")
  }

  /** The answer a handler gives instead of going on: a message and a status. */
  datatype Rejection = Rejection(message: string, status: int)

  /** The email and the password exactly as the body holds them. */
  datatype Credentials = Credentials(email: string, password: string)

  const InternalError := Rejection("Internal server error", 500)

  /**
   * The shared ladder. A syntax error answers 400 "Invalid JSON format";
   * any other failure (the body cannot be read, the body is `null` and
   * cannot be destructured, a field's `trim` throws) answers 500. Then, in
   * this order: a blank email, a blank password, an email the format check
   * refuses. The format check sees the email untrimmed.
   */
  function ReadCredentials(body: Body): (r: Result<Credentials, Rejection>)
    ensures body == SyntaxError ==> r == Failure(Rejection("Invalid JSON format", 400))
    ensures body == ReadFailure || body == Parsed(Null) ==> r == Failure(InternalError)
    ensures r.Failure? ==> r.error == InternalError || r.error.status == 400
    ensures body.Parsed? && body.value != Null && Blank(TrimField(Get(body.value, "email"))) ==>
      r == Failure(Rejection("Email is required", 400))
    ensures (body.Parsed? && body.value != Null && TrimField(Get(body.value, "email")).Text?
      && !Blank(TrimField(Get(body.value, "email"))) && Blank(TrimField(Get(body.value, "password")))) ==>
      r == Failure(Rejection("Password is required", 400))
    ensures body.Parsed? && body.value != Null && TrimField(Get(body.value, "email")) == Throws ==> r == Failure(InternalError)
    ensures (body.Parsed? && body.value != Null && TrimField(Get(body.value, "email")).Text?
      && !Blank(TrimField(Get(body.value, "email"))) && TrimField(Get(body.value, "password")) == Throws) ==>
      r == Failure(InternalError)
    ensures (body.Parsed? && TrimField(Get(body.value, "email")).Text? && !Blank(TrimField(Get(body.value, "email")))
      && TrimField(Get(body.value, "password")).Text? && !Blank(TrimField(Get(body.value, "password")))
      && !ValidateEmail(Get(body.value, "email").value.s)) ==>
      r == Failure(Rejection("Invalid email format", 400))
    ensures r.Success? <==>
      && body.Parsed?
      && Get(body.value, "email").Some? && Get(body.value, "email").value.Str?
      && Get(body.value, "password").Some? && Get(body.value, "password").value.Str?
      && Trim(Get(body.value, "email").value.s) != ""
      && Trim(Get(body.value, "password").value.s) != ""
      && ValidateEmail(Get(body.value, "email").value.s)
    ensures r.Success? ==>
      Get(body.value, "email") == Some(Str(r.value.email)) && Get(body.value, "password") == Some(Str(r.value.password))
  {
    match body
    case SyntaxError => Failure(Rejection("Invalid JSON format", 400))
    case ReadFailure => Failure(InternalError)
    case Parsed(v) =>
      if v == Null then Failure(InternalError)
      else
        var email := TrimField(Get(v, "email"));
        if email == Throws then Failure(InternalError)
        else if Blank(email) then Failure(Rejection("Email is required", 400))
        else
          var password := TrimField(Get(v, "password"));
          if password == Throws then Failure(InternalError)
          else if Blank(password) then Failure(Rejection("Password is required", 400))
          else
            var e := Get(v, "email").value.s;
            if !ValidateEmail(e) then Failure(Rejection("Invalid email format", 400))
            else Success(Credentials(e, Get(v, "password").value.s))
  }

  /**
   * The format check sees the email untrimmed: an email that is not blank
   * but holds white space anywhere, such as one with a space in front, is
   * refused as badly formatted once the password is present.
   */
  lemma SpacedEmailRejected(v: Value, email: string, password: string, k: nat)
    requires Get(v, "email") == Some(Str(email)) && Get(v, "password") == Some(Str(password))
    requires Trim(email) != "" && Trim(password) != ""
    requires k < |email| && IsSpace(email[k])
    ensures ReadCredentials(Parsed(v)) == Failure(Rejection("Invalid email format", 400))
  {
    if ValidateEmail(email) {
      AcceptedEmailShape(email);
      assert false;
    }
  }

  /** Accepted credentials carry an email that trimming leaves as it is. */
  lemma AcceptedEmailTrimmed(body: Body)
    requires ReadCredentials(body).Success?
    ensures Trim(ReadCredentials(body).value.email) == ReadCredentials(body).value.email
  {
    var e := ReadCredentials(body).value.email;
    AcceptedEmailShape(e);
    TrimStartSpec(e);
    TrimEndSpec(TrimStart(e));
  }
}
