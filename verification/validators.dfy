/**
 * Input validation (src/utils/validators.ts): the e-mail pattern
 * `^[^\s@]+@[^\s@]+\.[^\s@]+$` as a string predicate, and the JSON-body
 * checks that guard item creation.
 */
module Validators {
  import opened Wrappers
  import opened Text
  import opened Values
  import opened Http

  /** Every character is in the class `[^\s@]`. */
  predicate Plain(s: string) {
    forall i :: 0 <= i < |s| ==> !IsSpace(s[i]) && s[i] != '@'
  }

  /** A `.` with at least one character on each side of it. */
  predicate InnerDot(r: string) {
    |r| >= 3 && '.' in r[1..|r| - 1]
  }

  /**
   * `validateEmail`: the pattern matched the way the regular-expression
   * engine settles it. The first `@` ends a non-empty plain local part; the
   * rest is plain and has a dot that is neither its first nor its last
   * character.
   */
  function ValidateEmail(email: string): bool {
    && '@' in email
    && var i := IndexOf(email, '@');
    && i > 0
    && Plain(email[..i])
    && Plain(email[i + 1..])
    && InnerDot(email[i + 1..])
  }

  /** `s` reads `local@domain.tld` with three non-empty parts in `[^\s@]+`. */
  ghost predicate EmailParts(s: string, local: string, domain: string, tld: string) {
    && local != [] && domain != [] && tld != []
    && Plain(local) && Plain(domain) && Plain(tld)
    && s == local + "@" + domain + "." + tld
  }

  /** Every slice of a plain string is plain. */
  lemma PlainSlice(s: string, i: nat, j: nat)
    requires Plain(s) && i <= j <= |s|
    ensures Plain(s[i..j])
  {
    assert forall k :: 0 <= k < j - i ==> s[i..j][k] == s[i + k];
  }

  /** A plain domain with an inner dot splits at its first inner dot into two plain, non-empty parts. */
  lemma DomainParts(r: string) returns (d: string, t: string)
    requires Plain(r) && InnerDot(r)
    ensures d != [] && t != [] && Plain(d) && Plain(t) && r == d + "." + t
  {
    var inner := r[1..|r| - 1];
    var j := IndexOf(inner, '.') + 1;
    d, t := r[..j], r[j + 1..];
    assert r[j] == inner[j - 1] == '.';
    assert r == d + "." + t;
    PlainSlice(r, 0, j);
    PlainSlice(r, j + 1, |r|);
  }

  /** An accepted address splits into the three parts of the pattern. */
  lemma EmailAcceptedHasParts(s: string)
    requires ValidateEmail(s)
    ensures exists l, d, t :: EmailParts(s, l, d, t)
  {
    var i := IndexOf(s, '@');
    var r := s[i + 1..];
    var d, t := DomainParts(r);
    assert s == s[..i] + "@" + r;
    assert EmailParts(s, s[..i], d, t);
  }

  /** `domain.tld` with both parts plain and non-empty is plain and has an inner dot. */
  lemma DottedDomain(d: string, t: string)
    requires d != [] && t != [] && Plain(d) && Plain(t)
    ensures Plain(d + "." + t) && InnerDot(d + "." + t)
  {
    var r := d + "." + t;
    forall k | 0 <= k < |r| ensures !IsSpace(r[k]) && r[k] != '@' {
      if k < |d| { assert r[k] == d[k]; }
      else if k > |d| { assert r[k] == t[k - |d| - 1]; }
    }
    assert r[1..|r| - 1][|d| - 1] == '.';
  }

  /** Three parts of the pattern make an accepted address. */
  lemma EmailPartsAccepted(s: string, l: string, d: string, t: string)
    requires EmailParts(s, l, d, t)
    ensures ValidateEmail(s)
  {
    var r := d + "." + t;
    DottedDomain(d, t);
    assert s == l + ("@" + r);
    IndexOfAfter(l, "@" + r, '@');
    assert s[..|l|] == l;
    assert s[|l| + 1..] == r;
  }

  /**
   * The pattern's meaning: an address is accepted exactly when it splits
   * into a local part, a domain and a last label, each non-empty and free of
   * white space and `@`. The domain may itself contain dots.
   */
  lemma ValidateEmailSpec(s: string)
    ensures ValidateEmail(s) <==> exists l, d, t :: EmailParts(s, l, d, t)
  {
    if ValidateEmail(s) {
      EmailAcceptedHasParts(s);
    }
    if exists l, d, t :: EmailParts(s, l, d, t) {
      var l, d, t :| EmailParts(s, l, d, t);
      EmailPartsAccepted(s, l, d, t);
    }
  }

  /**
   * What every accepted address has: it is not empty, holds no white space,
   * and holds exactly one `@`.
   */
  lemma AcceptedEmailShape(s: string)
    requires ValidateEmail(s)
    ensures s != []
    ensures forall k :: 0 <= k < |s| ==> !IsSpace(s[k])
    ensures exists k :: 0 <= k < |s| && s[k] == '@' && forall m :: 0 <= m < |s| && m != k ==> s[m] != '@'
  {
    var i := IndexOf(s, '@');
    var l, r := s[..i], s[i + 1..];
    assert s == l + "@" + r;
    forall k | 0 <= k < |s| ensures !IsSpace(s[k]) && (k != i ==> s[k] != '@') {
      if k < i { assert s[k] == l[k]; }
      else if k > i { assert s[k] == r[k - i - 1]; }
    }
  }

  /** The outcome of `validateRequest`: the parsed body, or an error message. */
  datatype Validation = Valid(data: Value) | Invalid(error: string)

  /** `!body || Object.keys(body).length === 0`. */
  predicate EmptyBody(v: Value) {
    !Truthy(v) || KeyCount(v) == 0
  }

  /** `body[key] && typeof body[key] !== "string"`: a truthy value that is not a string. */
  predicate BadStringField(v: Value, key: string) {
    match Get(v, key)
    case None => false
    case Some(x) => Truthy(x) && !x.Str?
  }

  predicate JsonContentType(h: Headers) {
    h.contentType.Some? && Contains(h.contentType.value, "application/json")
  }

  /**
   * `validateRequest`. A content type without `application/json` is refused
   * whatever the body; a body that parses, is not empty and has no truthy
   * non-string `title` or `description` is accepted and handed on as it was
   * parsed. The checks run in that order and the first failure names the
   * error.
   */
  function ValidateRequest(h: Headers, body: Body): (r: Validation)
    ensures !JsonContentType(h) ==> r == Invalid("Content-Type must be application/json")
    ensures r.Valid? <==>
      && JsonContentType(h) && body.Parsed? && !EmptyBody(body.value)
      && !BadStringField(body.value, "title") && !BadStringField(body.value, "description")
    ensures r.Valid? ==> body == Parsed(r.data)
    ensures JsonContentType(h) && body == SyntaxError ==> r == Invalid("Invalid JSON format or empty request body")
    ensures JsonContentType(h) && body == ReadFailure ==> r == Invalid("An unexpected error occurred while processing the request")
    ensures JsonContentType(h) && body.Parsed? && EmptyBody(body.value) ==> r == Invalid("Request body cannot be empty")
    ensures (JsonContentType(h) && body.Parsed? && !EmptyBody(body.value) && BadStringField(body.value, "title"))
      ==> r == Invalid("Title must be a string")
    ensures (JsonContentType(h) && body.Parsed? && !EmptyBody(body.value) && !BadStringField(body.value, "title")
      && BadStringField(body.value, "description")) ==> r == Invalid("Description must be a string")
  {
    if !JsonContentType(h) then Invalid("Content-Type must be application/json")
    else
      match body
      case SyntaxError => Invalid("Invalid JSON format or empty request body")
      case ReadFailure => Invalid("An unexpected error occurred while processing the request")
      case Parsed(v) =>
        if EmptyBody(v) then Invalid("Request body cannot be empty")
        else if BadStringField(v, "title") then Invalid("Title must be a string")
        else if BadStringField(v, "description") then Invalid("Description must be a string")
        else Valid(v)
  }

  /**
   * The truthiness quirk: a `title` or `description` that is falsy (`0`,
   * `false`, `null`, `""`) is not type-checked, so such a body is accepted.
   */
  lemma FalsyFieldsPass(h: Headers, v: Value)
    requires JsonContentType(h) && !EmptyBody(v)
    requires forall k :: k in {"title", "description"} && Get(v, k).Some? ==> !Truthy(Get(v, k).value) || Get(v, k).value.Str?
    ensures ValidateRequest(h, Parsed(v)) == Valid(v)
  {
    assert "title" in {"title", "description"};
    assert "description" in {"title", "description"};
  }
}
