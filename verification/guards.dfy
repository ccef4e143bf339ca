/**
 * Server-side route guards (src/lib/auth.ts). Both read the `token` cookie
 * by hand: the first `;`-separated segment whose trimmed text starts with
 * `token=`, and in it the text between the first and second `=`. The
 * thrown redirects become a decision value.
 */
module Guards {
  import opened Wrappers
  import opened Text
  import opened Http
  import opened TokenAuth

  /** What a guard decides for the page about to render. */
  datatype Decision = Allow(identity: Claims) | Redirect(location: string) | Proceed

  const LoginPath := "/login"
  const DashboardPath := "/dashboard"

  /**
   * `verifyAuthToken(token)`, which src/lib/auth.ts imports from
   * src/utils/auth.ts: the token's claims when it is valid; `None` when it
   * returns a falsy value or throws, which both guards treat alike.
   */
  type TokenVerifier = string -> Option<Claims>

  /** `c.trim().startsWith('token=')`. */
  predicate IsTokenSegment(segment: string) {
    StartsWith(Trim(segment), "token=")
  }

  /** `request.headers.get("cookie") || ""`. */
  function CookieHeader(h: Headers): string {
    if h.cookie.Some? then h.cookie.value else ""
  }

  /**
   * `(request.headers.get("cookie") || "").split(';').find(...)`: a
   * `;`-separated segment that starts with `token=` once trimmed, and none
   * when no segment does.
   */
  function SessionCookie(h: Headers): (r: Option<string>)
    ensures r.Some? ==> r.value in Split(CookieHeader(h), ';') && IsTokenSegment(r.value)
    ensures r.None? <==> forall s :: s in Split(CookieHeader(h), ';') ==> !IsTokenSegment(s)
  {
    var segments := Split(CookieHeader(h), ';');
    match FindFirst(segments, IsTokenSegment)
    case None => None
    case Some(i) => Some(segments[i])
  }

  /**
   * The session cookie's token: `sessionCookie.split('=')[1]`, undecoded.
   * A session cookie always has one, since its segment holds an `=`, and
   * the token holds none.
   */
  function SessionToken(h: Headers): (r: Option<string>)
    ensures r.Some? <==> SessionCookie(h).Some?
    ensures SessionCookie(h).Some? ==> r == SecondField(SessionCookie(h).value, '=')
    ensures r.Some? ==> '=' !in r.value
  {
    match SessionCookie(h)
    case None => None
    case Some(segment) =>
      TokenSegmentHasEquals(segment);
      SecondField(segment, '=')
  }

  /** A token segment holds an `=`: the one after `token`. */
  lemma TokenSegmentHasEquals(segment: string)
    requires IsTokenSegment(segment)
    ensures '=' in segment
  {
    TrimSpec(segment);
    var k := |segment| - |TrimStart(segment)|;
    assert Trim(segment)[5] == '=';
    assert segment[k + 5] == Trim(segment)[5];
  }

  /** The identity the session cookie proves, shared by both guards. */
  function CookieIdentity(h: Headers, verify: TokenVerifier): Option<Claims> {
    match SessionToken(h)
    case None => None
    case Some(token) => verify(token)
  }

  /**
   * `requireAuth`: never lets rendering proceed without an identity. It
   * allows exactly when a request is present and its session token verifies,
   * and then hands on the verifier's `{userId, email}`; every other case
   * redirects to the login page.
   */
  function RequireAuth(request: Option<Headers>, verify: TokenVerifier): (d: Decision)
    ensures d.Allow? || d == Redirect(LoginPath)
    ensures d.Allow? <==> request.Some? && CookieIdentity(request.value, verify).Some?
    ensures d.Allow? ==> SessionToken(request.value).Some? && verify(SessionToken(request.value).value) == Some(d.identity)
  {
    if request.None? then Redirect(LoginPath)
    else match CookieIdentity(request.value, verify)
      case None => Redirect(LoginPath)
      case Some(claims) => Allow(Claims(claims.userId, claims.email))
  }

  /**
   * `redirectIfAuthenticated`: rendering proceeds (the function returns
   * `null`) with no request, no token cookie or a token that does not
   * verify; a verified token redirects to the dashboard.
   */
  function RedirectIfAuthenticated(request: Option<Headers>, verify: TokenVerifier): (d: Decision)
    ensures d == Proceed || d == Redirect(DashboardPath)
    ensures d == Redirect(DashboardPath) <==> request.Some? && CookieIdentity(request.value, verify).Some?
  {
    if request.None? then Proceed
    else match CookieIdentity(request.value, verify)
      case None => Proceed
      case Some(_) => Redirect(DashboardPath)
  }

  /**
   * The two guards are complementary: for a request that is present,
   * `requireAuth` allows exactly when `redirectIfAuthenticated` sends the
   * viewer to the dashboard.
   */
  lemma GuardsComplementary(h: Headers, verify: TokenVerifier)
    ensures RequireAuth(Some(h), verify).Allow? <==> RedirectIfAuthenticated(Some(h), verify) == Redirect(DashboardPath)
    ensures RequireAuth(Some(h), verify) == Redirect(LoginPath) <==> RedirectIfAuthenticated(Some(h), verify) == Proceed
  {
  }

  /** White space in front of text that starts with a non-space character is all `trim` removes there. */
  lemma TrimmedStart(ws: string, rest: string)
    requires AllSpace(ws) && rest != [] && !IsSpace(rest[0])
    ensures TrimStart(ws + rest) == rest
    decreases |ws|
  {
    if ws != [] {
      assert (ws + rest)[1..] == ws[1..] + rest;
      TrimmedStart(ws[1..], rest);
    } else {
      assert ws + rest == rest;
    }
  }

  /** A segment whose text after its leading white space starts with `token=` is a token segment. */
  lemma TokenSegmentAfterSpaces(ws: string, tail: string)
    requires AllSpace(ws) && StartsWith(tail, "token=")
    ensures IsTokenSegment(ws + tail)
  {
    TrimmedStart(ws, tail);
    TrimEndSpec(tail);
    var r := TrimEnd(tail);
    assert Trim(ws + tail) == r;
    // the `=` at position 5 of `tail` is not white space, so trimming the end keeps it
    assert tail[5] == '=' && !IsSpace(tail[5]);
    assert |r| > 5 by {
      assert forall j :: |r| <= j < |tail| ==> tail[|r|..][j - |r|] == tail[j];
    }
    assert r[..6] == tail[..6];
  }

  /**
   * A segment `<spaces>token=v...` is a token segment, and its token is `v`:
   * the text up to the next `=`, with no decoding.
   */
  lemma SegmentToken(ws: string, v: string, rest: string)
    requires AllSpace(ws) && '=' !in v
    requires rest == [] || rest[0] == '='
    ensures IsTokenSegment(ws + "token=" + v + rest)
    ensures SecondField(ws + "token=" + v + rest, '=') == Some(v)
  {
    var tail := "token=" + v + rest;
    assert ws + "token=" + v + rest == ws + tail;
    assert tail[..6] == "token=";
    TokenSegmentAfterSpaces(ws, tail);
    var name := ws + "token";
    assert '=' !in name by {
      forall i | 0 <= i < |name| ensures name[i] != '=' {
        if i < |ws| { assert IsSpace(ws[i]); }
      }
    }
    assert ws + "token=" + v + rest == name + ['='] + v + rest;
    SecondFieldOf(name, v, rest, '=');
  }

  /**
   * The first token segment wins: with the cookie header made of segments
   * joined by `;`, the session cookie is the first segment that is a token
   * segment, and later ones are ignored.
   */
  lemma FirstSegmentWins(h: Headers, segments: seq<string>, i: nat)
    requires |segments| >= 1 && forall j :: 0 <= j < |segments| ==> ';' !in segments[j]
    requires h.cookie == Some(Join(segments, ';'))
    requires i < |segments| && IsTokenSegment(segments[i])
    requires forall j :: 0 <= j < i ==> !IsTokenSegment(segments[j])
    ensures SessionCookie(h) == Some(segments[i])
  {
    assert Split(CookieHeader(h), ';') == segments by {
      SplitJoin(segments, ';');
    }
    var r := FindFirst(segments, IsTokenSegment);
    assert r == Some(i) by {
      assert r.Some?;
    }
  }

  /**
   * The token the guards verify: when the first token segment of the
   * cookie header is `<spaces>token=v...`, it is `v`, up to the next `=` and
   * undecoded.
   */
  lemma GuardToken(h: Headers, segments: seq<string>, i: nat, ws: string, v: string, rest: string)
    requires |segments| >= 1 && forall j :: 0 <= j < |segments| ==> ';' !in segments[j]
    requires h.cookie == Some(Join(segments, ';'))
    requires i < |segments| && segments[i] == ws + "token=" + v + rest
    requires forall j :: 0 <= j < i ==> !IsTokenSegment(segments[j])
    requires AllSpace(ws) && '=' !in v && (rest == [] || rest[0] == '=')
    ensures SessionToken(h) == Some(v)
  {
    SegmentToken(ws, v, rest);
    FirstSegmentWins(h, segments, i);
    assert SessionCookie(h) == Some(ws + "token=" + v + rest);
  }

  /**
   * A segment that does not start with white space and differs from
   * `token=` at a non-space character among its first six is not a token
   * segment.
   */
  lemma NotTokenSegment(s: string, k: nat)
    requires k < 6 && k < |s| && !IsSpace(s[0]) && !IsSpace(s[k]) && s[k] != "token="[k]
    ensures !IsTokenSegment(s)
  {
    assert TrimStart(s) == s;
    TrimEndSpec(s);
    var r := Trim(s);
    if |r| >= 6 { assert r[k] == s[k]; }
  }

  /** Segments such as `token2=...` or `xtoken=...` are not the token cookie. */
  lemma NearMissSegments(v: string)
    ensures !IsTokenSegment("token2=" + v)
    ensures !IsTokenSegment("xtoken=" + v)
  {
    NotTokenSegment("token2=" + v, 5);
    NotTokenSegment("xtoken=" + v, 0);
  }
}
