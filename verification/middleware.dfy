/**
 * The JWT middleware: requests to the unprotected routes pass untouched; any
 * other request must carry `Authorization: Bearer <token>`, and the token must
 * verify, in which case the user id it carries is attached to the request.
 * Token verification (`jwt.verify` with the server secret) is a function
 * parameter returning `None` where the library throws.
 */
module AuthMiddleware {
  import opened Common
  import opened Strings

  /** The routes reachable without a token. */
  const UNPROTECTED_ROUTES: seq<string> :=
    ["/", "/api/auth/login", "/api/auth/verify", "/api/auth/resend-verification", "/api/auth/register"]

  const HEADER_MISSING := "Authorization header missing"
  const INVALID_FORMAT := "Invalid authorization format"
  const INVALID_TOKEN := "Invalid or expired token"

  /** Hand the request on (`next()`), with the user id attached if one was, or answer 401 with a message. */
  datatype Verdict = Next(userId: Option<Id>) | Unauthorized(message: string)

  /**
   * The token of a header that splits on ' ' into exactly `"Bearer"` and one
   * more piece; the header is then exactly `"Bearer "` followed by a token
   * without spaces (possibly empty).
   */
  function BearerToken(header: string): (token: Option<string>)
    ensures token.Some? ==> ' ' !in token.value && header == "Bearer " + token.value
  {
    var parts := Split(header, ' ');
    if |parts| != 2 || parts[0] != "Bearer" then None
    else
      JoinSplit(header, ' ');
      Some(parts[1])
  }

  /** Conversely, every `"Bearer " + token` with a space-free token is accepted, with that token. */
  lemma BearerTokenOfWellFormed(token: string)
    requires ' ' !in token
    ensures BearerToken("Bearer " + token) == Some(token)
  {
    SplitJoin(["Bearer", token], ' ');
    assert Join(["Bearer", token], ' ') == "Bearer " + token;
  }

  /** The decision of `jwtValidator`, in the order it checks. */
  function Authenticate(path: string, authorization: Option<string>, verify: string -> Option<Id>): (v: Verdict)
    ensures path in UNPROTECTED_ROUTES ==> v == Next(None)
    ensures v == Unauthorized(HEADER_MISSING) <==> path !in UNPROTECTED_ROUTES && !Given(authorization)
    ensures v == Unauthorized(INVALID_FORMAT) <==>
      path !in UNPROTECTED_ROUTES && Given(authorization) && BearerToken(authorization.value).None?
    ensures v == Unauthorized(INVALID_TOKEN) <==>
      && path !in UNPROTECTED_ROUTES && Given(authorization)
      && var token := BearerToken(authorization.value);
         token.Some? && verify(token.value).None?
    ensures v.Next? && v.userId.Some? ==>
      && path !in UNPROTECTED_ROUTES && Given(authorization)
      && var token := BearerToken(authorization.value);
         token.Some? && v.userId == verify(token.value)
  {
    if path in UNPROTECTED_ROUTES then Next(None)
    else if !Given(authorization) then Unauthorized(HEADER_MISSING)
    else
      match BearerToken(authorization.value)
      case None => Unauthorized(INVALID_FORMAT)
      case Some(token) =>
        match verify(token)
        case None => Unauthorized(INVALID_TOKEN)
        case Some(userId) => Next(Some(userId))
  }

  /** On an unprotected route neither the header nor the verifier is consulted. */
  lemma UnprotectedRouteIgnoresHeader(
    path: string, a: Option<string>, b: Option<string>, verifyA: string -> Option<Id>, verifyB: string -> Option<Id>)
    requires path in UNPROTECTED_ROUTES
    ensures Authenticate(path, a, verifyA) == Authenticate(path, b, verifyB) == Next(None)
  {
  }

  /** A well-formed header with a token that verifies lets the request through as the token's user. */
  lemma WellFormedHeaderIsAccepted(path: string, token: string, verify: string -> Option<Id>, userId: Id)
    requires path !in UNPROTECTED_ROUTES && ' ' !in token && verify(token) == Some(userId)
    ensures Authenticate(path, Some("Bearer " + token), verify) == Next(Some(userId))
  {
    BearerTokenOfWellFormed(token);
  }

  /** Only the second piece of the header reaches the verifier: verifiers that agree on it decide alike. */
  lemma OnlyTheTokenIsVerified(path: string, token: string, verifyA: string -> Option<Id>, verifyB: string -> Option<Id>)
    requires ' ' !in token && verifyA(token) == verifyB(token)
    ensures Authenticate(path, Some("Bearer " + token), verifyA) == Authenticate(path, Some("Bearer " + token), verifyB)
  {
    BearerTokenOfWellFormed(token);
  }

  /**
   * Exactly the headers made of `"Bearer "` followed by a space-free rest are
   * accepted, and the token is that rest.
   */
  lemma BearerTokenExactly(header: string)
    ensures BearerToken(header).Some? <==> |header| >= 7 && header[..7] == "Bearer " && ' ' !in header[7..]
    ensures BearerToken(header).Some? ==> BearerToken(header).value == header[7..]
  {
    if |header| >= 7 && header[..7] == "Bearer " && ' ' !in header[7..] {
      assert header == "Bearer " + header[7..];
      BearerTokenOfWellFormed(header[7..]);
    }
  }

  /** On a protected route, a header not of the form `"Bearer " + token` is refused as malformed. */
  lemma MalformedHeaderIsRefused(path: string, header: string, verify: string -> Option<Id>)
    requires path !in UNPROTECTED_ROUTES && header != ""
    requires !(|header| >= 7 && header[..7] == "Bearer " && ' ' !in header[7..])
    ensures Authenticate(path, Some(header), verify) == Unauthorized(INVALID_FORMAT)
  {
    BearerTokenExactly(header);
  }

  /** The scheme is matched case-sensitively: `bearer <token>` is malformed. */
  lemma SchemeIsCaseSensitive(token: string)
    ensures BearerToken("bearer " + token).None?
  {
    BearerTokenExactly("bearer " + token);
    assert ("bearer " + token)[0] != "Bearer "[0];
  }

  /** A token containing a space (including a doubled space after the scheme) is malformed. */
  lemma SpaceInTokenIsRefused(before: string, after: string)
    ensures BearerToken("Bearer " + before + " " + after).None?
  {
    var header := "Bearer " + before + " " + after;
    BearerTokenExactly(header);
    assert header[7..][|before|] == ' ';
  }

  /** `"Bearer "` alone splits into `"Bearer"` and `""`, so the empty token is passed to the verifier. */
  lemma EmptyTokenIsPassedOn(path: string, verify: string -> Option<Id>)
    requires path !in UNPROTECTED_ROUTES
    ensures Authenticate(path, Some("Bearer "), verify) == (if verify("").Some? then Next(verify("")) else Unauthorized(INVALID_TOKEN))
  {
    BearerTokenOfWellFormed("");
    assert "Bearer " + "" == "Bearer ";
  }

  /** The incoming request as the middleware sees it. */
  class Request {
    const path: string
    const authorization: Option<string>
    var userId: Option<Id>

    constructor (path: string, authorization: Option<string>)
      ensures this.path == path && this.authorization == authorization && userId == None
    {
      this.path := path;
      this.authorization := authorization;
      userId := None;
    }
  }

  /**
   * `jwtValidator`: decides as `Authenticate` does and, when the token
   * verifies, writes its user id into the request before handing it on.
   */
  method JwtValidator(req: Request, verify: string -> Option<Id>) returns (v: Verdict)
    modifies req
    ensures v == Authenticate(req.path, req.authorization, verify)
    ensures req.userId == if v.Next? && v.userId.Some? then v.userId else old(req.userId)
  {
    if req.path in UNPROTECTED_ROUTES {
      return Next(None);
    }
    var authHeader := req.authorization;
    if !Given(authHeader) {
      return Unauthorized(HEADER_MISSING);
    }
    var headerToken := Split(authHeader.value, ' ');
    if |headerToken| != 2 || headerToken[0] != "Bearer" {
      return Unauthorized(INVALID_FORMAT);
    }
    var token := headerToken[1];
    var decoded := verify(token);
    if decoded.None? {
      return Unauthorized(INVALID_TOKEN);
    }
    req.userId := decoded;
    v := Next(decoded);
  }
}
