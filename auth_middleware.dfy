/**
 * `ensureAuth`: reads the Authorization header, takes the second
 * space-separated word as the token whatever the first word is, verifies it
 * with the access secret, and stores the subject (as a number) and the role
 * on the request.
 */
module AuthMiddleware {
  import opened Wrappers
  import opened Errors
  import opened Decimal
  import opened Jwt
  import opened Entities
  import opened Env
  import opened AuthTokens
  import opened Messages

  /** The request fields the middleware reads and writes. */
  class AuthRequest {
    var authorization: Option<string>
    var userId: Option<nat>
    var role: Option<string>

    constructor (authorization: Option<string>)
      ensures this.authorization == authorization && userId.None? && role.None?
    {
      this.authorization := authorization;
      userId := None;
      role := None;
    }
  }

  // ---- `header.split(" ")`

  /** `s.split(" ")`: the pieces between single spaces, empty ones included. */
  function SplitOnSpace(s: string): (parts: seq<string>)
    ensures |parts| >= 1
    ensures forall k :: 0 <= k < |parts| ==> ' ' !in parts[k]
  {
    if s == [] then [[]]
    else
      var rest := SplitOnSpace(s[1..]);
      if s[0] == ' ' then [[]] + rest
      else [[s[0]] + rest[0]] + rest[1..]
  }

  /** `parts.join(" ")` */
  function Join(parts: seq<string>): string
    requires |parts| >= 1
  {
    if |parts| == 1 then parts[0] else parts[0] + " " + Join(parts[1..])
  }

  /** Splitting loses nothing: joining the pieces gives back the string. */
  lemma {:induction false} JoinSplit(s: string)
    ensures Join(SplitOnSpace(s)) == s
  {
    if s != [] {
      var rest := SplitOnSpace(s[1..]);
      JoinSplit(s[1..]);
      if s[0] == ' ' {
        assert ([[]] + rest)[1..] == rest;
      } else {
        var parts := [[s[0]] + rest[0]] + rest[1..];
        if |rest| == 1 {
          assert s == [s[0]] + s[1..];
        } else {
          assert parts[1..] == rest[1..];
          assert Join(rest) == rest[0] + " " + Join(rest[1..]);
          assert s == [s[0]] + s[1..];
        }
      }
    }
  }

  /** Pieces without spaces come back from splitting their join. */
  lemma {:induction false} SplitJoin(parts: seq<string>)
    requires |parts| >= 1
    requires forall k :: 0 <= k < |parts| ==> ' ' !in parts[k]
    ensures SplitOnSpace(Join(parts)) == parts
  {
    SplitWord(parts[0], if |parts| == 1 then None else Some(Join(parts[1..])));
    if |parts| > 1 {
      SplitJoin(parts[1..]);
      assert [parts[0]] + parts[1..] == parts;
    }
  }

  /** A word without spaces, optionally followed by a space and a tail. */
  lemma {:induction false} SplitWord(w: string, tail: Option<string>)
    requires ' ' !in w
    ensures tail.None? ==> SplitOnSpace(w) == [w]
    ensures tail.Some? ==> SplitOnSpace(w + " " + tail.value) == [w] + SplitOnSpace(tail.value)
  {
    if w == [] {
      if tail.Some? {
        assert w + " " + tail.value == [' '] + tail.value;
        assert (w + " " + tail.value)[1..] == tail.value;
      }
    } else {
      SplitWord(w[1..], tail);
      if tail.Some? {
        assert (w + " " + tail.value)[1..] == w[1..] + " " + tail.value;
        assert [w[0]] + w[1..] == w;
      } else {
        assert [w[0]] + w[1..] == w;
      }
    }
  }

  // ---- the token

  /** `const [, token] = header.split(" "); if (!token) ...`: the second piece, when there is one and it is not empty. */
  function BearerToken(header: string): (token: Option<string>)
    ensures token.Some? ==> token.value != [] && ' ' !in token.value
  {
    var parts := SplitOnSpace(header);
    if |parts| >= 2 && parts[1] != [] then Some(parts[1]) else None
  }

  /** A header without a space has no second piece, so no token. */
  lemma NoSpaceNoToken(header: string)
    requires ' ' !in header
    ensures BearerToken(header).None?
  {
    SplitWord(header, None);
  }

  /** The scheme word is not looked at: any space-free word, a space, and the token gives the token. */
  lemma BearerOfAnyScheme(scheme: string, token: string)
    requires ' ' !in scheme && ' ' !in token && token != []
    ensures BearerToken(scheme + " " + token) == Some(token)
  {
    SplitWord(scheme, Some(token));
    SplitWord(token, None);
  }

  /** What a successful check stores on the request. */
  datatype Identity = Identity(userId: Option<nat>, role: string)

  /** `Number(payload.sub)`: a decimal string as its number (None for NaN), a number as itself. */
  function SubjectNumber(sub: Subject): (n: Option<nat>)
    ensures sub.NumericSubject? ==> n == Some(sub.id)
    ensures sub.TextSubject? ==> n == JsNumber(sub.text)
  {
    match sub
    case TextSubject(text) => JsNumber(text)
    case NumericSubject(id) => Some(id)
  }

  /** The decision `ensureAuth` takes on a request, before it writes anything. */
  function Authenticate(authorization: Option<string>, secret: string, nowMs: nat): (r: Result<Identity>)
    ensures (authorization.None? || authorization.value == []) <==> r == Err(App(AuthenticationError(TokenMissing)))
    ensures authorization.Some? && authorization.value != [] && BearerToken(authorization.value).None?
      ==> r == Err(App(AuthenticationError(TokenMalformed)))
    ensures authorization.Some? && BearerToken(authorization.value).Some?
      && Verify(BearerToken(authorization.value).value, secret, nowMs).None?
      ==> r == Err(App(AuthenticationError(TokenRejected)))
    ensures r.Ok? <==>
      authorization.Some? && BearerToken(authorization.value).Some?
      && Verify(BearerToken(authorization.value).value, secret, nowMs).Some?
    ensures r.Ok? ==>
      var p := Verify(BearerToken(authorization.value).value, secret, nowMs).value;
      r.value == Identity(SubjectNumber(p.sub), p.role)
  {
    if authorization.None? || authorization.value == [] then Err(App(AuthenticationError(TokenMissing)))
    else
      match BearerToken(authorization.value)
      case None => Err(App(AuthenticationError(TokenMalformed)))
      case Some(token) =>
        match Verify(token, secret, nowMs)
        case None => Err(App(AuthenticationError(TokenRejected)))
        case Some(p) => Ok(Identity(SubjectNumber(p.sub), p.role))
  }

  /**
   * `ensureAuth(req, res, next)`: on success the request carries the
   * identity `Authenticate` finds (and `next` runs); on failure the request
   * is left as it was.
   */
  method EnsureAuth(req: AuthRequest, secret: string, nowMs: nat) returns (r: Result<()>)
    modifies req`userId, req`role
    ensures r.Err? ==> Authenticate(old(req.authorization), secret, nowMs) == Err(r.thrown) && unchanged(req)
    ensures r.Ok? <==> Authenticate(old(req.authorization), secret, nowMs).Ok?
    ensures r.Ok? ==>
      var id := Authenticate(old(req.authorization), secret, nowMs).value;
      req.userId == id.userId && req.role == Some(id.role)
  {
    var authHeader := req.authorization;
    if authHeader.None? || authHeader.value == [] {
      return Err(App(AuthenticationError(TokenMissing)));
    }
    var token := BearerToken(authHeader.value);
    if token.None? {
      return Err(App(AuthenticationError(TokenMalformed)));
    }
    var payload := Verify(token.value, secret, nowMs);
    if payload.None? {
      return Err(App(AuthenticationError(TokenRejected)));
    }
    req.userId := SubjectNumber(payload.value.sub);
    req.role := Some(payload.value.role);
    return Ok(());
  }

  /**
   * The access token a login issues, sent under any one-word scheme before
   * it expires, authenticates as that user: `Number(String(id)) == id`.
   */
  lemma LoginTokenAuthenticates(cfg: Config, u: User, issuedMs: nat, scheme: string, nowMs: nat)
    requires ' ' !in scheme
    requires nowMs / 1000 < issuedMs / 1000 + cfg.accessTokenLifetime
    ensures Authenticate(Some(scheme + " " + AccessToken(cfg, u, issuedMs)), cfg.jwtAccessSecret, nowMs)
         == Ok(Identity(Some(u.id), u.role))
  {
    var token := AccessToken(cfg, u, issuedMs);
    BearerOfAnyScheme(scheme, token);
    VerifySigned(AccessPayload(u), cfg.jwtAccessSecret, cfg.accessTokenLifetime, issuedMs, cfg.jwtAccessSecret, nowMs);
  }
}
