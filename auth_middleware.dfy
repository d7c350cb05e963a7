/**
 * The access middleware of backend/src/middleware/authMiddleware.ts:
 * `authenticateJWT` turns the Authorization header into a decision (401, 403
 * or on to the next handler with `req.user` set) and `authorizeRole` gates a
 * route on an allow-list of roles.
 */
module AuthMiddleware {
  import opened Wrappers
  import opened Users
  import Jwt

  /** `s.split(' ')`: the pieces between single spaces, empty pieces included. */
  function Split(s: string): (r: seq<string>)
    ensures |r| >= 1
  {
    if s == [] then [""]
    else
      var rest := Split(s[1..]);
      if s[0] == ' ' then [""] + rest
      else [[s[0]] + rest[0]] + rest[1..]
  }

  /** No piece of a split contains a space. */
  lemma {:induction false} SplitPiecesSpaceFree(s: string)
    ensures forall i :: 0 <= i < |Split(s)| ==> ' ' !in Split(s)[i]
  {
    if s != [] {
      SplitPiecesSpaceFree(s[1..]);
    }
  }

  /** A string without spaces splits into itself. */
  lemma {:induction false} SplitSpaceFree(s: string)
    requires ' ' !in s
    ensures Split(s) == [s]
  {
    if s != [] {
      SplitSpaceFree(s[1..]);
      assert [s[0]] + s[1..] == s;
    }
  }

  /** Splitting at the first space: the first word, then the pieces of the rest. */
  lemma {:induction false} SplitFirstSpace(word: string, rest: string)
    requires ' ' !in word
    ensures Split(word + " " + rest) == [word] + Split(rest)
  {
    if word == [] {
      assert word + " " + rest == [' '] + rest;
      assert (word + " " + rest)[1..] == rest;
    } else {
      assert (word + " " + rest)[1..] == word[1..] + " " + rest;
      SplitFirstSpace(word[1..], rest);
      assert [word[0]] + word[1..] == word;
    }
  }

  /** A string with a space splits into at least two pieces. */
  lemma {:induction false} SplitAtSpace(s: string)
    requires ' ' in s
    ensures |Split(s)| > 1
  {
    if s[0] != ' ' {
      SplitAtSpace(s[1..]);
    }
  }

  /** `authHeader.split(' ')[1]`: the second piece, undefined when the header has no space. */
  function BearerToken(header: string): (t: Option<string>)
    ensures t.None? <==> ' ' !in header
    ensures t.Some? ==> ' ' !in t.value
  {
    SplitPiecesSpaceFree(header);
    if ' ' !in header then SplitSpaceFree(header); None
    else SplitAtSpace(header); Some(Split(header)[1])
  }

  /** The token is the piece after the first space, and the first word is never examined. */
  lemma BearerTokenAfterFirstWord(word: string, rest: string)
    requires ' ' !in word
    ensures BearerToken(word + " " + rest) == Some(Split(rest)[0])
    ensures ' ' !in rest ==> BearerToken(word + " " + rest) == Some(rest)
  {
    SplitFirstSpace(word, rest);
    if ' ' !in rest {
      SplitSpaceFree(rest);
    }
  }

  /** What `authenticateJWT` decides for one request. */
  datatype Verdict = Unauthenticated | Forbidden | Authenticated(user: Jwt.Payload)

  /**
   * The decision for an Authorization header at clock reading `nowMs`, with
   * the secret computed from the JWT_SECRET variable `jwtSecretVar`; an empty
   * header counts as absent.
   */
  function Authenticate(header: Option<string>, codec: Jwt.Codec, jwtSecretVar: Option<string>, nowMs: nat): (v: Verdict)
    ensures v.Unauthenticated? <==> header.None? || header.value == ""
    ensures v.Authenticated? ==> Jwt.Verify(codec, BearerToken(header.value), Jwt.Secret(jwtSecretVar), nowMs) == Success(v.user)
    ensures v.Forbidden? <==> header.Some? && header.value != ""
                              && Jwt.Verify(codec, BearerToken(header.value), Jwt.Secret(jwtSecretVar), nowMs).Failure?
  {
    if header.None? || header.value == "" then Unauthenticated
    else
      match Jwt.Verify(codec, BearerToken(header.value), Jwt.Secret(jwtSecretVar), nowMs)
      case Failure(_) => Forbidden
      case Success(p) => Authenticated(p)
  }

  /** A header of one word carries no token and is refused with 403. */
  lemma NoSecondFieldForbidden(header: string, codec: Jwt.Codec, jwtSecretVar: Option<string>, nowMs: nat)
    requires header != "" && ' ' !in header
    ensures Authenticate(Some(header), codec, jwtSecretVar, nowMs) == Forbidden
  {
  }

  /**
   * A header "<word> <token>" carrying a token signed with the secret of
   * variable `signVar` is accepted with the signed payload until expiry,
   * whatever the word, when the middleware's variable `verifyVar` yields the
   * same secret; it is refused with 403 from the expiry second on, or when the
   * two secrets differ.
   */
  lemma SignedTokenAccepted(word: string, codec: Jwt.Codec, c: Jwt.Claims, signVar: Option<string>, verifyVar: Option<string>,
                            signedMs: nat, nowMs: nat)
    requires Jwt.Lawful(codec) && ' ' !in word
    ensures var v := Authenticate(Some(word + " " + Jwt.Sign(codec, c, Jwt.Secret(signVar), signedMs)), codec, verifyVar, nowMs);
            var same := Jwt.Secret(verifyVar) == Jwt.Secret(signVar);
            && (same && nowMs / 1000 < signedMs / 1000 + Jwt.OneDay ==> v == Authenticated(Jwt.Issue(c, signedMs)))
            && (same && nowMs / 1000 >= signedMs / 1000 + Jwt.OneDay ==> v == Forbidden)
            && (!same ==> v == Forbidden)
  {
    var token := Jwt.Sign(codec, c, Jwt.Secret(signVar), signedMs);
    BearerTokenAfterFirstWord(word, token);
    Jwt.VerifySigned(codec, c, Jwt.Secret(signVar), signedMs, nowMs);
  }

  /** What the handler sent on the response. */
  datatype Sent = Status(code: nat) | Json(code: nat, message: string)

  const AccessDenied: string := "Forbidden: Access denied"

  /** One request/response exchange: the header the client sent, `req.user`, the response sent, and how often `next()` ran. */
  class Exchange {
    const authorization: Option<string>
    var user: Option<Jwt.Payload>
    var sent: Option<Sent>
    var nextCalls: nat

    constructor (authorization: Option<string>)
      ensures this.authorization == authorization
      ensures user == None && sent == None && nextCalls == 0
    {
      this.authorization := authorization;
      user := None;
      sent := None;
      nextCalls := 0;
    }
  }

  /** `authenticateJWT`: exactly one of 401, 403, or `req.user` set and `next()` called once. */
  method AuthenticateJwt(ex: Exchange, codec: Jwt.Codec, jwtSecretVar: Option<string>, nowMs: nat)
    modifies ex
    ensures match Authenticate(ex.authorization, codec, jwtSecretVar, nowMs)
            case Unauthenticated =>
              ex.sent == Some(Status(401)) && ex.user == old(ex.user) && ex.nextCalls == old(ex.nextCalls)
            case Forbidden =>
              ex.sent == Some(Status(403)) && ex.user == old(ex.user) && ex.nextCalls == old(ex.nextCalls)
            case Authenticated(p) =>
              ex.user == Some(p) && ex.nextCalls == old(ex.nextCalls) + 1 && ex.sent == old(ex.sent)
  {
    var authHeader := ex.authorization;
    if authHeader.Some? && authHeader.value != "" {
      var token := BearerToken(authHeader.value);
      var verified := Jwt.Verify(codec, token, Jwt.Secret(jwtSecretVar), nowMs);
      if verified.Failure? {
        ex.sent := Some(Status(403));
        return;
      }
      ex.user := Some(verified.value);
      ex.nextCalls := ex.nextCalls + 1;
    } else {
      ex.sent := Some(Status(401));
    }
  }

  /** The role gate's test: `req.user` is set and its role is on the allow-list. */
  predicate Permits(roles: seq<Role>, user: Option<Jwt.Payload>)
    ensures Permits(roles, user) <==> user.Some? && exists i :: 0 <= i < |roles| && roles[i] == user.value.claims.role
  {
    user.Some? && user.value.claims.role in roles
  }

  /** An empty allow-list admits nobody. */
  lemma EmptyAllowListRejects(user: Option<Jwt.Payload>)
    ensures !Permits([], user)
  {
  }

  /** Widening the allow-list never turns an admitted request away. */
  lemma PermitsMonotone(roles: seq<Role>, wider: seq<Role>, user: Option<Jwt.Payload>)
    requires forall r :: r in roles ==> r in wider
    ensures Permits(roles, user) ==> Permits(wider, user)
  {
  }

  /** `authorizeRole(roles)` applied to one exchange: `next()` once if permitted, otherwise 403 with the access-denied message. */
  method AuthorizeRole(roles: seq<Role>, ex: Exchange)
    modifies ex
    ensures ex.user == old(ex.user)
    ensures Permits(roles, ex.user) ==> ex.nextCalls == old(ex.nextCalls) + 1 && ex.sent == old(ex.sent)
    ensures !Permits(roles, ex.user) ==> ex.sent == Some(Json(403, AccessDenied)) && ex.nextCalls == old(ex.nextCalls)
  {
    if ex.user.None? || ex.user.value.claims.role !in roles {
      ex.sent := Some(Json(403, AccessDenied));
      return;
    }
    ex.nextCalls := ex.nextCalls + 1;
  }

  /** A route gated to admins refuses a valid doctor token with 403 "Forbidden: Access denied". */
  method AdminRouteRefusesDoctor(codec: Jwt.Codec, jwtSecretVar: Option<string>, signedMs: nat, nowMs: nat) returns (ex: Exchange)
    requires Jwt.Lawful(codec)
    requires nowMs / 1000 < signedMs / 1000 + Jwt.OneDay
    ensures ex.nextCalls == 1 && ex.sent == Some(Json(403, AccessDenied))
  {
    var doctor := Jwt.Claims("2", "doctor1", Doctor);
    var token := Jwt.Sign(codec, doctor, Jwt.Secret(jwtSecretVar), signedMs);
    assert "Bearer " + token == "Bearer" + " " + token;
    ex := new Exchange(Some("Bearer " + token));
    SignedTokenAccepted("Bearer", codec, doctor, jwtSecretVar, jwtSecretVar, signedMs, nowMs);
    AuthenticateJwt(ex, codec, jwtSecretVar, nowMs);
    AuthorizeRole([Admin], ex);
  }
}
