/**
 * Signed tokens (jsonwebtoken, compact JWS form of RFC 7519) as
 * authController.ts and authMiddleware.ts use them. Signing and decoding are
 * abstract functions held in a `Codec`; the claim layout and the time checks
 * ("nbf" and "exp", sections 4.1.5 and 4.1.4 of RFC 7519) are modelled as
 * jsonwebtoken applies them.
 */
module Jwt {
  import opened Wrappers
  import opened Users

  /** The claims both `login` and `register` sign. */
  datatype Claims = Claims(id: string, username: string, role: Role)

  /**
   * A decoded token: the claims plus the issued-at time and the optional
   * expiry and not-before times, in whole seconds.
   */
  datatype Payload = Payload(claims: Claims, iat: int, exp: Option<int>, nbf: Option<int>)

  /**
   * `encode(p, k)` is HMAC signing with secret `k` plus the compact encoding;
   * `decode(t, k)` parses `t` and checks its signature under `k`, giving
   * `None` for a malformed token or a bad signature.
   */
  datatype Codec = Codec(encode: (Payload, string) -> string, decode: (string, string) -> Option<Payload>)

  /** The laws of the signing library the model relies on. */
  ghost predicate Lawful(c: Codec)
  {
    && (forall p, k :: c.decode(c.encode(p, k), k) == Some(p))
    && (forall p, k, k' :: k != k' ==> c.decode(c.encode(p, k), k') == None)
    && (forall p, k :: c.encode(p, k) != "" && ' ' !in c.encode(p, k))
  }

  /** `expiresIn: '1d'`, in seconds. */
  const OneDay: nat := 86400

  const FallbackSecret: string := "fallback_secret"

  /** `process.env.JWT_SECRET || 'fallback_secret'`: an unset or empty variable selects the fallback. */
  function Secret(env: Option<string>): (s: string)
    ensures s != ""
    ensures s == FallbackSecret <==> env.None? || env.value == "" || env.value == FallbackSecret
    ensures s != FallbackSecret ==> env == Some(s)
  {
    if env.Some? && env.value != "" then env.value else FallbackSecret
  }

  /** The payload `jwt.sign` builds at clock reading `nowMs` (milliseconds). */
  function Issue(c: Claims, nowMs: nat): (p: Payload)
    ensures p.claims == c
    ensures p.exp == Some(p.iat + OneDay) && p.nbf == None
    ensures p.iat * 1000 <= nowMs < p.iat * 1000 + 1000
  {
    var iat := nowMs / 1000;
    Payload(c, iat, Some(iat + OneDay), None)
  }

  /** `jwt.sign(claims, secret, { expiresIn: '1d' })`: under the library's laws the token decodes back to the issued payload and has no spaces. */
  function Sign(codec: Codec, c: Claims, secret: string, nowMs: nat): (t: string)
    ensures Lawful(codec) ==> codec.decode(t, secret) == Some(Issue(c, nowMs)) && t != "" && ' ' !in t
  {
    codec.encode(Issue(c, nowMs), secret)
  }

  /** `NotActive` is jsonwebtoken's NotBeforeError, `Expired` its TokenExpiredError. */
  datatype JwtError = NotProvided | Invalid | NotActive | Expired

  /**
   * `jwt.verify(token, secret)` at clock reading `nowMs`: the signature first,
   * then `nbf`, then `exp`; each time check runs only when its claim is present.
   */
  function Verify(codec: Codec, token: Option<string>, secret: string, nowMs: nat): (r: Result<Payload, JwtError>)
    ensures r.Success? <==> token.Some? && token.value != "" && codec.decode(token.value, secret).Some?
                            && (var p := codec.decode(token.value, secret).value;
                                (p.nbf.None? || p.nbf.value <= nowMs / 1000) && (p.exp.None? || nowMs / 1000 < p.exp.value))
    ensures r.Success? ==> codec.decode(token.value, secret) == Some(r.value)
    ensures r == Failure(NotProvided) <==> token.None? || token.value == ""
    ensures r == Failure(Invalid) <==> token.Some? && token.value != "" && codec.decode(token.value, secret).None?
    ensures r == Failure(Expired) ==> codec.decode(token.value, secret).value.exp.Some?
  {
    match token
    case None => Failure(NotProvided)
    case Some(t) =>
      if t == "" then Failure(NotProvided)
      else
        match codec.decode(t, secret)
        case None => Failure(Invalid)
        case Some(p) =>
          var now := nowMs / 1000;
          if p.nbf.Some? && p.nbf.value > now then Failure(NotActive)
          else if p.exp.Some? && now >= p.exp.value then Failure(Expired)
          else Success(p)
  }

  /** Round trip: a token verifies under the secret that signed it, giving back the signed payload, until its expiry second. */
  lemma VerifySigned(codec: Codec, c: Claims, secret: string, signedMs: nat, nowMs: nat)
    requires Lawful(codec)
    ensures Verify(codec, Some(Sign(codec, c, secret, signedMs)), secret, nowMs)
         == if nowMs / 1000 < signedMs / 1000 + OneDay then Success(Issue(c, signedMs)) else Failure(Expired)
  {
  }

  /** A token is accepted for at least 86399 seconds after signing, and rejected as expired from 86400 seconds on. */
  lemma ValidityWindow(codec: Codec, c: Claims, secret: string, signedMs: nat, nowMs: nat)
    requires Lawful(codec)
    ensures nowMs <= signedMs + (OneDay - 1) * 1000 ==> Verify(codec, Some(Sign(codec, c, secret, signedMs)), secret, nowMs).Success?
    ensures nowMs >= signedMs + OneDay * 1000 ==> Verify(codec, Some(Sign(codec, c, secret, signedMs)), secret, nowMs) == Failure(Expired)
  {
    VerifySigned(codec, c, secret, signedMs, nowMs);
  }

  /**
   * A correctly signed payload without `exp` or `nbf` is accepted at every
   * clock reading: jsonwebtoken only checks the time claims that are present.
   */
  lemma NoExpiryNeverExpires(codec: Codec, p: Payload, secret: string, nowMs: nat)
    requires Lawful(codec) && p.exp.None? && p.nbf.None?
    ensures Verify(codec, Some(codec.encode(p, secret)), secret, nowMs) == Success(p)
  {
  }

  /** A token signed under one secret never verifies under another. */
  lemma OtherSecretRejected(codec: Codec, c: Claims, secret: string, other: string, signedMs: nat, nowMs: nat)
    requires Lawful(codec) && other != secret
    ensures Verify(codec, Some(Sign(codec, c, secret, signedMs)), other, nowMs) == Failure(Invalid)
  {
  }
}
