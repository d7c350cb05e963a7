# Authentication and authorization flow: a Dafny model

This project models the authentication and authorization core of a migrant-worker
health-record web service. Three pieces are covered. The auth controller answers
`login` and `register` over the user collection. The access middleware turns a
request's Authorization header into a 401, a 403 or a pass to the next handler,
and gates routes by role. The user record, role set and seed users define what a
stored user is. bcrypt and jsonwebtoken are libraries whose code is not part of
this model. Each is represented by a record of functions (`Bcrypt.Hasher`,
`Jwt.Codec`) together with a ghost predicate `Lawful` that states the only laws
the model relies on:

- a password matches its own digest;
- a digest is 60 characters long;
- a signed token decodes, under the same secret, to what was signed;
- a signed token does not decode under another secret;
- a signed token is non-empty and contains no space.

The time claims of RFC 7519 (sections 4.1.4 and 4.1.5), as jsonwebtoken
applies them, are modelled concretely:

- `iat` is the clock reading in milliseconds, divided by 1000 and rounded down;
- a signed token's `exp` is `iat + 86400`, and it has no `nbf`;
- a token whose `nbf` is after the current second is not yet active;
- a token is expired once the current second is at least its `exp`.

A decoded token without `exp` or `nbf` skips that check.

Files, one module each:

| file | module | source |
|---|---|---|
| wrappers.dfy | `Wrappers` | Option and Result |
| users.dfy | `Users` | backend/src/data/users.ts |
| user_model.dfy | `UserModel` | backend/src/models/User.ts |
| bcrypt.dfy | `Bcrypt` | the password hasher, as authController.ts calls it |
| jwt.dfy | `Jwt` | token signing and verification, as authController.ts and authMiddleware.ts call them |
| auth_controller.dfy | `AuthController` | backend/src/controllers/authController.ts |
| auth_middleware.dfy | `AuthMiddleware` | backend/src/middleware/authMiddleware.ts |

Things the model takes as parameters:

- the clock (`nowMs`, in milliseconds);
- the `_id` that Mongoose assigns (`freshId`);
- a database failure (`dbFault`);
- the hasher, the codec and the value of the `JWT_SECRET` variable
  (`AuthController.Env`).

`UserStore` is a class whose field `users` holds the collection, keyed by
username. Its `Login` method has no `modifies` clause, so it cannot change the
collection. Its `Register` method changes the collection only on a 201 answer.
Both methods are proved equal to the reference functions `LoginOutcome` and
`RegisterOutcome`; the lemmas are stated about those functions.
`AuthMiddleware.Exchange` holds one request and response:

- the header the client sent;
- `req.user`;
- the response that was sent;
- how many times `next()` was called.

Behaviour of the code worth noting:

- A registration whose role is outside `worker`/`doctor`/`admin` fails
  Mongoose's enum validator at `save`, so it is answered 500 "Server error".
  The role default `worker` applies only when no role is sent.
- A missing or empty `name`, or an empty `username`, is also rejected at `save`
  with 500, because Mongoose's `required` check for strings refuses the empty
  string.
- An Authorization header that is present but empty is falsy in the
  middleware's `if (authHeader)` test, so it is answered 401, like a missing
  header.
- `expiresIn: '1d'` gives `exp = iat + 86400`. Because `iat` is the clock
  rounded down to whole seconds, a token is accepted for between 86399.001 and
  86400 seconds, depending on the millisecond at which it was signed
  (`Jwt.ValidityWindow`).
- authController.ts (line 6) and authMiddleware.ts (line 5) both compute the signing secret as `process.env.JWT_SECRET ||
  'fallback_secret'`. The model passes the variable's value to both
  (`AuthController.Env.jwtSecretVar`, the `jwtSecretVar` parameter of
  `AuthMiddleware.AuthenticateJwt`) and both derive the secret with
  `Jwt.Secret`, which is never empty.
- `req.user` holds the decoded payload as `jwt.verify` returns it (claims,
  `iat` and, when present, `exp` and `nbf`), not only `{id, username, role}`.
- `jwt.verify` checks `nbf` and `exp` only when the token carries them, so a
  correctly signed token without `exp` is accepted at every clock reading
  (`Jwt.NoExpiryNeverExpires`). Every token this server signs carries `exp`.
- A login request without a password answers 500 for an existing username
  (`bcrypt.compare` throws on the missing argument and the catch block
  answers) but 401 for an unknown one, so it reveals which usernames exist
  (`AuthController.MissingPasswordRevealsUser`).

## Model

| member | source | states |
|---|---|---|
| Users.ParseRole | backend/src/data/users.ts:1 | a string is a role exactly when it is one of "worker", "doctor", "admin", and then it is that role's name |
| Users.ParseRoleExact | backend/src/data/users.ts:1 | role names and roles correspond one to one, in both directions |
| Users.RoleName | backend/src/models/User.ts:17 | every role's name is one of the three enum strings |
| Users.CountRole | backend/src/data/users.ts:12-34 | the count of users holding a role is at most the list length, and is zero exactly when no user holds it |
| Users.Index | backend/src/data/users.ts:12-34 | the seed list as a store: its keys are exactly the usernames, and each key maps to a record with that username |
| Users.IndexComplete | backend/src/data/users.ts:12-34 | with distinct usernames, the store has one entry per user and every user is found under its own username |
| Users.Seed | backend/src/data/users.ts:12-34 | the three seed users: ids '1', '2', '3', usernames worker1, doctor1, admin1 with roles worker, doctor, admin, the password password123 and names John Doe, Dr. Smith, System Admin |
| Users.SeedShape | backend/src/data/users.ts:12-34 | the seed has three users, with pairwise distinct ids ('1', '2', '3') and usernames |
| Users.SeedEachRoleOnce | backend/src/data/users.ts:17-31 | each of worker, doctor and admin appears exactly once in the seed |
| Users.SeedStore | backend/src/data/users.ts:12-34 | the seed store has exactly the keys worker1, doctor1, admin1, each holding its seed user |
| UserModel.SeedMeetsSchema | backend/src/models/User.ts:13-20 | every seed user has non-empty username, password and name; usernames and ids are unique |
| UserModel.SeedSatisfiesStoreInvariant | backend/src/data/users.ts:12-34 | the seed, loaded as documents at any creation time, is a collection satisfying the schema invariant, with keys worker1, doctor1, admin1 |
| UserModel.ValidDoc | backend/src/models/User.ts:13-20 | a stored record has non-empty username, password and name, as the `required` string fields demand |
| UserModel.StoreInvariant | backend/src/models/User.ts:13-20 | each key is its record's username, every record has non-empty username, password and name, and `_id`s are distinct; it follows that no two records share a username |
| UserModel.NewUser | backend/src/controllers/authController.ts:58-63 | the document `new User` builds: the given id, username, digest and name, the sent role or the default worker (User.ts:18), and the clock reading as createdAt (User.ts:21) |
| UserModel.Validate | backend/src/models/User.ts:13-20 | save validation passes exactly when username, password and name are non-empty and the role string is in the enum; the result is a valid document carrying the draft's fields |
| UserModel.Save | backend/src/models/User.ts:13 | save succeeds exactly when validation passes and neither the username nor the _id is already in the collection |
| UserModel.SavePreservesInvariant | backend/src/models/User.ts:13-21 | adding a saved document keeps every record valid, keyed by its username, with unique ids |
| UserModel.NewUserDefaults | backend/src/models/User.ts:15-21 | with no role sent, the saved role is worker; a sent role is stored as sent; a role outside the enum is rejected; createdAt is the clock reading at creation |
| Jwt.Secret | backend/src/controllers/authController.ts:6 | the signing secret is never empty; it is the fallback exactly when the variable is unset, empty, or itself the fallback string; otherwise it is the variable's value |
| Jwt.Issue | backend/src/controllers/authController.ts:26-30 | the signed payload carries the given claims, iat is the clock in whole seconds rounded down, exp is iat plus one day, and there is no nbf |
| Jwt.Sign | backend/src/controllers/authController.ts:26-30 | the token `jwt.sign` returns for the claims at a clock reading; under the library's laws it decodes under the same secret to the issued payload, is non-empty and has no space (also authController.ts:67-71) |
| Jwt.Verify | backend/src/middleware/authMiddleware.ts:21-24 | verification succeeds exactly for a non-empty token that decodes under the secret, whose nbf, if present, is not after the current second, and whose exp, if present, is after it; a missing or empty token is "not provided"; "invalid" exactly when decoding fails; "expired" only for a token carrying exp |
| Jwt.NoExpiryNeverExpires | backend/src/middleware/authMiddleware.ts:21-24 | a correctly signed payload without exp or nbf verifies to itself at every clock reading |
| Jwt.VerifySigned | backend/src/controllers/authController.ts:26-30 | a token verifies under the secret that signed it and gives back the signed payload before expiry, and is "expired" after |
| Jwt.ValidityWindow | backend/src/controllers/authController.ts:29 | a token is accepted up to 86399 s after signing, and expired from 86400 s on |
| Jwt.OtherSecretRejected | backend/src/middleware/authMiddleware.ts:21-24 | a token signed under one secret is invalid under any other |
| AuthController.ViewOf | backend/src/controllers/authController.ts:34-39 | the user object in a 200 or 201 answer: id, username, role and name of the stored record, never the password (also authController.ts:76-79) |
| AuthController.ClaimsOf | backend/src/controllers/authController.ts:27 | the token claims: id, username and role of the stored record (also authController.ts:68) |
| AuthController.LoginOutcome | backend/src/controllers/authController.ts:8-44 | login issues a token exactly when the database answers, the user exists, a password was sent and it matches the stored digest; then the status is 200, the view is the stored user's, and the token signs its claims; every failure is 401 "Invalid credentials" or 500 "Server error", and it is 500 exactly on a database fault or a missing password for an existing user (the catch block) |
| AuthController.LoginUnknownUser | backend/src/controllers/authController.ts:12-17 | an unknown username gets 401 "Invalid credentials" and no token, whatever the password |
| AuthController.WrongPasswordLooksUnknown | backend/src/controllers/authController.ts:19-24 | a wrong password gets exactly the response the request would get if the user did not exist |
| AuthController.MissingPasswordRevealsUser | backend/src/controllers/authController.ts:12-19 | a login without a password is answered 500 "Server error" for an existing username and 401 "Invalid credentials" for an unknown one (catch block at authController.ts:41-43) |
| AuthController.LoginTokenClaims | backend/src/controllers/authController.ts:26-40 | a successful login's token decodes to exactly {id, username, role} of the stored record, with exp one day after iat; the view holds id, username, role and name only |
| AuthController.RegisterOutcome | backend/src/controllers/authController.ts:46-85 | a 201 adds the user under its username and keeps every other record; the new record is exactly the fresh id, the requested username, hash(password), the stored role whose name is the requested role (worker when none was sent), the requested name and the clock reading as createdAt; it returns that record's view and a token for it; every failure leaves the collection unchanged and is 400 "User already exists" (exactly for a taken username) or 500 "Server error"; the store invariant is preserved |
| AuthController.RegisterSucceedsIff | backend/src/controllers/authController.ts:49-73 | register succeeds exactly when the database answers, the username and _id are free, a password was sent, the username is non-empty, the role (default worker) is in the enum, and a non-empty name was sent |
| AuthController.RegisterAddsOne | backend/src/controllers/authController.ts:56-65 | a successful register adds exactly one record and changes no other |
| AuthController.RegisterDuplicate | backend/src/controllers/authController.ts:50-54 | a taken username gets 400 "User already exists" and the collection stays as it was |
| AuthController.RegisterInvalidRecord | backend/src/controllers/authController.ts:65 | a record with a role outside the enum or a missing or empty name gets 500 "Server error" and changes nothing |
| AuthController.RegisterDefaultRole | backend/src/controllers/authController.ts:58-63 | a registration sent without a role stores role worker |
| AuthController.RegisterThenLogin | backend/src/controllers/authController.ts:56-73 | after a successful register(u, p, role, name), login(u, p) answers 200 and its token verifies, until expiry, to claims with username u and the registered role |
| AuthController.UserStore.constructor | backend/src/models/User.ts:24 | a store starts from a collection that satisfies the invariant |
| AuthController.UserStore.Login | backend/src/controllers/authController.ts:8-44 | the login method answers as LoginOutcome and has no modifies clause, so it never changes the collection |
| AuthController.UserStore.Register | backend/src/controllers/authController.ts:46-85 | the register method's new collection and answer are those of RegisterOutcome; the invariant holds afterwards; on failure the collection is unchanged |
| AuthMiddleware.Split | backend/src/middleware/authMiddleware.ts:19 | splitting on ' ' always yields at least one piece |
| AuthMiddleware.SplitPiecesSpaceFree | backend/src/middleware/authMiddleware.ts:19 | no piece of a split contains a space |
| AuthMiddleware.SplitSpaceFree | backend/src/middleware/authMiddleware.ts:19 | a string without spaces splits into itself |
| AuthMiddleware.SplitFirstSpace | backend/src/middleware/authMiddleware.ts:19 | splitting "word rest" gives the word, then the pieces of rest |
| AuthMiddleware.SplitAtSpace | backend/src/middleware/authMiddleware.ts:19 | a string containing a space splits into at least two pieces |
| AuthMiddleware.BearerToken | backend/src/middleware/authMiddleware.ts:19 | there is no token exactly when the header has no space; a token never contains a space |
| AuthMiddleware.BearerTokenAfterFirstWord | backend/src/middleware/authMiddleware.ts:19 | the token is the piece after the first space, whatever the first word is |
| AuthMiddleware.Authenticate | backend/src/middleware/authMiddleware.ts:5-32 | a missing or empty header gives 401; otherwise the result is 403 exactly when verifying the second piece under the secret derived from JWT_SECRET fails, and the authenticated user is the verified payload |
| AuthMiddleware.NoSecondFieldForbidden | backend/src/middleware/authMiddleware.ts:19-24 | a one-word header carries no token and gets 403 |
| AuthMiddleware.SignedTokenAccepted | backend/src/middleware/authMiddleware.ts:5-27 | "word token" with a token signed under the secret of one JWT_SECRET value is accepted with the signed payload before expiry, whatever the word, when the middleware's JWT_SECRET value yields the same secret; it gets 403 once expired or when the secrets differ |
| AuthMiddleware.Exchange.constructor | backend/src/middleware/authMiddleware.ts:7-13 | a request starts with req.user unset, nothing sent and next not called |
| AuthMiddleware.AuthenticateJwt | backend/src/middleware/authMiddleware.ts:15-32 | exactly one of: 401 sent, or 403 sent (both leave req.user and next untouched), or req.user set to the payload with next called once and nothing sent |
| AuthMiddleware.Permits | backend/src/middleware/authMiddleware.ts:36 | `roles.includes(req.user.role)`: a request is admitted exactly when req.user is set and some position of the allow-list holds its role |
| AuthMiddleware.EmptyAllowListRejects | backend/src/middleware/authMiddleware.ts:36 | an empty allow-list admits no request |
| AuthMiddleware.PermitsMonotone | backend/src/middleware/authMiddleware.ts:36 | widening the allow-list never turns an admitted request away |
| AuthMiddleware.AuthorizeRole | backend/src/middleware/authMiddleware.ts:34-41 | next is called once exactly when req.user is set and its role is on the list; otherwise 403 "Forbidden: Access denied" is sent and next is not called; req.user is unchanged |
| AuthMiddleware.AdminRouteRefusesDoctor | backend/src/middleware/authMiddleware.ts:15-41 | a valid doctor token on a route gated to admin passes authentication, then gets 403 "Forbidden: Access denied" |

## Left out

- async/await, Promises and Mongoose persistence mechanics. A failing `findOne` or `save` is the single flag `dbFault`, answered 500 with the collection unchanged.
- Concurrent registrations racing past the `findOne` check. Calls are sequential.
- bcrypt salting, the cost factor 10 and timing. `hash` is an arbitrary deterministic function, so repeated hashes of one password are not shown to differ.
- AuthController.RegisterOutcome: states that the stored password is `hash(p)`. That the digest differs from the plaintext is not provable of an abstract hash.
- JWT cryptography (HMAC signing, base64url and JSON encoding) and jsonwebtoken's algorithm lists. These are inside the abstract `decode`.
- Jwt.Verify: a payload holds the claims `{id, username, role}` with a role from the enum, a numeric `iat`, and optional numeric `exp` and `nbf`. Tokens with other claims, a role outside the enum, or a non-numeric `exp` or `nbf` (which jsonwebtoken rejects as invalid) are not represented. `jwt.verify`'s clock tolerance and `maxAge` options, unused here, are not modelled.
- Reading `process.env`: the value of `JWT_SECRET` is a parameter. The model does not capture that both files read it at module load, so it does not show they see the same value.
- Request bodies without a `username`. Mongoose's handling of an undefined filter value is not modelled, so `username` is always a string. Non-string JSON values (numbers, null, objects) for any field are not modelled either. An absent `password`, `role` or `name` is modelled.
- Mongoose reports every failing validator at once. The model has a single `ValidationError`.
- The clock is read once per call. The same reading gives `createdAt` and the token's `iat`, though the source reads the clock separately at `new User` and at `jwt.sign`.
- The seed passwords are plaintext and are not hashed. The seed is a list the controller never reads.
- Route handlers after the middleware, and a role gate running without authentication first. That is covered only as `req.user` being unset.
- frontend/src/app/components/QRCodeCard.tsx, backend/src/index.ts and backend/src/config/db.ts are not part of this model. They hold UI rendering, Express wiring and the database connection.
